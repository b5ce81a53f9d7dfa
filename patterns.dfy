/** Hand-written matchers for the fixed regular expressions of Reader.cs.

    Each `…At(s, i, …)` function is one attempt of the .NET engine to match at
    position `i`; each scanning function is `Regex.Matches`, which tries the
    positions from left to right and, after a match, resumes where it ended;
    each `Find…` function is `Regex.Match`, the first success. In all these
    patterns a greedy run can only give back characters of its own class, on
    which the `\s`, `\r?\n` or `\n?` that follows fails or matches nothing, so
    backtracking never produces a different match: every attempt has at most
    one result, the one computed here. `RegexOptions.IgnoreCase` applies to the
    keywords and to the spliced ids (`LiteralAt`). */
module Patterns {
  import opened Wrappers
  import opened Text

  // ------------------------------------------------------ user and room records

  /** A match spanning `s[start..end]` of `keyword\s(?<id>[^\s]+)\s(?<name>[^\r\n]+)`
      (Reader.cs:291, 404), or of the same pattern with a spliced-in id
      (Reader.cs:238, 351); `id` is the text the file holds there. */
  datatype Record = Record(id: string, name: string, start: nat, end: nat)

  /** The declarative reading of the bulk record pattern at `r.start`. */
  ghost predicate RecordShape(s: string, keyword: string, r: Record) {
    var idStart := r.start + |keyword| + 1;
    var nameStart := idStart + |r.id| + 1;
    && nameStart + |r.name| == r.end <= |s|
    && LiteralAt(s, r.start, |s|, keyword)
    && IsSpace(s[idStart - 1])
    && s[idStart..nameStart - 1] == r.id
    && |r.id| > 0
    && (forall k :: idStart <= k < nameStart - 1 ==> NotSpace(s[k]))
    && IsSpace(s[nameStart - 1])
    && s[nameStart..r.end] == r.name
    && |r.name| > 0
    && (forall k :: nameStart <= k < r.end ==> NotLineBreak(s[k]))
    && (r.end == |s| || !NotLineBreak(s[r.end]))
  }

  /** One attempt of `keyword\s(?<id>[^\s]+)\s(?<name>[^\r\n]+)` at `i`. */
  function RecordAt(s: string, i: nat, keyword: string): (r: Option<Record>)
    requires i <= |s|
    ensures r.Some? ==> r.value.start == i && i < r.value.end <= |s|
  {
    var idStart := i + |keyword| + 1;
    if !LiteralAt(s, i, |s|, keyword) || idStart > |s| || !IsSpace(s[idStart - 1]) then None
    else
      var idEnd := RunEnd(s, idStart, |s|, NotSpace);
      if idEnd == idStart || idEnd == |s| then None
      else
        var nameEnd := RunEnd(s, idEnd + 1, |s|, NotLineBreak);
        if nameEnd == idEnd + 1 then None
        else Some(Record(s[idStart..idEnd], s[idEnd + 1..nameEnd], i, nameEnd))
  }

  /** The scanner finds exactly the match the pattern describes. */
  lemma RecordAtSpec(s: string, i: nat, keyword: string, r: Record)
    requires i <= |s|
    ensures RecordAt(s, i, keyword) == Some(r) <==> r.start == i && RecordShape(s, keyword, r)
  {
    if r.start == i && RecordShape(s, keyword, r) {
      var idStart := i + |keyword| + 1;
      var idEnd := idStart + |r.id|;
      RunEndUnique(s, idStart, |s|, NotSpace, idEnd);
      RunEndUnique(s, idEnd + 1, |s|, NotLineBreak, r.end);
    }
  }

  /** `Regex.Matches` for the bulk record pattern, from position `i`. */
  function Records(s: string, i: nat, keyword: string): (rs: seq<Record>)
    requires i <= |s|
    ensures forall j :: 0 <= j < |rs| ==> i <= rs[j].start < rs[j].end <= |s|
    decreases |s| - i
  {
    if i == |s| then []
    else
      match RecordAt(s, i, keyword)
      case Some(r) => [r] + Records(s, r.end, keyword)
      case None => Records(s, i + 1, keyword)
  }

  /** Every record reported is a match of the pattern at its own start. */
  lemma {:induction false} RecordsAreMatches(s: string, i: nat, keyword: string, r: Record)
    requires i <= |s| && r in Records(s, i, keyword)
    ensures r.start <= |s| && RecordAt(s, r.start, keyword) == Some(r)
    decreases |s| - i
  {
    match RecordAt(s, i, keyword)
    case Some(x) =>
      if r != x {
        assert Records(s, i, keyword) == [x] + Records(s, x.end, keyword);
        RecordsAreMatches(s, x.end, keyword, r);
      }
    case None =>
      RecordsAreMatches(s, i + 1, keyword, r);
  }

  /** Each record starts where the previous one ended, or later. */
  lemma {:induction false} RecordsDoNotOverlap(s: string, i: nat, keyword: string, j: nat)
    requires i <= |s| && 0 < j < |Records(s, i, keyword)|
    ensures Records(s, i, keyword)[j - 1].end <= Records(s, i, keyword)[j].start
    decreases |s| - i
  {
    if i < |s| {
      match RecordAt(s, i, keyword)
      case Some(r) => if j > 1 { RecordsDoNotOverlap(s, r.end, keyword, j - 1); }
      case None => RecordsDoNotOverlap(s, i + 1, keyword, j);
    }
  }

  /** No position where the pattern matches is passed over before the first
      record: the records are empty only when the pattern matches nowhere. */
  lemma {:induction false} RecordsFirst(s: string, i: nat, keyword: string, k: nat)
    requires i <= k <= |s| && RecordAt(s, k, keyword).Some?
    ensures Records(s, i, keyword) != [] && Records(s, i, keyword)[0].start <= k
    decreases |s| - i
  {
    if RecordAt(s, i, keyword).None? {
      RecordsFirst(s, i + 1, keyword, k);
    }
  }

  /** One attempt of `keyword\s` + id + `\s(?<name>[^\r\n]+)` at `i`, with the
      caller's id spliced into the pattern. */
  function RecordForAt(s: string, i: nat, keyword: string, id: string): (r: Option<Record>)
    requires i <= |s|
    ensures r.Some? ==> r.value.start == i && i < r.value.end <= |s|
  {
    var idStart := i + |keyword| + 1;
    var idEnd := idStart + |id|;
    if || !LiteralAt(s, i, |s|, keyword) || idEnd >= |s| || !IsSpace(s[idStart - 1])
       || !LiteralAt(s, idStart, |s|, id) || !IsSpace(s[idEnd])
    then None
    else
      var nameEnd := RunEnd(s, idEnd + 1, |s|, NotLineBreak);
      if nameEnd == idEnd + 1 then None
      else Some(Record(s[idStart..idEnd], s[idEnd + 1..nameEnd], i, nameEnd))
  }

  /** What the spliced scanner finds has the declarative record shape, with
      the caller's id read at its place, ignoring case, when that id is a
      non-empty word without white space. */
  lemma RecordForAtSound(s: string, i: nat, keyword: string, id: string)
    requires i <= |s| && |id| > 0 && forall k :: 0 <= k < |id| ==> NotSpace(id[k])
    ensures RecordForAt(s, i, keyword, id).Some? ==>
              && RecordShape(s, keyword, RecordForAt(s, i, keyword, id).value)
              && |RecordForAt(s, i, keyword, id).value.id| == |id|
              && LiteralAt(s, i + |keyword| + 1, |s|, id)
  {
    if RecordForAt(s, i, keyword, id).Some? {
      var r := RecordForAt(s, i, keyword, id).value;
      var idStart := i + |keyword| + 1;
      forall k | idStart <= k < idStart + |id| ensures NotSpace(s[k]) {
        FoldKeepsNotSpace(s[k], id[k - idStart]);
      }
    }
  }

  /** A character that folds to a non-space character is not a space. */
  lemma FoldKeepsNotSpace(c: char, d: char)
    requires Fold(c) == Fold(d) && NotSpace(d)
    ensures NotSpace(c)
  {
  }

  /** Every text of the declarative record shape whose id is the caller's
      id, ignoring case, is the match the spliced scanner returns there. */
  lemma RecordForAtComplete(s: string, keyword: string, id: string, r: Record)
    requires RecordShape(s, keyword, r) && |r.id| == |id|
    requires LiteralAt(s, r.start + |keyword| + 1, |s|, id)
    ensures RecordForAt(s, r.start, keyword, id) == Some(r)
  {
    var idEnd := r.start + |keyword| + 1 + |id|;
    RunEndUnique(s, idEnd + 1, |s|, NotLineBreak, r.end);
  }

  /** Where the bulk pattern matches, the pattern built from the id it
      captured matches too, with the same result. */
  lemma RecordForAtAgrees(s: string, i: nat, keyword: string)
    requires i <= |s| && RecordAt(s, i, keyword).Some?
    ensures RecordForAt(s, i, keyword, RecordAt(s, i, keyword).value.id) == RecordAt(s, i, keyword)
  {
    var r := RecordAt(s, i, keyword).value;
    var idStart := i + |keyword| + 1;
    assert forall k :: 0 <= k < |r.id| ==> r.id[k] == s[idStart + k];
  }

  /** `Regex.Match` for the pattern with a spliced-in id: the first match at
      or after `i`. */
  function FindRecord(s: string, i: nat, keyword: string, id: string): (r: Option<Record>)
    requires i <= |s|
    ensures r.Some? ==> i <= r.value.start <= |s| && RecordForAt(s, r.value.start, keyword, id) == r
    decreases |s| - i
  {
    match RecordForAt(s, i, keyword, id)
    case Some(rec) => Some(rec)
    case None => if i == |s| then None else FindRecord(s, i + 1, keyword, id)
  }

  /** The match found is the first: wherever the pattern matches at or after
      `i`, a match is found there or earlier. */
  lemma {:induction false} FindRecordFirst(s: string, i: nat, keyword: string, id: string, k: nat)
    requires i <= k <= |s| && RecordForAt(s, k, keyword, id).Some?
    ensures FindRecord(s, i, keyword, id).Some? && FindRecord(s, i, keyword, id).value.start <= k
    decreases |s| - i
  {
    if RecordForAt(s, i, keyword, id).None? {
      FindRecordFirst(s, i + 1, keyword, id, k);
    }
  }

  // ---------------------------------------------------------------- messages

  /** A match of `(?<user>[^\s]+)\s(?<sent>\d+)\s(?<content>[^\r\n]+)` starting at
      `start`, the part shared by the message pattern (Reader.cs:43, 139) and by
      each repetition inside the conversation pattern (Reader.cs:42, 138).
      `seconds` is the value of the `sent` digits. */
  datatype MessageMatch = MessageMatch(sender: string, digits: string, seconds: nat,
                                       content: string, start: nat, contentEnd: nat)

  /** The declarative reading of that pattern over `s[..lim]`. */
  ghost predicate MessageShape(s: string, lim: nat, m: MessageMatch) {
    var digitsStart := m.start + |m.sender| + 1;
    var contentStart := digitsStart + |m.digits| + 1;
    && lim <= |s|
    && contentStart + |m.content| == m.contentEnd <= lim
    && s[m.start..digitsStart - 1] == m.sender
    && |m.sender| > 0
    && (forall k :: m.start <= k < digitsStart - 1 ==> NotSpace(s[k]))
    && IsSpace(s[digitsStart - 1])
    && s[digitsStart..contentStart - 1] == m.digits
    && IsNumeral(m.digits)
    && m.seconds == NumeralValue(m.digits)
    && IsSpace(s[contentStart - 1])
    && s[contentStart..m.contentEnd] == m.content
    && |m.content| > 0
    && (forall k :: contentStart <= k < m.contentEnd ==> NotLineBreak(s[k]))
    && (m.contentEnd == lim || !NotLineBreak(s[m.contentEnd]))
  }

  /** One attempt of the message pattern at `i`, with `lim` as the end of the text. */
  function MessageAt(s: string, i: nat, lim: nat): (r: Option<MessageMatch>)
    requires i <= lim <= |s|
    ensures r.Some? ==> r.value.start == i && i < r.value.contentEnd <= lim
  {
    var senderEnd := RunEnd(s, i, lim, NotSpace);
    if senderEnd == i || senderEnd == lim then None
    else
      assert senderEnd < lim;
      var digitsEnd := RunEnd(s, senderEnd + 1, lim, IsDigit);
      if digitsEnd == senderEnd + 1 || digitsEnd == lim || !IsSpace(s[digitsEnd]) then None
      else
        var contentEnd := RunEnd(s, digitsEnd + 1, lim, NotLineBreak);
        if contentEnd == digitsEnd + 1 then None
        else
          var digits := s[senderEnd + 1..digitsEnd];
          assert forall k :: 0 <= k < |digits| ==> digits[k] == s[senderEnd + 1 + k];
          Some(MessageMatch(s[i..senderEnd], digits, NumeralValue(digits),
                            s[digitsEnd + 1..contentEnd], i, contentEnd))
  }

  /** What the scanner finds is a match of the pattern. */
  lemma MessageAtSound(s: string, i: nat, lim: nat)
    requires i <= lim <= |s| && MessageAt(s, i, lim).Some?
    ensures MessageShape(s, lim, MessageAt(s, i, lim).value)
  {
    var m := MessageAt(s, i, lim).value;
    var senderEnd := RunEnd(s, i, lim, NotSpace);
    assert forall k :: 0 <= k < |m.digits| ==> m.digits[k] == s[senderEnd + 1 + k];
  }

  /** The sender, the digits and the content of a match are each the
      longest run that the scanner takes at their place. */
  lemma MessageRuns(s: string, lim: nat, m: MessageMatch)
    requires MessageShape(s, lim, m)
    ensures var senderEnd := m.start + |m.sender|;
      var digitsEnd := senderEnd + 1 + |m.digits|;
      && m.start < senderEnd < lim <= |s| && RunEnd(s, m.start, lim, NotSpace) == senderEnd
      && senderEnd + 1 < digitsEnd < lim && RunEnd(s, senderEnd + 1, lim, IsDigit) == digitsEnd
      && IsSpace(s[digitsEnd])
      && digitsEnd + 1 < m.contentEnd && RunEnd(s, digitsEnd + 1, lim, NotLineBreak) == m.contentEnd
  {
    var senderEnd := m.start + |m.sender|;
    var digitsEnd := senderEnd + 1 + |m.digits|;
    RunEndUnique(s, m.start, lim, NotSpace, senderEnd);
    assert s[senderEnd + 1..digitsEnd] == m.digits;
    forall k | senderEnd + 1 <= k < digitsEnd ensures IsDigit(s[k]) {
      assert s[k] == m.digits[k - senderEnd - 1];
    }
    RunEndUnique(s, senderEnd + 1, lim, IsDigit, digitsEnd);
    RunEndUnique(s, digitsEnd + 1, lim, NotLineBreak, m.contentEnd);
  }

  /** A match is determined by its three runs. */
  lemma MessageFromRuns(s: string, lim: nat, m: MessageMatch)
    requires MessageShape(s, lim, m)
    ensures var senderEnd := m.start + |m.sender|;
      var digitsEnd := senderEnd + 1 + |m.digits|;
      var digits := s[senderEnd + 1..digitsEnd];
      && AllDigits(digits)
      && m == MessageMatch(s[m.start..senderEnd], digits, NumeralValue(digits),
                           s[digitsEnd + 1..m.contentEnd], m.start, m.contentEnd)
  {
  }

  /** The scanner's result once the three runs of a match are known. */
  lemma MessageAtFromRuns(s: string, lim: nat, m: MessageMatch)
    requires var senderEnd := m.start + |m.sender|;
      var digitsEnd := senderEnd + 1 + |m.digits|;
      && m.start < senderEnd < lim <= |s| && RunEnd(s, m.start, lim, NotSpace) == senderEnd
      && senderEnd + 1 < digitsEnd < lim && RunEnd(s, senderEnd + 1, lim, IsDigit) == digitsEnd
      && IsSpace(s[digitsEnd])
      && digitsEnd + 1 < m.contentEnd && RunEnd(s, digitsEnd + 1, lim, NotLineBreak) == m.contentEnd
    requires var senderEnd := m.start + |m.sender|;
      var digitsEnd := senderEnd + 1 + |m.digits|;
      var digits := s[senderEnd + 1..digitsEnd];
      && AllDigits(digits)
      && m == MessageMatch(s[m.start..senderEnd], digits, NumeralValue(digits),
                           s[digitsEnd + 1..m.contentEnd], m.start, m.contentEnd)
    ensures MessageAt(s, m.start, lim) == Some(m)
  {
  }

  /** Every match of the pattern at `i` is the one the scanner finds. */
  lemma MessageAtComplete(s: string, i: nat, lim: nat, m: MessageMatch)
    requires i <= lim <= |s| && m.start == i && MessageShape(s, lim, m)
    ensures MessageAt(s, i, lim) == Some(m)
  {
    MessageRuns(s, lim, m);
    MessageFromRuns(s, lim, m);
    MessageAtFromRuns(s, lim, m);
  }

  /** What follows a message's content: `\r?\n?` inside the conversation
      pattern (`allowReturn`), `\n?` in the message pattern. */
  function SkipLineEnd(s: string, j: nat, lim: nat, allowReturn: bool): (k: nat)
    requires j <= lim <= |s|
    ensures j <= k <= lim && k <= j + 2
    ensures forall p :: j <= p < k ==> !NotLineBreak(s[p])
  {
    var j' := if allowReturn && j < lim && s[j] == '\r' then j + 1 else j;
    if j' < lim && s[j'] == '\n' then j' + 1 else j'
  }

  /** The repeated group `(?<last_message>[^\s]+\s\d+\s[^\r\n]+\r?\n?)*` from
      `q`: the message lines of a conversation block, in order, each starting
      where the previous one's line ended. */
  function BodyLines(s: string, q: nat): (lines: seq<MessageMatch>)
    requires q <= |s|
    ensures forall j :: 0 <= j < |lines| ==> q <= lines[j].start < lines[j].contentEnd <= |s|
    decreases |s| - q
  {
    match MessageAt(s, q, |s|)
    case None => []
    case Some(m) => [m] + BodyLines(s, SkipLineEnd(s, m.contentEnd, |s|, true))
  }

  /** Each message line is a match of the message pattern at its start. */
  lemma {:induction false} BodyLinesAreMatches(s: string, q: nat, m: MessageMatch)
    requires q <= |s| && m in BodyLines(s, q)
    ensures MessageAt(s, m.start, |s|) == Some(m)
    decreases |s| - q
  {
    var x := MessageAt(s, q, |s|).value;
    if m != x {
      var next := SkipLineEnd(s, x.contentEnd, |s|, true);
      assert BodyLines(s, q) == [x] + BodyLines(s, next);
      BodyLinesAreMatches(s, next, m);
    }
  }

  /** The message lines are contiguous: the first starts at `q`, and each
      other starts right after the line break that ends the one before it. */
  lemma {:induction false} BodyLinesAreContiguous(s: string, q: nat, j: nat)
    requires q <= |s| && j < |BodyLines(s, q)|
    ensures j == 0 ==> BodyLines(s, q)[0].start == q
    ensures j > 0 ==> BodyLines(s, q)[j].start == SkipLineEnd(s, BodyLines(s, q)[j - 1].contentEnd, |s|, true)
    decreases |s| - q
  {
    var x := MessageAt(s, q, |s|).value;
    var next := SkipLineEnd(s, x.contentEnd, |s|, true);
    assert BodyLines(s, q) == [x] + BodyLines(s, next);
    if j > 1 {
      BodyLinesAreContiguous(s, next, j - 1);
    } else if j == 1 {
      BodyLinesAreContiguous(s, next, 0);
    }
  }

  /** Where that repeated group stops: at the first position from which no
      further message line can be matched. */
  function BodyEnd(s: string, q: nat): (e: nat)
    requires q <= |s|
    ensures q <= e <= |s|
    ensures MessageAt(s, e, |s|).None?
    decreases |s| - q
  {
    match MessageAt(s, q, |s|)
    case None => q
    case Some(m) => BodyEnd(s, SkipLineEnd(s, m.contentEnd, |s|, true))
  }

  // ---------------------------------------------------------- conversation blocks

  const ConversationKeyword: string := "conversation"

  /** A match of the header `conversation\s(?<id>…)\r?\n` starting at `start`:
      the id is `s[start + 13..idEnd]` and the message lines begin at `bodyStart`. */
  datatype Header = Header(id: string, start: nat, idEnd: nat, bodyStart: nat)

  /** `\r?\n` at `j`: the position after it. */
  function LineBreakEnd(s: string, j: nat): (r: Option<nat>)
    ensures r.Some? ==> j < r.value <= |s| && s[r.value - 1] == '\n'
  {
    if j < |s| && s[j] == '\n' then Some(j + 1)
    else if j + 1 < |s| && s[j] == '\r' && s[j + 1] == '\n' then Some(j + 2)
    else None
  }

  /** The declarative reading of a header at `h.start`. */
  ghost predicate HeaderShape(s: string, h: Header) {
    && h.start + 13 <= h.idEnd < h.bodyStart <= |s|
    && LiteralAt(s, h.start, |s|, ConversationKeyword)
    && IsSpace(s[h.start + 12])
    && h.id == s[h.start + 13..h.idEnd]
    && LineBreakEnd(s, h.idEnd) == Some(h.bodyStart)
  }

  /** One attempt of `conversation\s(?<conversation_id>[^\s]+)\r?\n` at `i`
      (Reader.cs:138). */
  function HeaderAt(s: string, i: nat): (r: Option<Header>)
    requires i <= |s|
    ensures r.Some? ==> r.value.start == i && HeaderShape(s, r.value)
    ensures r.Some? ==> r.value.start + 13 < r.value.idEnd
    ensures r.Some? ==> forall k :: i + 13 <= k < r.value.idEnd ==> NotSpace(s[k])
  {
    if !LiteralAt(s, i, |s|, ConversationKeyword) || i + 13 > |s| || !IsSpace(s[i + 12]) then None
    else
      var idEnd := RunEnd(s, i + 13, |s|, NotSpace);
      if idEnd == i + 13 then None
      else
        match LineBreakEnd(s, idEnd)
        case None => None
        case Some(b) => Some(Header(s[i + 13..idEnd], i, idEnd, b))
  }

  /** One attempt of `conversation\s(?<id>` + id + `)\r?\n` at `i`, with the
      caller's id spliced in (Reader.cs:42). */
  function HeaderForAt(s: string, i: nat, id: string): (r: Option<Header>)
    requires i <= |s|
    ensures r.Some? ==> r.value.start == i && HeaderShape(s, r.value)
    ensures r.Some? ==> r.value.idEnd == i + 13 + |id| && LiteralAt(s, i + 13, |s|, id)
  {
    if || !LiteralAt(s, i, |s|, ConversationKeyword) || i + 13 > |s| || !IsSpace(s[i + 12])
       || !LiteralAt(s, i + 13, |s|, id)
    then None
    else
      match LineBreakEnd(s, i + 13 + |id|)
      case None => None
      case Some(b) => Some(Header(s[i + 13..i + 13 + |id|], i, i + 13 + |id|, b))
  }

  /** Every header of the declarative shape whose id is a non-empty run of
      non-space characters is the one the bulk header scanner finds there. */
  lemma HeaderAtComplete(s: string, h: Header)
    requires HeaderShape(s, h) && h.start + 13 < h.idEnd
    requires forall k :: h.start + 13 <= k < h.idEnd ==> NotSpace(s[k])
    ensures HeaderAt(s, h.start) == Some(h)
  {
    RunEndUnique(s, h.start + 13, |s|, NotSpace, h.idEnd);
  }

  /** Every header of the declarative shape whose id is the caller's id,
      ignoring case, is the one the spliced header scanner finds there. */
  lemma HeaderForAtComplete(s: string, h: Header, id: string)
    requires HeaderShape(s, h) && h.idEnd == h.start + 13 + |id|
    requires LiteralAt(s, h.start + 13, |s|, id)
    ensures HeaderForAt(s, h.start, id) == Some(h)
  {
  }

  /** Where the bulk header pattern matches, the header pattern built from
      the id it captured matches too, with the same result. */
  lemma HeaderForAtAgrees(s: string, i: nat)
    requires i <= |s| && HeaderAt(s, i).Some?
    ensures HeaderForAt(s, i, HeaderAt(s, i).value.id) == HeaderAt(s, i)
  {
    var h := HeaderAt(s, i).value;
    assert forall k :: 0 <= k < |h.id| ==> h.id[k] == s[i + 13 + k];
  }

  /** A whole match of a conversation pattern: a header and the run of
      message lines after it; its text, `Match.Value`, is `s[header.start..end]`. */
  datatype Block = Block(header: Header, end: nat)

  predicate InText(s: string, b: Block) {
    b.header.start < b.header.bodyStart <= b.end <= |s|
  }

  function BlockOf(s: string, h: Header): (b: Block)
    requires h.start < h.bodyStart <= |s|
    ensures InText(s, b) && b.header == h
  {
    Block(h, BodyEnd(s, h.bodyStart))
  }

  /** One attempt of the whole pattern of Reader.cs:138 at `i`. */
  function BlockAt(s: string, i: nat): (r: Option<Block>)
    requires i <= |s|
    ensures r.Some? ==> r.value.header.start == i && InText(s, r.value)
  {
    match HeaderAt(s, i)
    case None => None
    case Some(h) => Some(BlockOf(s, h))
  }

  /** `regexConversation.Matches(content)` (Reader.cs:159): every block, in
      text order; each starts where the previous one ended, or later, and no
      header is passed over before the first: there are no blocks only when
      no header matches anywhere. */
  function Blocks(s: string, i: nat): (bs: seq<Block>)
    requires i <= |s|
    ensures forall j :: 0 <= j < |bs| ==> i <= bs[j].header.start && InText(s, bs[j])
    ensures forall j :: 0 < j < |bs| ==> bs[j - 1].end <= bs[j].header.start
    ensures forall k :: i <= k <= |s| && HeaderAt(s, k).Some? ==> bs != [] && bs[0].header.start <= k
    decreases |s| - i
  {
    if i == |s| then []
    else
      match BlockAt(s, i)
      case Some(b) =>
        var rest := Blocks(s, b.end);
        BlocksCons(s, i, b, rest);
        [b] + rest
      case None =>
        var rest := Blocks(s, i + 1);
        BlocksSkip(s, i, rest);
        rest
  }

  /** What `Blocks(s, i)` promises of its result `bs`. */
  ghost predicate BlocksFrom(s: string, i: nat, bs: seq<Block>)
    requires i <= |s|
  {
    && (forall j :: 0 <= j < |bs| ==> i <= bs[j].header.start && InText(s, bs[j]))
    && (forall j :: 0 < j < |bs| ==> bs[j - 1].end <= bs[j].header.start)
    && (forall k :: i <= k <= |s| && HeaderAt(s, k).Some? ==> bs != [] && bs[0].header.start <= k)
  }

  /** A match at `i` followed by the blocks after it. */
  lemma BlocksCons(s: string, i: nat, b: Block, rest: seq<Block>)
    requires i < |s| && BlockAt(s, i) == Some(b)
    requires forall j :: 0 <= j < |rest| ==> b.end <= rest[j].header.start && InText(s, rest[j])
    requires forall j :: 0 < j < |rest| ==> rest[j - 1].end <= rest[j].header.start
    ensures BlocksFrom(s, i, [b] + rest)
  {
    var bs := [b] + rest;
    assert forall j :: 0 < j < |bs| ==> bs[j] == rest[j - 1];
  }

  /** No match at `i`: the blocks are those after it. */
  lemma BlocksSkip(s: string, i: nat, rest: seq<Block>)
    requires i < |s| && BlockAt(s, i).None?
    requires forall j :: 0 <= j < |rest| ==> i + 1 <= rest[j].header.start && InText(s, rest[j])
    requires forall j :: 0 < j < |rest| ==> rest[j - 1].end <= rest[j].header.start
    requires forall k :: i + 1 <= k <= |s| && HeaderAt(s, k).Some? ==> rest != [] && rest[0].header.start <= k
    ensures BlocksFrom(s, i, rest)
  {
  }

  /** Every block reported is a match of the pattern at its own start. */
  lemma {:induction false} BlocksAreMatches(s: string, i: nat, b: Block)
    requires i <= |s| && b in Blocks(s, i)
    ensures b.header.start <= |s| && BlockAt(s, b.header.start) == Some(b)
    decreases |s| - i
  {
    match BlockAt(s, i)
    case Some(x) =>
      if b != x {
        assert Blocks(s, i) == [x] + Blocks(s, x.end);
        BlocksAreMatches(s, x.end, b);
      }
    case None =>
      BlocksAreMatches(s, i + 1, b);
  }

  /** `regexConversation.Match(content)` with the caller's id spliced into the
      header (Reader.cs:42, 64): the first header for that id at or after `i`. */
  function FindHeader(s: string, i: nat, id: string): (r: Option<Header>)
    requires i <= |s|
    ensures r.Some? ==> i <= r.value.start <= |s| && HeaderForAt(s, r.value.start, id) == r
    ensures r.Some? ==> forall k :: i <= k < r.value.start ==> HeaderForAt(s, k, id).None?
    ensures r.None? ==> forall k :: i <= k <= |s| ==> HeaderForAt(s, k, id).None?
    decreases |s| - i
  {
    match HeaderForAt(s, i, id)
    case Some(h) => Some(h)
    case None => if i == |s| then None else FindHeader(s, i + 1, id)
  }

  /** The header found is the first: wherever a header for `id` matches at or
      after `i`, one is found there or earlier. */
  lemma {:induction false} FindHeaderFirst(s: string, i: nat, id: string, k: nat)
    requires i <= k <= |s| && HeaderForAt(s, k, id).Some?
    ensures FindHeader(s, i, id).Some? && FindHeader(s, i, id).value.start <= k
    decreases |s| - i
  {
    if HeaderForAt(s, i, id).None? {
      FindHeaderFirst(s, i + 1, id, k);
    }
  }

  /** The whole match of that pattern: the first header for `id` with the run
      of message lines after it; there is none exactly when no header for
      `id` matches anywhere. */
  function FindBlock(s: string, id: string): (r: Option<Block>)
    ensures r.Some? ==> InText(s, r.value) && FindHeader(s, 0, id) == Some(r.value.header)
    ensures r.Some? ==> r.value.end == BodyEnd(s, r.value.header.bodyStart)
    ensures r.None? ==> FindHeader(s, 0, id).None?
    ensures r.Some? ==> HeaderForAt(s, r.value.header.start, id) == Some(r.value.header)
    ensures r.Some? ==> forall k :: 0 <= k < r.value.header.start ==> HeaderForAt(s, k, id).None?
    ensures r.None? <==> forall k :: 0 <= k <= |s| ==> HeaderForAt(s, k, id).None?
  {
    match FindHeader(s, 0, id)
    case None => None
    case Some(h) => Some(BlockOf(s, h))
  }

  /** `regexMessages.Matches(matchConversation.Value)` (Reader.cs:78, 179): the
      message pattern, which ends in `\n?`, run over `s[i..lim]`. */
  function ScanMessages(s: string, i: nat, lim: nat): (ms: seq<MessageMatch>)
    requires i <= lim <= |s|
    ensures forall j :: 0 <= j < |ms| ==> i <= ms[j].start < ms[j].contentEnd <= lim
    decreases lim - i
  {
    if i == lim then []
    else
      match MessageAt(s, i, lim)
      case Some(m) => [m] + ScanMessages(s, SkipLineEnd(s, m.contentEnd, lim, false), lim)
      case None => ScanMessages(s, i + 1, lim)
  }

  /** Every message match reported is a match of the pattern within `s[..lim]`. */
  lemma {:induction false} ScanMessagesAreMatches(s: string, i: nat, lim: nat, m: MessageMatch)
    requires i <= lim <= |s| && m in ScanMessages(s, i, lim)
    ensures m.start <= lim && MessageAt(s, m.start, lim) == Some(m)
    decreases lim - i
  {
    assert i < lim;
    var r := MessageAt(s, i, lim);
    if r.Some? {
      var next := SkipLineEnd(s, r.value.contentEnd, lim, false);
      assert ScanMessages(s, i, lim) == [r.value] + ScanMessages(s, next, lim);
      if m != r.value {
        ScanMessagesAreMatches(s, next, lim, m);
      }
    } else {
      assert ScanMessages(s, i, lim) == ScanMessages(s, i + 1, lim);
      ScanMessagesAreMatches(s, i + 1, lim, m);
    }
  }

  /** No position where the message pattern matches is passed over before
      the first match. */
  lemma {:induction false} ScanMessagesFirst(s: string, i: nat, lim: nat, k: nat)
    requires i <= k <= lim <= |s| && MessageAt(s, k, lim).Some?
    ensures ScanMessages(s, i, lim) != [] && ScanMessages(s, i, lim)[0].start <= k
    decreases lim - i
  {
    if MessageAt(s, i, lim).None? {
      ScanMessagesFirst(s, i + 1, lim, k);
    }
  }

  /** The message matches of a block's text, header line included: each
      lies inside the block. */
  function BlockMessages(s: string, b: Block): (ms: seq<MessageMatch>)
    requires InText(s, b)
    ensures forall j :: 0 <= j < |ms| ==> b.header.start <= ms[j].start < ms[j].contentEnd <= b.end
  {
    ScanMessages(s, b.header.start, b.end)
  }
}
