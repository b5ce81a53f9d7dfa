/** How the message pattern, run over the text of a whole conversation match
    (Reader.cs:78, 179), relates to the message lines that the conversation
    pattern itself consumed (Reader.cs:42, 138). The two differ in general:
    the message pattern is not anchored, so it also tries the header line, and
    it ends in `\n?` where the conversation pattern ends each line in `\r?\n?`.
    When the header line cannot be read as the start of a message, they agree
    line for line. */
module ScanLemmas {
  import opened Wrappers
  import opened Text
  import opened Patterns

  /** No message starts at a white-space character or at the limit. */
  lemma NoMessageAtSpace(s: string, k: nat, lim: nat)
    requires k <= lim <= |s| && (k == lim || IsSpace(s[k]))
    ensures MessageAt(s, k, lim).None?
  {
  }

  /** Positions at which no message starts are passed over. */
  lemma {:induction false} ScanSkips(s: string, i: nat, j: nat, lim: nat)
    requires i <= j <= lim <= |s|
    requires forall k :: i <= k < j ==> MessageAt(s, k, lim).None?
    ensures ScanMessages(s, i, lim) == ScanMessages(s, j, lim)
    decreases j - i
  {
    if i < j {
      assert ScanMessages(s, i, lim) == ScanMessages(s, i + 1, lim);
      ScanSkips(s, i + 1, j, lim);
    }
  }

  /** A message matched with the whole text as limit is matched alike with
      any limit that does not cut into its content. */
  lemma MessageAtLocal(s: string, q: nat, lim: nat, m: MessageMatch)
    requires q <= lim <= |s| && MessageAt(s, q, |s|) == Some(m) && m.contentEnd <= lim
    ensures MessageAt(s, q, lim) == Some(m)
  {
    MessageAtSound(s, q, |s|);
    MessageAtComplete(s, q, lim, m);
  }

  /** From the start of a message line, the message pattern run up to the end
      of the conversation match finds exactly the remaining message lines. */
  lemma {:induction false} ScanFollowsBody(s: string, q: nat)
    requires q <= |s|
    ensures q <= BodyEnd(s, q)
    ensures ScanMessages(s, q, BodyEnd(s, q)) == BodyLines(s, q)
    decreases |s| - q
  {
    match MessageAt(s, q, |s|)
    case None =>
    case Some(m) =>
      var e := BodyEnd(s, q);
      var q' := SkipLineEnd(s, m.contentEnd, |s|, true);
      assert e == BodyEnd(s, q');
      assert BodyLines(s, q) == [m] + BodyLines(s, q');
      ScanFollowsBody(s, q');
      MessageAtLocal(s, q, e, m);
      var p := SkipLineEnd(s, m.contentEnd, e, false);
      forall k | p <= k < q' ensures MessageAt(s, k, e).None? {
        NoMessageAtSpace(s, k, e);
      }
      ScanSkips(s, p, q', e);
      assert ScanMessages(s, q, e) == [m] + ScanMessages(s, p, e);
  }

  /** A header after which the message pattern finds nothing on the header
      line itself: its id holds no white space and does not begin with a
      digit, and, when message lines follow, the first of them does not begin
      with a digit either. */
  ghost predicate QuietHeader(s: string, h: Header) {
    && HeaderShape(s, h)
    && (forall k :: h.start + 13 <= k < h.idEnd ==> NotSpace(s[k]))
    && !IsDigit(s[h.start + 13])
    && (BodyEnd(s, h.bodyStart) > h.bodyStart ==> !IsDigit(s[h.bodyStart]))
  }

  /** No message starts inside the keyword of a header whose id does not
      begin with a digit: the sender would end at the separator after the
      keyword, and the id would have to begin the timestamp. */
  lemma KeywordIsQuiet(s: string, h: Header, k: nat, e: nat)
    requires HeaderShape(s, h) && !IsDigit(s[h.start + 13])
    requires h.start <= k < h.start + 12 && h.bodyStart <= e <= |s|
    ensures MessageAt(s, k, e).None?
  {
    var kw := h.start + 12;
    forall j | k <= j < kw ensures NotSpace(s[j]) {
      KeywordIsNotSpace(s, h.start, |s|, ConversationKeyword, j);
    }
    RunEndUnique(s, k, e, NotSpace, kw);
    RunEndUnique(s, kw + 1, e, IsDigit, kw + 1);
  }

  /** No message starts inside a white-space-free id: the sender would end
      at the line break, and what follows it would have to begin the
      timestamp. */
  lemma IdIsQuiet(s: string, h: Header, k: nat, e: nat)
    requires HeaderShape(s, h) && (forall j :: h.start + 13 <= j < h.idEnd ==> NotSpace(s[j]))
    requires h.start + 13 <= k < h.idEnd && h.bodyStart <= e <= |s|
    requires e > h.bodyStart ==> !IsDigit(s[h.bodyStart])
    ensures MessageAt(s, k, e).None?
  {
    RunEndUnique(s, k, e, NotSpace, h.idEnd);
    if s[h.idEnd] == '\r' {
      RunEndUnique(s, h.idEnd + 1, e, IsDigit, h.idEnd + 1);
    } else {
      RunEndUnique(s, h.bodyStart, e, IsDigit, h.bodyStart);
    }
  }

  /** On a quiet header line no message starts. */
  lemma HeaderLineIsQuiet(s: string, h: Header, k: nat)
    requires QuietHeader(s, h) && h.start <= k < h.bodyStart
    ensures MessageAt(s, k, BodyEnd(s, h.bodyStart)).None?
  {
    var e := BodyEnd(s, h.bodyStart);
    if k < h.start + 12 {
      KeywordIsQuiet(s, h, k, e);
    } else if k == h.start + 12 || h.idEnd <= k {
      NoMessageAtSpace(s, k, e);
    } else {
      IdIsQuiet(s, h, k, e);
    }
  }

  /** Under a quiet header, the message matches of a conversation match are
      its message lines, one per line and in order. */
  lemma BlockMessagesAreLines(s: string, h: Header)
    requires QuietHeader(s, h)
    ensures BlockMessages(s, BlockOf(s, h)) == BodyLines(s, h.bodyStart)
  {
    var e := BodyEnd(s, h.bodyStart);
    forall k | h.start <= k < h.bodyStart ensures MessageAt(s, k, e).None? {
      HeaderLineIsQuiet(s, h, k);
    }
    ScanSkips(s, h.start, h.bodyStart, e);
    ScanFollowsBody(s, h.bodyStart);
  }
}
