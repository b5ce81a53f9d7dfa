/** The character classes and the scanning primitives that the reader's
    regular expressions are built from, written out so that every pattern can
    be matched by hand. Positions are indices into the whole text; `lim` is the
    position that counts as the end of the text, so that a pattern run over a
    substring `s[a..lim]` is the same pattern run over `s` with `lim` as end. */
module Text {

  /** `\s` of .NET regular expressions: [\f\n\r\t\v\x85\p{Z}]. */
  predicate IsSpace(c: char) {
    || c == ' ' || c == '\t' || c == '\n' || c == '\U{B}' || c == '\U{C}' || c == '\r'
    || c == '\U{85}' || c == '\U{A0}' || c == '\U{1680}'
    || ('\U{2000}' <= c <= '\U{200A}')
    || c == '\U{2028}' || c == '\U{2029}' || c == '\U{202F}' || c == '\U{205F}' || c == '\U{3000}'
  }

  /** `[^\s]` */
  predicate NotSpace(c: char) {
    !IsSpace(c)
  }

  /** `\d`, restricted to the ASCII digits that `long.Parse` accepts. */
  predicate IsDigit(c: char) {
    '0' <= c <= '9'
  }

  /** `[^\r\n]` */
  predicate NotLineBreak(c: char) {
    c != '\r' && c != '\n'
  }

  /** Case folding used by `RegexOptions.IgnoreCase`, for the ASCII letters. */
  function Fold(c: char): (f: char)
    ensures 'A' <= c <= 'Z' ==> 'a' <= f <= 'z' && f as int - c as int == 32
    ensures !('A' <= c <= 'Z') ==> f == c
    ensures !('A' <= f <= 'Z')
  {
    if 'A' <= c <= 'Z' then (c as int + 32) as char else c
  }

  /** What `IgnoreCase` promises of two characters: they match exactly when
      they are the same character or an ASCII letter in its two cases. */
  lemma FoldMatchesUpToCase(c: char, d: char)
    ensures Fold(c) == Fold(d) <==>
              || c == d
              || ('A' <= c <= 'Z' && d as int == c as int + 32)
              || ('A' <= d <= 'Z' && c as int == d as int + 32)
  {
    if 'A' <= c <= 'Z' && !('A' <= d <= 'Z') {
      assert Fold(c) as int == c as int + 32;
    }
    if 'A' <= d <= 'Z' && !('A' <= c <= 'Z') {
      assert Fold(d) as int == d as int + 32;
    }
  }

  /** The literal `lit` occurs at `i`, ignoring case, and ends no later than `lim`. */
  predicate LiteralAt(s: string, i: nat, lim: nat, lit: string)
    requires lim <= |s|
  {
    i + |lit| <= lim && forall k :: 0 <= k < |lit| ==> Fold(s[i + k]) == Fold(lit[k])
  }

  /** A letter of a lower-case keyword never matches a white-space character. */
  lemma KeywordIsNotSpace(s: string, i: nat, lim: nat, kw: string, k: nat)
    requires lim <= |s| && LiteralAt(s, i, lim, kw)
    requires forall j :: 0 <= j < |kw| ==> 'a' <= kw[j] <= 'z'
    requires i <= k < i + |kw|
    ensures NotSpace(s[k])
  {
    assert Fold(s[i + (k - i)]) == Fold(kw[k - i]);
  }

  /** End of the longest run of characters satisfying `inRun` that starts at
      `i` and stops at `lim`: what a greedy `x+` or `x*` consumes. */
  function RunEnd(s: string, i: nat, lim: nat, inRun: char -> bool): (j: nat)
    requires i <= lim <= |s|
    ensures i <= j <= lim
    ensures forall k :: i <= k < j ==> inRun(s[k])
    ensures j == lim || !inRun(s[j])
    decreases lim - i
  {
    if i < lim && inRun(s[i]) then RunEnd(s, i + 1, lim, inRun) else i
  }

  /** The three properties of RunEnd determine it. */
  lemma RunEndUnique(s: string, i: nat, lim: nat, inRun: char -> bool, j: nat)
    requires i <= j <= lim <= |s|
    requires forall k :: i <= k < j ==> inRun(s[k])
    requires j == lim || !inRun(s[j])
    ensures RunEnd(s, i, lim, inRun) == j
  {
  }

  /** A run that ends before a smaller limit is not changed by that limit. */
  lemma RunEndLocal(s: string, i: nat, lim: nat, lim': nat, inRun: char -> bool)
    requires i <= lim' <= lim <= |s|
    requires RunEnd(s, i, lim, inRun) <= lim'
    ensures RunEnd(s, i, lim', inRun) == RunEnd(s, i, lim, inRun)
  {
    RunEndUnique(s, i, lim', inRun, RunEnd(s, i, lim, inRun));
  }

  /** Every character of `d` is an ASCII digit. */
  predicate AllDigits(d: string) {
    forall k :: 0 <= k < |d| ==> IsDigit(d[k])
  }

  /** A non-empty string of ASCII digits, what `\d+` captures. */
  predicate IsNumeral(d: string) {
    |d| > 0 && AllDigits(d)
  }

  /** The value of a decimal numeral, as `long.Parse` reads it before any
      range check. */
  function NumeralValue(d: string): (v: nat)
    requires AllDigits(d)
  {
    if d == [] then 0
    else
      assert IsDigit(d[|d| - 1]);
      10 * NumeralValue(d[..|d| - 1]) + (d[|d| - 1] as int - '0' as int)
  }

  function Pow10(n: nat): (p: nat)
    ensures p > 0
  {
    if n == 0 then 1 else 10 * Pow10(n - 1)
  }

  /** A numeral of `n` digits is below `10^n`. */
  lemma {:induction false} NumeralBound(d: string)
    requires AllDigits(d)
    ensures NumeralValue(d) < Pow10(|d|)
    decreases |d|
  {
    if d != [] {
      NumeralBound(d[..|d| - 1]);
    }
  }

  /** Leading zeros do not change the value `long.Parse` reads. */
  lemma {:induction false} LeadingZeroIgnored(d: string)
    requires AllDigits(d)
    ensures AllDigits(['0'] + d) && NumeralValue(['0'] + d) == NumeralValue(d)
    decreases |d|
  {
    var z := ['0'] + d;
    if d != [] {
      var init := d[..|d| - 1];
      assert z[..|z| - 1] == ['0'] + init;
      assert z[|z| - 1] == d[|d| - 1];
      LeadingZeroIgnored(init);
    }
  }

  /** The decimal numeral of `n`, without leading zeros: the partner of
      `NumeralValue`. */
  function Decimal(n: nat): (d: string)
    ensures IsNumeral(d)
    ensures |d| > 1 ==> d[0] != '0'
  {
    if n < 10 then [('0' as int + n) as char]
    else Decimal(n / 10) + [('0' as int + n % 10) as char]
  }

  /** Reading the numeral of `n` gives `n` back. */
  lemma {:induction false} DecimalRoundTrip(n: nat)
    ensures NumeralValue(Decimal(n)) == n
  {
    var d := Decimal(n);
    if n >= 10 {
      assert d[..|d| - 1] == Decimal(n / 10);
      DecimalRoundTrip(n / 10);
    }
  }
}
