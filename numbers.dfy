/** Python's `int()` and `float()` conversions as the scraper applies them to
    the year and rating texts it reads from the page. */
module Numbers {
  import opened Results
  import opened Text

  /** The sign-less body `int()` accepts: digits, where each `_` stands
      between two digits. */
  predicate IsDigitRun(s: string) {
    && |s| > 0 && s[0] in Digits
    && (|s| == 1 || IsDigitRun(s[1..]) || (|s| > 2 && s[1] == '_' && IsDigitRun(s[2..])))
  }

  predicate AllDigits(s: string) {
    forall k :: 0 <= k < |s| ==> s[k] in Digits
  }

  predicate DigitsOrUnderscores(s: string) {
    forall k :: 0 <= k < |s| ==> s[k] in Digits || s[k] == '_'
  }

  function DigitOf(c: char): (d: nat)
    requires c in Digits
    ensures d < 10 && DigitChar(d) == c
  {
    (c as int) - ('0' as int)
  }

  /** The number the digits of `s` spell, read left to right; `_` is skipped. */
  function DigitValue(s: string): nat
    requires DigitsOrUnderscores(s)
  {
    if s == [] then 0
    else if s[|s| - 1] == '_' then DigitValue(s[..|s| - 1])
    else 10 * DigitValue(s[..|s| - 1]) + DigitOf(s[|s| - 1])
  }

  lemma {:induction false} DigitRunChars(s: string)
    requires IsDigitRun(s)
    ensures DigitsOrUnderscores(s) && s[|s| - 1] in Digits
  {
    if |s| > 1 {
      if IsDigitRun(s[1..]) {
        DigitRunChars(s[1..]);
        assert forall k :: 1 <= k < |s| ==> s[k] == s[1..][k - 1];
      } else {
        DigitRunChars(s[2..]);
        assert forall k :: 2 <= k < |s| ==> s[k] == s[2..][k - 2];
      }
    }
  }

  lemma {:induction false} AllDigitsRun(s: string)
    requires |s| > 0 && AllDigits(s)
    ensures IsDigitRun(s)
  {
    if |s| > 1 {
      AllDigitsRun(s[1..]);
    }
  }

  /** Python's `int(s)` on a `str`: surrounding `NumberSpace` is ignored, then an
      optional sign and a digit run must make up the whole text; anything else
      raises ValueError, here `None`. */
  function ParseInt(s: string): Option<int> {
    ParseSigned(Strip(s, NumberSpace))
  }

  /** An optional `+` or `-` followed by a digit run, and nothing else. */
  function ParseSigned(t: string): Option<int> {
    var signed := |t| > 0 && (t[0] == '+' || t[0] == '-');
    var body := if signed then t[1..] else t;
    if IsDigitRun(body) then
      DigitRunChars(body);
      var v: int := DigitValue(body);
      Some(if signed && t[0] == '-' then -v else v)
    else
      None
  }

  /** A character that is neither skipped space, a digit, a sign nor `_` makes
      `int()` fail; so does one of the separators U+001C to U+001F. */
  lemma IntRejectsForeign(s: string, k: nat)
    requires k < |s| && s[k] !in NumberSpace && s[k] !in Digits && s[k] !in {'+', '-', '_'}
    ensures ParseInt(s) == None
  {
    var t := Strip(s, NumberSpace);
    StripKeeps(s, NumberSpace, k);
    var j :| 0 <= j < |t| && t[j] == s[k];
    var signed := |t| > 0 && (t[0] == '+' || t[0] == '-');
    var body := if signed then t[1..] else t;
    if IsDigitRun(body) {
      DigitRunChars(body);
    }
  }

  /** `int()` of an empty or all-space text fails. */
  lemma IntRejectsBlank(s: string)
    requires AllIn(s, NumberSpace)
    ensures ParseInt(s) == None
  {
    StripBlank(s, NumberSpace);
  }

  /** Line 28 of the scraper: `int(span.text.strip("()"))`. */
  function ParseYear(span: string): Option<int> {
    ParseInt(Strip(span, {'(', ')'}))
  }

  /** Python's `float(s)` restricted to texts that hold a whole number of
      tenths: `"9.3"`, `"9."`, `"9"`, `".3"`, with surrounding `NumberSpace`.
      The result counts tenths. */
  function ParseTenths(s: string): Option<nat> {
    ParseDecimal(Strip(s, NumberSpace))
  }

  /** Digits, then optionally a point and at most one digit, with a digit
      somewhere. */
  function ParseDecimal(t: string): Option<nat> {
    var whole := BeforeFirst(t, '.');
    var frac := if |whole| < |t| then t[|whole| + 1..] else [];
    if AllDigits(whole) && AllDigits(frac) && |frac| <= 1 && |whole| + |frac| > 0 then
      Some(10 * DigitValue(whole) + (if frac == [] then 0 else DigitOf(frac[0])))
    else
      None
  }

  /** A rating text with any character besides `NumberSpace`, digits and a point
      is rejected. */
  lemma TenthsRejectsForeign(s: string, k: nat)
    requires k < |s| && s[k] !in NumberSpace && s[k] !in Digits && s[k] != '.'
    ensures ParseTenths(s) == None
  {
    var t := Strip(s, NumberSpace);
    StripKeeps(s, NumberSpace, k);
    var j :| 0 <= j < |t| && t[j] == s[k];
    var whole := BeforeFirst(t, '.');
    var frac := if |whole| < |t| then t[|whole| + 1..] else [];
    if j < |whole| {
      assert whole[j] == s[k];
    } else {
      assert j > |whole|;
      assert frac[j - |whole| - 1] == s[k];
    }
  }

  /** More than one digit after the point is rejected. */
  lemma TenthsRejectsTwoDecimals(w: string, d1: char, d2: char)
    requires AllDigits(w) && d1 in Digits && d2 in Digits && |w| > 0
    ensures ParseDecimal(w + "." + [d1, d2]) == None
  {
    var t := w + "." + [d1, d2];
    BeforeFirstAt(t, '.', |w|);
    assert t[|w| + 1..] == [d1, d2];
  }

  /** The rating as the page prints it: one decimal. */
  function ShowTenths(x: nat): string {
    ShowNat(x / 10) + "." + [DigitChar(x % 10)]
  }

  lemma {:induction false} DigitValueShowNat(n: nat)
    ensures IsDigitRun(ShowNat(n)) && DigitValue(ShowNat(n)) == n
  {
    var s := ShowNat(n);
    AllDigitsRun(s);
    if n >= 10 {
      DigitValueShowNat(n / 10);
      assert s[..|s| - 1] == ShowNat(n / 10);
    }
  }

  /** `int(str(i))` gives `i` back, whatever `NumberSpace` pads it. */
  lemma IntRoundTrip(pre: string, i: int, post: string)
    requires AllIn(pre, NumberSpace) && AllIn(post, NumberSpace)
    ensures ParseInt(pre + ShowInt(i) + post) == Some(i)
  {
    var s := ShowInt(i);
    DigitNotSpace(s[0]);
    DigitNotSpace(s[|s| - 1]);
    StripPadded(pre, s, post, NumberSpace);
    SignedRoundTrip(i);
  }

  lemma IntOfShowInt(i: int)
    ensures ParseInt(ShowInt(i)) == Some(i)
  {
    var s := ShowInt(i);
    DigitNotSpace(s[0]);
    DigitNotSpace(s[|s| - 1]);
    StripPadded([], s, [], NumberSpace);
    assert [] + s + [] == s;
    SignedRoundTrip(i);
  }

  lemma SignedRoundTrip(i: int)
    ensures ParseSigned(ShowInt(i)) == Some(i)
  {
    var s := ShowInt(i);
    if i < 0 {
      DigitValueShowNat(-i);
      assert s[1..] == ShowNat(-i);
    } else {
      DigitValueShowNat(i);
    }
  }

  /** The year span: every leading `(` and trailing `)` (or any mix of the two)
      is cut before the integer is read, so `"(1994)"` gives 1994. */
  lemma YearRoundTrip(pre: string, y: int, post: string)
    requires AllIn(pre, {'(', ')'}) && AllIn(post, {'(', ')'})
    ensures ParseYear(pre + ShowInt(y) + post) == Some(y)
  {
    var s := ShowInt(y);
    StripPadded(pre, s, post, {'(', ')'});
    IntOfShowInt(y);
  }

  /** `float` of a rating as the page prints it gives its tenths back. */
  lemma RatingRoundTrip(pre: string, x: nat, post: string)
    requires AllIn(pre, NumberSpace) && AllIn(post, NumberSpace)
    ensures ParseTenths(pre + ShowTenths(x) + post) == Some(x)
  {
    var s := ShowTenths(x);
    DigitNotSpace(s[0]);
    DigitNotSpace(s[|s| - 1]);
    StripPadded(pre, s, post, NumberSpace);
    DecimalRoundTrip(x);
  }

  lemma DecimalRoundTrip(x: nat)
    ensures ParseDecimal(ShowTenths(x)) == Some(x)
  {
    var s := ShowTenths(x);
    var w := ShowNat(x / 10);
    DigitValueShowNat(x / 10);
    assert s[|w|] == '.';
    assert s[..|w|] == w;
    BeforeFirstAt(s, '.', |w|);
    assert s[|w| + 1..] == [DigitChar(x % 10)];
  }
}
