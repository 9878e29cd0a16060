/** Character classes and the string helpers of Python's `str` that the
    scraper uses: `str.strip()`, `str.strip(chars)` and `str.split(c)[0]`. */
module Text {
  import opened Seqs

  /** The characters for which Python's `str.isspace()` holds: what
      `str.strip()` removes and what the regex class `\s` matches in a `str`
      pattern. */
  const Whitespace: set<char> :=
    {'\t', '\n', '\U{0B}', '\U{0C}', '\r', '\U{1C}', '\U{1D}', '\U{1E}', '\U{1F}', ' ',
     '\U{85}', '\U{A0}', '\U{1680}',
     '\U{2000}', '\U{2001}', '\U{2002}', '\U{2003}', '\U{2004}', '\U{2005}',
     '\U{2006}', '\U{2007}', '\U{2008}', '\U{2009}', '\U{200A}',
     '\U{2028}', '\U{2029}', '\U{202F}', '\U{205F}', '\U{3000}'}

  /** The characters `int()` and `float()` skip around a number. CPython first
      turns every non-ASCII whitespace character into a space and then skips
      only space, `\t`, `\n`, `\v`, `\f` and `\r`, so the ASCII separators
      U+001C to U+001F, which `str.isspace()` counts, are not skipped. */
  const NumberSpace: set<char> := Whitespace - {'\U{1C}', '\U{1D}', '\U{1E}', '\U{1F}'}

  /** The ASCII decimal digits. */
  const Digits: set<char> := set c: char | '0' <= c <= '9'

  /** A digit is never whitespace, so stripping stops at it. */
  lemma DigitNotSpace(c: char)
    ensures c in Digits ==> c !in Whitespace
  {
  }

  /** Nor is a visible ASCII character. */
  lemma GraphicNotSpace(c: char)
    requires '!' <= c <= '~'
    ensures c !in Whitespace
  {
  }

  predicate AllIn(s: string, cs: set<char>) {
    forall k :: 0 <= k < |s| ==> s[k] in cs
  }

  /** `s` neither starts nor ends with a character of `cs`. */
  predicate StrippedOf(s: string, cs: set<char>) {
    s == [] || (s[0] !in cs && s[|s| - 1] !in cs)
  }

  /** The part of `s` left once its leading characters in `cs` are dropped. */
  function TrimLeft(s: string, cs: set<char>): (r: string)
    ensures |r| <= |s| && r == s[|s| - |r|..]
    ensures r == [] || r[0] !in cs
  {
    if s == [] || s[0] !in cs then s else TrimLeft(s[1..], cs)
  }

  /** The part of `s` left once its trailing characters in `cs` are dropped. */
  function TrimRight(s: string, cs: set<char>): (r: string)
    ensures |r| <= |s| && r == s[..|r|]
    ensures r == [] || r[|r| - 1] !in cs
  {
    if s == [] || s[|s| - 1] !in cs then s else TrimRight(s[..|s| - 1], cs)
  }

  /** Python's `s.strip(chars)`; `Strip(s, Whitespace)` is `s.strip()`.
      The result starts and ends outside `cs`; `StripPadded` shows that it is
      exactly the text left between the characters of `cs` cut off on either
      side. */
  function Strip(s: string, cs: set<char>): (r: string)
    ensures StrippedOf(r, cs)
    ensures |r| <= |s|
  {
    TrimRight(TrimLeft(s, cs), cs)
  }

  /** A character of `s` outside `cs` survives stripping. */
  lemma StripKeeps(s: string, cs: set<char>, k: nat)
    requires k < |s| && s[k] !in cs
    ensures s[k] in Strip(s, cs)
  {
    var t := TrimLeft(s, cs);
    TrimLeftKeeps(s, cs, k);
    var j :| 0 <= j < |t| && t[j] == s[k];
    TrimRightKeeps(t, cs, j);
  }

  lemma {:induction false} TrimLeftKeeps(s: string, cs: set<char>, k: nat)
    requires k < |s| && s[k] !in cs
    ensures s[k] in TrimLeft(s, cs)
  {
    if s[0] in cs {
      assert s[1..][k - 1] == s[k];
      TrimLeftKeeps(s[1..], cs, k - 1);
    }
  }

  lemma {:induction false} TrimRightKeeps(s: string, cs: set<char>, k: nat)
    requires k < |s| && s[k] !in cs
    ensures s[k] in TrimRight(s, cs)
  {
    if s[|s| - 1] in cs {
      assert s[..|s| - 1][k] == s[k];
      TrimRightKeeps(s[..|s| - 1], cs, k);
    }
  }

  /** Stripping keeps only characters of `s`. */
  lemma StripWithin(s: string, cs: set<char>, c: char)
    requires c in Strip(s, cs)
    ensures c in s
  {
    var t := TrimLeft(s, cs);
    var r := TrimRight(t, cs);
    var k :| 0 <= k < |r| && r[k] == c;
    assert r == t[..|r|];
    assert t == s[|s| - |t|..];
    assert s[|s| - |t| + k] == c;
  }

  /** A character absent from `s` is absent from its stripped form. */
  lemma StripAvoids(s: string, cs: set<char>, c: char)
    requires c !in s
    ensures c !in Strip(s, cs)
  {
    if c in Strip(s, cs) {
      StripWithin(s, cs, c);
    }
  }

  /** Stripping leaves nothing exactly when every character is in `cs`. */
  lemma StripBlank(s: string, cs: set<char>)
    ensures Strip(s, cs) == [] <==> AllIn(s, cs)
  {
    if AllIn(s, cs) {
      StripPadded(s, [], [], cs);
      assert s + [] + [] == s;
    } else {
      var k :| 0 <= k < |s| && s[k] !in cs;
      StripKeeps(s, cs, k);
    }
  }

  /** Stripping cuts exactly the padding around an already stripped text. */
  lemma {:induction false} StripPadded(pre: string, t: string, post: string, cs: set<char>)
    requires AllIn(pre, cs) && AllIn(post, cs) && StrippedOf(t, cs)
    ensures Strip(pre + t + post, cs) == t
  {
    var s := pre + t + post;
    if t == [] {
      assert s == pre + post;
      AllInConcat(pre, post, cs);
      TrimLeftPadded(s, [], cs);
      assert s + [] == s;
      assert TrimLeft(s, cs) == [];
    } else {
      assert s == pre + (t + post);
      TrimLeftPadded(pre, t + post, cs);
      TrimRightPadded(t, post, cs);
    }
  }

  lemma AllInConcat(a: string, b: string, cs: set<char>)
    requires AllIn(a, cs) && AllIn(b, cs)
    ensures AllIn(a + b, cs)
  {
    var s := a + b;
    forall k | 0 <= k < |s| ensures s[k] in cs {
      if k < |a| { assert s[k] == a[k]; } else { assert s[k] == b[k - |a|]; }
    }
  }

  lemma {:induction false} TrimLeftPadded(pre: string, rest: string, cs: set<char>)
    requires AllIn(pre, cs) && (rest == [] || rest[0] !in cs)
    ensures TrimLeft(pre + rest, cs) == rest
  {
    if pre != [] {
      assert (pre + rest)[1..] == pre[1..] + rest;
      TrimLeftPadded(pre[1..], rest, cs);
    }
  }

  lemma {:induction false} TrimRightPadded(t: string, post: string, cs: set<char>)
    requires AllIn(post, cs) && StrippedOf(t, cs)
    ensures TrimRight(t + post, cs) == t
  {
    if post != [] {
      assert (t + post)[..|t + post| - 1] == t + post[..|post| - 1];
      TrimRightPadded(t, post[..|post| - 1], cs);
    } else {
      assert t + post == t;
    }
  }

  /** Stripping twice changes nothing more. */
  lemma StripIdempotent(s: string, cs: set<char>)
    ensures Strip(Strip(s, cs), cs) == Strip(s, cs)
  {
    var r := Strip(s, cs);
    assert TrimLeft(r, cs) == r;
    assert TrimRight(r, cs) == r;
  }

  /** Python's `s.split(c)[0]`: the longest prefix of `s` without `c`. */
  function BeforeFirst(s: string, c: char): (r: string)
    ensures r <= s
    ensures c !in r
    ensures |r| == |s| || s[|r|] == c
  {
    if s == [] || s[0] == c then [] else [s[0]] + BeforeFirst(s[1..], c)
  }

  /** The first `c` of `s` ends the part `split(c)[0]` keeps. */
  lemma BeforeFirstAt(s: string, c: char, k: nat)
    requires k < |s| && s[k] == c && c !in s[..k]
    ensures BeforeFirst(s, c) == s[..k]
  {
  }

  /** The decimal digit for `d`. */
  function DigitChar(d: nat): (c: char)
    requires d < 10
    ensures c in Digits && (c as int) - ('0' as int) == d
  {
    ('0' as int + d) as char
  }

  /** Python's `str(n)` for a natural number: decimal digits, no leading zero. */
  function ShowNat(n: nat): (s: string)
    ensures |s| > 0 && forall k :: 0 <= k < |s| ==> s[k] in Digits
    ensures |s| > 1 ==> s[0] != '0'
  {
    if n < 10 then [DigitChar(n)] else ShowNat(n / 10) + [DigitChar(n % 10)]
  }

  /** Python's `str(i)` for an integer. */
  function ShowInt(i: int): (s: string)
    ensures |s| > 0 && s[|s| - 1] in Digits
    ensures s[0] == '-' || s[0] in Digits
  {
    if i < 0 then "-" + ShowNat(-i) else ShowNat(i)
  }
}
