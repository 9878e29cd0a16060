/** The title-cleaning loop of `get_data` (app.py lines 32-37): each raw
    title cell loses its rank number and its parenthesised year through two
    `re.sub` calls, and is then stripped.

    `re.sub(pattern, '', s)` is modelled as Python runs it: scan `s` from
    the left; where the pattern matches, drop the match and resume after it,
    otherwise keep one character and move on. */
module TitleCleaning {
  import opened Results
  import opened Text
  import opened Seqs

  /** The two patterns of the loop. */
  datatype Pattern =
    | RankPrefix   // r'\n\s+\d+\.\n\s+'
    | YearSuffix   // r'\s+\(\d+\)\n'

  /** Every character of `s[lo..hi]` is in `cs`. */
  ghost predicate RunIn(s: string, lo: nat, hi: nat, cs: set<char>)
    requires lo <= hi <= |s|
  {
    forall k :: lo <= k < hi ==> s[k] in cs
  }

  /** End of the longest run of characters of `cs` that starts at `i`: what a
      greedy `\s+` or `\d+` consumes. */
  function Span(s: string, i: nat, cs: set<char>): (e: nat)
    requires i <= |s|
    ensures i <= e <= |s|
    ensures e == |s| || s[e] !in cs
    decreases |s| - i
  {
    if i == |s| || s[i] !in cs then i else Span(s, i + 1, cs)
  }

  /** Everything the span passes over is in `cs`. */
  lemma {:induction false} SpanRun(s: string, i: nat, cs: set<char>)
    requires i <= |s|
    ensures RunIn(s, i, Span(s, i, cs), cs)
    decreases |s| - i
  {
    if i < |s| && s[i] in cs {
      SpanRun(s, i + 1, cs);
    }
  }

  /** A run that stops at a character outside `cs` (or at the end) is the span. */
  lemma SpanAt(s: string, i: nat, a: nat, cs: set<char>)
    requires i <= a <= |s| && RunIn(s, i, a, cs)
    requires a == |s| || s[a] !in cs
    ensures Span(s, i, cs) == a
  {
    SpanRun(s, i, cs);
  }

  /** A span goes at least as far as any run of `cs` from `i`. */
  lemma {:induction false} SpanCovers(s: string, i: nat, a: nat, cs: set<char>)
    requires i <= a <= |s| && RunIn(s, i, a, cs)
    ensures a <= Span(s, i, cs)
    decreases a - i
  {
    if i < a {
      SpanCovers(s, i + 1, a, cs);
    }
  }

  /** Where a match of `p` that starts at `i` ends, if `p` matches there.
      The literal `\n` is whitespace, but no `\s+` is directly followed by
      it: each `\s+` is followed by `\d`, by `(` or by the end of the
      pattern, and each `\d+` by `.` or `)`, none of which its own class
      matches. So backtracking never helps and each `+` takes its longest
      run. */
  function MatchEnd(p: Pattern, s: string, i: nat): (e: Option<nat>)
    requires i <= |s|
    ensures e.Some? ==> i < e.value <= |s|
  {
    match p
    case RankPrefix =>
      if i < |s| && s[i] == '\n' then
        var a := Span(s, i + 1, Whitespace);
        var b := Span(s, a, Digits);
        if a > i + 1 && b > a && b + 1 < |s| && s[b] == '.' && s[b + 1] == '\n' then
          var e := Span(s, b + 2, Whitespace);
          if e > b + 2 then Some(e) else None
        else None
      else None
    case YearSuffix =>
      var a := Span(s, i, Whitespace);
      if a > i && a < |s| && s[a] == '(' then
        var b := Span(s, a + 1, Digits);
        if b > a + 1 && b + 1 < |s| && s[b] == ')' && s[b + 1] == '\n' then Some(b + 2) else None
      else None
  }

  /** `s[i..e]` reads as the rank pattern, split at `a` (the digits) and `b`
      (the dot): newline, whitespace, digits, dot, newline, whitespace. */
  ghost predicate RankPrefixSplit(s: string, i: nat, a: nat, b: nat, e: nat) {
    && i + 1 < a < b && b + 2 < e <= |s|
    && s[i] == '\n' && RunIn(s, i + 1, a, Whitespace) && RunIn(s, a, b, Digits)
    && s[b] == '.' && s[b + 1] == '\n' && RunIn(s, b + 2, e, Whitespace)
  }

  /** `s[i..e]` reads as the year pattern, `(` at `a` and `)` at `b`:
      whitespace, `(`, digits, `)`, newline. */
  ghost predicate YearSuffixSplit(s: string, i: nat, a: nat, b: nat, e: nat) {
    && i < a && a + 1 < b && e == b + 2 && e <= |s|
    && RunIn(s, i, a, Whitespace) && s[a] == '(' && RunIn(s, a + 1, b, Digits)
    && s[b] == ')' && s[b + 1] == '\n'
  }

  ghost predicate Split(p: Pattern, s: string, i: nat, a: nat, b: nat, e: nat) {
    match p
    case RankPrefix => RankPrefixSplit(s, i, a, b, e)
    case YearSuffix => YearSuffixSplit(s, i, a, b, e)
  }

  /** `MatchEnd` finds a match at `i` exactly when the regex can match there,
      and it returns the longest match, as the greedy regex engine does. */
  lemma MatchEndIsGreedyMatch(p: Pattern, s: string, i: nat)
    requires i <= |s|
    ensures MatchEnd(p, s, i).Some? ==>
              exists a, b :: Split(p, s, i, a, b, MatchEnd(p, s, i).value)
    ensures forall a: nat, b: nat, e: nat :: Split(p, s, i, a, b, e) ==>
              MatchEnd(p, s, i).Some? && e <= MatchEnd(p, s, i).value
  {
    if MatchEnd(p, s, i).Some? {
      var e := MatchEnd(p, s, i).value;
      if p == RankPrefix {
        RankMatchSound(s, i);
        var a := Span(s, i + 1, Whitespace);
        assert Split(p, s, i, a, Span(s, a, Digits), e);
      } else {
        YearMatchSound(s, i);
        var a := Span(s, i, Whitespace);
        assert Split(p, s, i, a, Span(s, a + 1, Digits), e);
      }
    }
    forall a: nat, b: nat, e: nat | Split(p, s, i, a, b, e)
      ensures MatchEnd(p, s, i).Some? && e <= MatchEnd(p, s, i).value
    {
      if p == RankPrefix { RankMatchComplete(s, i, a, b, e); } else { YearMatchComplete(s, i, a, b, e); }
    }
  }

  lemma RankMatchSound(s: string, i: nat)
    requires i <= |s| && MatchEnd(RankPrefix, s, i).Some?
    ensures RankPrefixSplit(s, i, Span(s, i + 1, Whitespace),
                            Span(s, Span(s, i + 1, Whitespace), Digits),
                            MatchEnd(RankPrefix, s, i).value)
  {
    var a := Span(s, i + 1, Whitespace);
    var b := Span(s, a, Digits);
    SpanRun(s, i + 1, Whitespace);
    SpanRun(s, a, Digits);
    SpanRun(s, b + 2, Whitespace);
  }

  lemma RankMatchComplete(s: string, i: nat, a: nat, b: nat, e: nat)
    requires RankPrefixSplit(s, i, a, b, e)
    ensures MatchEnd(RankPrefix, s, i).Some? && e <= MatchEnd(RankPrefix, s, i).value
  {
    DigitNotSpace(s[a]);
    SpanAt(s, i + 1, a, Whitespace);
    SpanAt(s, a, b, Digits);
    SpanCovers(s, b + 2, e, Whitespace);
  }

  lemma YearMatchSound(s: string, i: nat)
    requires i <= |s| && MatchEnd(YearSuffix, s, i).Some?
    ensures YearSuffixSplit(s, i, Span(s, i, Whitespace),
                            Span(s, Span(s, i, Whitespace) + 1, Digits),
                            MatchEnd(YearSuffix, s, i).value)
  {
    var a := Span(s, i, Whitespace);
    SpanRun(s, i, Whitespace);
    SpanRun(s, a + 1, Digits);
  }

  lemma YearMatchComplete(s: string, i: nat, a: nat, b: nat, e: nat)
    requires YearSuffixSplit(s, i, a, b, e)
    ensures MatchEnd(YearSuffix, s, i) == Some(e)
  {
    SpanAt(s, i, a, Whitespace);
    SpanAt(s, a + 1, b, Digits);
  }

  /** `re.sub(p, '', s)` resumed at position `i`: the text of `s[i..]` with
      every match found by the left-to-right scan removed. */
  function SubFrom(p: Pattern, s: string, i: nat): (r: string)
    requires i <= |s|
    ensures |r| <= |s| - i
    decreases |s| - i
  {
    if i == |s| then []
    else match MatchEnd(p, s, i)
      case Some(e) => SubFrom(p, s, e)
      case None => [s[i]] + SubFrom(p, s, i + 1)
  }

  /** `re.sub(p, '', s)`. */
  function Sub(p: Pattern, s: string): string {
    SubFrom(p, s, 0)
  }

  /** Positions where the pattern does not match are copied unchanged. */
  lemma {:induction false} SubSkip(p: Pattern, s: string, i: nat, k: nat)
    requires i <= k <= |s|
    requires forall j :: i <= j < k ==> MatchEnd(p, s, j).None?
    ensures SubFrom(p, s, i) == s[i..k] + SubFrom(p, s, k)
    decreases k - i
  {
    if i < k {
      SubSkip(p, s, i + 1, k);
      var rest := SubFrom(p, s, k);
      assert s[i..k] == [s[i]] + s[i + 1..k];
      calc {
        SubFrom(p, s, i);
        [s[i]] + SubFrom(p, s, i + 1);
        [s[i]] + (s[i + 1..k] + rest);
        { Associative([s[i]], s[i + 1..k], rest); }
        [s[i]] + s[i + 1..k] + rest;
      }
    }
  }

  /** The span only looks ahead, so it is the same on a suffix of `s`. */
  lemma {:induction false} SpanShift(s: string, d: nat, i: nat, cs: set<char>)
    requires d <= i <= |s|
    ensures Span(s, i, cs) == d + Span(s[d..], i - d, cs)
    decreases |s| - i
  {
    if i < |s| && s[i] in cs {
      assert s[d..][i - d] == s[i];
      SpanShift(s, d, i + 1, cs);
    }
  }

  function Shifted(m: Option<nat>, d: nat): Option<nat> {
    match m
    case None => None
    case Some(e) => Some(e + d)
  }

  /** A match only looks ahead, so it is the same on a suffix of `s`. */
  lemma MatchEndShift(p: Pattern, s: string, d: nat, i: nat)
    requires d <= i <= |s|
    ensures MatchEnd(p, s, i) == Shifted(MatchEnd(p, s[d..], i - d), d)
  {
    if p == RankPrefix { RankShift(s, d, i); } else { YearShift(s, d, i); }
  }

  lemma RankShift(s: string, d: nat, i: nat)
    requires d <= i <= |s|
    ensures MatchEnd(RankPrefix, s, i) == Shifted(MatchEnd(RankPrefix, s[d..], i - d), d)
  {
    var t := s[d..];
    if i < |s| {
      assert t[i - d] == s[i];
      if s[i] == '\n' {
        SpanShift(s, d, i + 1, Whitespace);
        var a := Span(s, i + 1, Whitespace);
        SpanShift(s, d, a, Digits);
        var b := Span(s, a, Digits);
        if b + 1 < |s| {
          assert t[b - d] == s[b] && t[b + 1 - d] == s[b + 1];
          SpanShift(s, d, b + 2, Whitespace);
        }
      }
    }
  }

  lemma YearShift(s: string, d: nat, i: nat)
    requires d <= i <= |s|
    ensures MatchEnd(YearSuffix, s, i) == Shifted(MatchEnd(YearSuffix, s[d..], i - d), d)
  {
    var t := s[d..];
    SpanShift(s, d, i, Whitespace);
    var a := Span(s, i, Whitespace);
    if a < |s| {
      assert t[a - d] == s[a];
      SpanShift(s, d, a + 1, Digits);
      var b := Span(s, a + 1, Digits);
      if b + 1 < |s| {
        assert t[b - d] == s[b] && t[b + 1 - d] == s[b + 1];
      }
    }
  }

  /** One pass of the cleaning loop's body (lines 35-37): drop the rank,
      drop the year, strip. A cleaned title never starts or ends with
      whitespace. */
  function CleanTitle(raw: string): (r: string)
    ensures StrippedOf(r, Whitespace)
  {
    Strip(Sub(YearSuffix, Sub(RankPrefix, raw)), Whitespace)
  }

  /** The cleaning loop itself: one cleaned title per raw cell, in order. */
  method CleanTitles(titles: seq<string>) returns (clean: seq<string>)
    ensures |clean| == |titles|
    ensures forall i :: 0 <= i < |titles| ==> clean[i] == CleanTitle(titles[i])
  {
    clean := [];
    for i := 0 to |titles|
      invariant |clean| == i
      invariant forall j :: 0 <= j < i ==> clean[j] == CleanTitle(titles[j])
    {
      clean := clean + [CleanTitle(titles[i])];
    }
  }

  /** A title the cell layout can carry through cleaning unchanged: not empty,
      not padded, on one line, and not ending in `)`. */
  predicate PlainTitle(title: string) {
    && |title| > 0 && StrippedOf(title, Whitespace)
    && '\n' !in title && title[|title| - 1] != ')'
  }

  /** A title cell as the chart page lays it out:
      newline, indent, rank, `.`, newline, indent, title, whitespace,
      `(`, year, `)`, newline. */
  function Cell(indent1: string, rank: string, indent2: string, title: string,
                gap: string, year: string): string
  {
    "\n" + indent1 + rank + ".\n" + indent2 + (title + gap + "(" + year + ")\n")
  }

  /** The text left of a cell once the rank is gone. */
  function TitleAndYear(title: string, gap: string, year: string): string {
    title + gap + "(" + year + ")\n"
  }

  lemma TitleAndYearAt(title: string, gap: string, year: string)
    requires |gap| > 0 && |year| > 0
    ensures var t := TitleAndYear(title, gap, year);
            var q := |title| + |gap|;
            && |t| == q + |year| + 3
            && (forall k :: 0 <= k < |title| ==> t[k] == title[k])
            && (forall k :: |title| <= k < q ==> t[k] == gap[k - |title|])
            && t[q] == '('
            && (forall k :: q + 1 <= k < q + 1 + |year| ==> t[k] == year[k - q - 1])
            && t[q + 1 + |year|] == ')' && t[q + 2 + |year|] == '\n'
  {
  }

  /** The rank pattern matches nowhere in the title-and-year text. */
  lemma NoRankInTitleAndYear(title: string, gap: string, year: string, k: nat)
    requires PlainTitle(title) && |gap| > 0 && AllIn(gap, Whitespace)
    requires |year| > 0 && AllIn(year, Digits)
    requires k <= |TitleAndYear(title, gap, year)|
    ensures MatchEnd(RankPrefix, TitleAndYear(title, gap, year), k).None?
  {
    var t := TitleAndYear(title, gap, year);
    if MatchEnd(RankPrefix, t, k).Some? {
      RankMatchSound(t, k);
      var a := Span(t, k + 1, Whitespace);
      NoRankSplitInTitleAndYear(title, gap, year, k, a, Span(t, a, Digits),
                                MatchEnd(RankPrefix, t, k).value);
    }
  }

  lemma NoRankSplitInTitleAndYear(title: string, gap: string, year: string, k: nat,
                                  a: nat, b: nat, e: nat)
    requires PlainTitle(title) && |gap| > 0 && AllIn(gap, Whitespace)
    requires |year| > 0 && AllIn(year, Digits)
    ensures !RankPrefixSplit(TitleAndYear(title, gap, year), k, a, b, e)
  {
    var t := TitleAndYear(title, gap, year);
    if RankPrefixSplit(t, k, a, b, e) {
      // The only newlines are in the gap and at the very end; after one in
      // the gap, whitespace leads to the `(`, never to a digit.
      TitleAndYearAt(title, gap, year);
      DigitNotSpace(t[a]);
    }
  }

  /** Inside the title the year pattern cannot match. */
  lemma NoYearInTitle(title: string, gap: string, year: string, k: nat)
    requires PlainTitle(title) && |gap| > 0 && AllIn(gap, Whitespace)
    requires |year| > 0 && AllIn(year, Digits)
    requires k < |title|
    ensures MatchEnd(YearSuffix, TitleAndYear(title, gap, year), k).None?
  {
    var t := TitleAndYear(title, gap, year);
    if MatchEnd(YearSuffix, t, k).Some? {
      YearMatchSound(t, k);
      var a := Span(t, k, Whitespace);
      NoYearSplitInTitle(title, gap, year, k, a, Span(t, a + 1, Digits),
                         MatchEnd(YearSuffix, t, k).value);
    }
  }

  lemma NoYearSplitInTitle(title: string, gap: string, year: string, k: nat,
                           a: nat, b: nat, e: nat)
    requires PlainTitle(title) && |gap| > 0 && AllIn(gap, Whitespace)
    requires |year| > 0 && AllIn(year, Digits)
    requires k < |title|
    ensures !YearSuffixSplit(TitleAndYear(title, gap, year), k, a, b, e)
  {
    var t := TitleAndYear(title, gap, year);
    var n := |title|;
    if YearSuffixSplit(t, k, a, b, e) {
      // The whitespace run stops inside the title, the digit run stops at
      // the gap, and the title holds neither a newline nor a final `)`.
      TitleAndYearAt(title, gap, year);
      DigitNotSpace(gap[0]);
    }
  }

  /** The year pattern matches at the start of the gap and takes the rest. */
  lemma YearAfterTitle(title: string, gap: string, year: string)
    requires PlainTitle(title) && |gap| > 0 && AllIn(gap, Whitespace)
    requires |year| > 0 && AllIn(year, Digits)
    ensures var t := TitleAndYear(title, gap, year);
            MatchEnd(YearSuffix, t, |title|) == Some(|t|)
  {
    var t := TitleAndYear(title, gap, year);
    var q := |title| + |gap|;
    TitleAndYearAt(title, gap, year);
    SpanAt(t, |title|, q, Whitespace);
    SpanAt(t, q + 1, q + 1 + |year|, Digits);
  }

  /** The rank pattern matches the whole head of a cell. */
  lemma RankAtCellStart(indent1: string, rank: string, indent2: string, rest: string)
    requires |indent1| > 0 && AllIn(indent1, Whitespace)
    requires |rank| > 0 && AllIn(rank, Digits)
    requires |indent2| > 0 && AllIn(indent2, Whitespace)
    requires |rest| > 0 && rest[0] !in Whitespace
    ensures var s := "\n" + indent1 + rank + ".\n" + indent2 + rest;
            MatchEnd(RankPrefix, s, 0) == Some(|s| - |rest|)
  {
    var s := "\n" + indent1 + rank + ".\n" + indent2 + rest;
    var a := 1 + |indent1|;
    var b := a + |rank|;
    var e := b + 2 + |indent2|;
    assert forall k :: 1 <= k < a ==> s[k] == indent1[k - 1];
    assert forall k :: a <= k < b ==> s[k] == rank[k - a];
    assert forall k :: b + 2 <= k < e ==> s[k] == indent2[k - b - 2];
    assert s[b] == '.' && s[b + 1] == '\n' && s[e] == rest[0];
    DigitNotSpace(s[a]);
    SpanAt(s, 1, a, Whitespace);
    SpanAt(s, a, b, Digits);
    SpanAt(s, b + 2, e, Whitespace);
  }

  /** Removing the rank from a cell leaves the title and the year. */
  lemma RankRemoved(indent1: string, rank: string, indent2: string, title: string,
                    gap: string, year: string)
    requires |indent1| > 0 && AllIn(indent1, Whitespace)
    requires |rank| > 0 && AllIn(rank, Digits)
    requires |indent2| > 0 && AllIn(indent2, Whitespace)
    requires PlainTitle(title)
    requires |gap| > 0 && AllIn(gap, Whitespace)
    requires |year| > 0 && AllIn(year, Digits)
    ensures Sub(RankPrefix, Cell(indent1, rank, indent2, title, gap, year))
            == TitleAndYear(title, gap, year)
  {
    var rest := TitleAndYear(title, gap, year);
    var s := Cell(indent1, rank, indent2, title, gap, year);
    var d := |s| - |rest|;
    assert s == "\n" + indent1 + rank + ".\n" + indent2 + rest;
    RankAtCellStart(indent1, rank, indent2, rest);
    assert s[d..] == rest;
    // The first match ends where the title starts, and nothing after it
    // matches.
    forall j | d <= j < |s| ensures MatchEnd(RankPrefix, s, j).None? {
      MatchEndShift(RankPrefix, s, d, j);
      NoRankInTitleAndYear(title, gap, year, j - d);
    }
    SubSkip(RankPrefix, s, d, |s|);
    assert rest + [] == rest;
  }

  /** Removing the year from the title and the year leaves the title. */
  lemma YearRemoved(title: string, gap: string, year: string)
    requires PlainTitle(title)
    requires |gap| > 0 && AllIn(gap, Whitespace)
    requires |year| > 0 && AllIn(year, Digits)
    ensures Sub(YearSuffix, TitleAndYear(title, gap, year)) == title
  {
    var rest := TitleAndYear(title, gap, year);
    // The title is copied, then one match takes the rest.
    forall j | 0 <= j < |title| ensures MatchEnd(YearSuffix, rest, j).None? {
      NoYearInTitle(title, gap, year, j);
    }
    SubSkip(YearSuffix, rest, 0, |title|);
    YearAfterTitle(title, gap, year);
    assert rest[..|title|] == title;
    assert SubFrom(YearSuffix, rest, |title|) == [];
    assert title + [] == title;
  }

  /** Why `CleanCell` asks for a title not ending in `)`: when the title
      itself ends in a parenthesised number, line 36 removes that part, and
      the year, now without whitespace before it, stays glued to the title. */
  lemma ParenthesisedTitleExample(raw: string)
    requires raw == "\n 1.\n A (1)\n(2)\n"
    ensures CleanTitle(raw) == "A(2)"
  {
    var mid := "A (1)\n(2)\n";
    RankOfParenthesisedTitle(raw, mid);
    YearOfParenthesisedTitle(mid, "A(2)\n");
    StripGluedTitle("A(2)\n", "A(2)");
  }

  lemma StripGluedTitle(glued: string, done: string)
    requires glued == "A(2)\n" && done == "A(2)"
    ensures Strip(glued, Whitespace) == done
  {
    GraphicNotSpace(done[0]);
    GraphicNotSpace(done[|done| - 1]);
    StripPadded([], done, "\n", Whitespace);
    assert [] + done + "\n" == glued;
  }

  lemma RankOfParenthesisedTitle(raw: string, mid: string)
    requires raw == "\n 1.\n A (1)\n(2)\n" && mid == "A (1)\n(2)\n"
    ensures Sub(RankPrefix, raw) == mid
  {
    GraphicNotSpace(raw[2]);
    GraphicNotSpace(raw[6]);
    assert Span(raw, 2, Whitespace) == 2;
    assert Span(raw, 3, Digits) == 3;
    assert Span(raw, 6, Whitespace) == 6;
    assert MatchEnd(RankPrefix, raw, 0) == Some(6);
    forall j | 6 <= j < |raw| ensures MatchEnd(RankPrefix, raw, j).None? {
      if raw[j] == '\n' && j + 1 < |raw| {
        assert raw[j + 1] == '(';
      }
    }
    SubSkip(RankPrefix, raw, 6, |raw|);
    assert raw[6..] == mid;
  }

  lemma YearOfParenthesisedTitle(mid: string, glued: string)
    requires mid == "A (1)\n(2)\n" && glued == "A(2)\n"
    ensures Sub(YearSuffix, mid) == glued
  {
    GraphicNotSpace(mid[0]);
    GraphicNotSpace(mid[2]);
    assert Span(mid, 1, Whitespace) == 2;
    assert Span(mid, 3, Digits) == 4;
    assert MatchEnd(YearSuffix, mid, 1) == Some(6);
    assert Span(mid, 0, Whitespace) == 0;
    forall j | 6 <= j < |mid| ensures MatchEnd(YearSuffix, mid, j).None? {
      if j == 9 {
        assert Span(mid, 9, Whitespace) == 10;
      } else {
        GraphicNotSpace(mid[j]);
        assert Span(mid, j, Whitespace) == j;
      }
    }
    SubSkip(YearSuffix, mid, 0, 1);
    SubSkip(YearSuffix, mid, 6, |mid|);
    assert mid[0..1] + mid[6..] == glued;
  }

  /** Cleaning a cell laid out as the chart page does gives exactly its
      title. */
  lemma CleanCell(indent1: string, rank: string, indent2: string, title: string,
                  gap: string, year: string)
    requires |indent1| > 0 && AllIn(indent1, Whitespace)
    requires |rank| > 0 && AllIn(rank, Digits)
    requires |indent2| > 0 && AllIn(indent2, Whitespace)
    requires PlainTitle(title)
    requires |gap| > 0 && AllIn(gap, Whitespace)
    requires |year| > 0 && AllIn(year, Digits)
    ensures CleanTitle(Cell(indent1, rank, indent2, title, gap, year)) == title
  {
    RankRemoved(indent1, rank, indent2, title, gap, year);
    YearRemoved(title, gap, year);
    StripPadded([], title, [], Whitespace);
    assert [] + title + [] == title;
  }
}
