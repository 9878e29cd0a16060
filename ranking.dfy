/** The two rankings of the dashboard: the `n` best-rated movies
    (`top_n_movies`) and the years with the most movies
    (`number_of_films_group_date`). */
module Ranking {
  import opened Seqs
  import opened Sorting
  import opened Grouping
  import opened Movies

  /** Line 154's order: the higher rating first, and among equal ratings the
      earlier release year first. */
  predicate RanksBefore(a: Movie, b: Movie) {
    a.rating > b.rating || (a.rating == b.rating && a.year <= b.year)
  }

  /** `nlargest`'s comparison: rating only. */
  predicate RatesAtLeast(a: Movie, b: Movie) {
    a.rating >= b.rating
  }

  lemma Preorders()
    ensures TotalPreorder(RanksBefore)
    ensures TotalPreorder(RatesAtLeast)
  {
  }

  /** `nlargest(n, columns='Rating')`: a stable sort by rating, highest
      first, cut after `n` rows (none for `n <= 0`). */
  function NLargest(t: seq<Movie>, n: int): seq<Movie> {
    Take(SortBy(t, RatesAtLeast), n)
  }

  /** Line 154: sort by rating descending and year ascending, then
      `nlargest`. */
  function TopN(t: seq<Movie>, n: int): seq<Movie> {
    NLargest(SortBy(t, RanksBefore), n)
  }

  /** Sorting what is already sorted changes nothing. */
  lemma {:induction false} SortOfSorted<T(!new)>(s: seq<T>, le: (T, T) -> bool)
    requires SortedBy(s, le)
    ensures SortBy(s, le) == s
  {
    if s != [] {
      assert SortedBy(s[1..], le) by {
        forall i, j | 0 <= i < j < |s[1..]| ensures le(s[1..][i], s[1..][j]) {
          assert s[1..][i] == s[i + 1] && s[1..][j] == s[j + 1];
        }
      }
      SortOfSorted(s[1..], le);
      if |s| > 1 {
        assert le(s[0], s[1]);
      }
    }
  }

  /** `nlargest` keeps the order the first sort produced, so the top `n` is
      the first `n` rows of the table sorted by line 154's order. */
  lemma TopNIsPrefix(t: seq<Movie>, n: int)
    ensures TopN(t, n) == Take(SortBy(t, RanksBefore), n)
  {
    var s := SortBy(t, RanksBefore);
    Preorders();
    SortSorted(t, RanksBefore);
    assert SortedBy(s, RatesAtLeast);
    SortOfSorted(s, RatesAtLeast);
  }

  /** `min(n, len(t))` rows, and none for `n <= 0`. */
  lemma TopNLength(t: seq<Movie>, n: int)
    ensures |TopN(t, n)| == if n <= 0 then 0 else if n < |t| then n else |t|
  {
    TopNIsPrefix(t, n);
  }

  /** Ratings never increase down the list, and equal ratings list the
      earlier year first. */
  lemma TopNSorted(t: seq<Movie>, n: int)
    ensures forall i, j :: 0 <= i < j < |TopN(t, n)| ==>
      && TopN(t, n)[i].rating >= TopN(t, n)[j].rating
      && (TopN(t, n)[i].rating == TopN(t, n)[j].rating ==> TopN(t, n)[i].year <= TopN(t, n)[j].year)
  {
    var s := SortBy(t, RanksBefore);
    TopNIsPrefix(t, n);
    Preorders();
    SortSorted(t, RanksBefore);
    var top := TopN(t, n);
    forall i, j | 0 <= i < j < |top| ensures RanksBefore(top[i], top[j]) {
      assert top[i] == s[i] && top[j] == s[j];
    }
  }

  /** The rows left out of the top `n`. */
  function Omitted(t: seq<Movie>, n: int): seq<Movie> {
    var s := SortBy(t, RanksBefore);
    s[|Take(s, n)|..]
  }

  /** The top `n` and the rows left out are together exactly the table, and
      every row left out ranks after every row kept: none rates higher, and
      one that rates the same is not older. */
  lemma TopNSplit(t: seq<Movie>, n: int)
    ensures multiset(TopN(t, n)) + multiset(Omitted(t, n)) == multiset(t)
    ensures forall a, b :: a in TopN(t, n) && b in Omitted(t, n) ==> RanksBefore(a, b)
  {
    var s := SortBy(t, RanksBefore);
    var top := TopN(t, n);
    var rest := Omitted(t, n);
    TopNIsPrefix(t, n);
    assert s == top + rest;
    SortPermutes(t, RanksBefore);
    Preorders();
    SortSorted(t, RanksBefore);
    forall a, b | a in top && b in rest ensures RanksBefore(a, b) {
      var i :| 0 <= i < |top| && top[i] == a;
      var j :| 0 <= j < |rest| && rest[j] == b;
      assert s[i] == a && s[|top| + j] == b;
    }
  }

  /** Movies with the same rating and year keep their table order. */
  lemma TopNStable(t: seq<Movie>, rating: nat, year: int)
    ensures Filter(SortBy(t, RanksBefore), (m: Movie) => m.rating == rating && m.year == year)
         == Filter(t, (m: Movie) => m.rating == rating && m.year == year)
  {
    var p := (m: Movie) => m.rating == rating && m.year == year;
    assert RankTogether(p, RanksBefore);
    SortStable(t, RanksBefore, p);
  }

  /** Three movies, two tied at 9.2: the older of the two comes first. */
  lemma TopNTieExample()
    ensures var a, b, c := Movie("A", 1994, "", 93), Movie("B", 1972, "", 92), Movie("C", 1994, "", 92);
      TopN([a, b, c], 2) == [a, b]
  {
    var a, b, c := Movie("A", 1994, "", 93), Movie("B", 1972, "", 92), Movie("C", 1994, "", 92);
    TopNIsPrefix([a, b, c], 2);
    assert SortBy([c], RanksBefore) == [c];
    assert SortBy([b, c], RanksBefore) == [b, c];
    assert SortBy([a, b, c], RanksBefore) == [a, b, c];
  }

  /** A row of `groupby('release_years')['Titles'].count()`. */
  datatype YearCount = YearCount(year: int, count: nat)

  function CountsOf(gs: seq<int>, years: seq<int>): seq<YearCount> {
    if gs == [] then [] else [YearCount(gs[0], Count(years, gs[0]))] + CountsOf(gs[1..], years)
  }

  /** Lines 179-180: each release year once, ascending, with its number of
      movies. */
  function YearCounts(years: seq<int>): seq<YearCount> {
    CountsOf(GroupKeys(years), years)
  }

  /** Lines 181-182: more movies first, and among equal counts the later
      year first. */
  predicate CountsBefore(a: YearCount, b: YearCount) {
    a.count > b.count || (a.count == b.count && a.year >= b.year)
  }

  lemma CountsPreorder()
    ensures TotalPreorder(CountsBefore)
  {
  }

  /** The whole ranking before `head`. */
  function YearOrder(years: seq<int>): seq<YearCount> {
    SortBy(YearCounts(years), CountsBefore)
  }

  /** Lines 179-185: the ranking cut by `head(n)`. */
  function YearRanking(years: seq<int>, n: int): seq<YearCount> {
    Head(YearOrder(years), n)
  }

  lemma {:induction false} CountsOfAt(gs: seq<int>, years: seq<int>)
    ensures |CountsOf(gs, years)| == |gs|
    ensures forall i :: 0 <= i < |gs| ==> CountsOf(gs, years)[i] == YearCount(gs[i], Count(years, gs[i]))
  {
    if gs != [] {
      CountsOfAt(gs[1..], years);
    }
  }

  /** The grouped table: each year of the table exactly once, ascending,
      with the number of its movies. */
  lemma YearCountsSpec(years: seq<int>)
    ensures var c := YearCounts(years);
      && (forall i, j :: 0 <= i < j < |c| ==> c[i].year < c[j].year)
      && (forall y :: y in years <==> exists i :: 0 <= i < |c| && c[i].year == y)
      && (forall i :: 0 <= i < |c| ==> c[i].count == Count(years, c[i].year) > 0)
  {
    var gs := GroupKeys(years);
    var c := YearCounts(years);
    GroupKeysSpec(years);
    CountsOfAt(gs, years);
    forall y ensures y in years <==> exists i :: 0 <= i < |c| && c[i].year == y {
      if y in years {
        var i :| 0 <= i < |gs| && gs[i] == y;
        assert c[i].year == y;
      }
    }
    forall i | 0 <= i < |c| ensures c[i].count == Count(years, c[i].year) > 0 {
      CountPositive(years, gs[i]);
    }
  }

  function TotalCount(c: seq<YearCount>): nat {
    if c == [] then 0 else c[0].count + TotalCount(c[1..])
  }

  lemma {:induction false} TotalCountOf(gs: seq<int>, years: seq<int>)
    ensures TotalCount(CountsOf(gs, years)) == CountsSum(gs, years)
  {
    if gs != [] {
      TotalCountOf(gs[1..], years);
    }
  }

  /** Every movie is counted once: the counts over all years add up to the
      number of movies. */
  lemma YearCountsTotal(years: seq<int>)
    ensures TotalCount(YearCounts(years)) == |years|
  {
    GroupKeysSpec(years);
    TotalCountOf(GroupKeys(years), years);
    CountsSumAll(GroupKeys(years), years);
  }

  /** The ranking lists each year once with its count, more movies first and
      the later year first among equal counts, and holds `head(n)`'s number
      of rows. */
  lemma YearRankingSpec(years: seq<int>, n: int)
    ensures var r := YearRanking(years, n);
      var k := |GroupKeys(years)|;
      && |r| == (if 0 <= n then (if n < k then n else k) else (if k + n > 0 then k + n else 0))
      && (forall i :: 0 <= i < |r| ==> r[i].year in years && r[i].count == Count(years, r[i].year))
      && (forall i, j :: 0 <= i < j < |r| ==> r[i].year != r[j].year && CountsBefore(r[i], r[j]))
  {
    var c := YearCounts(years);
    var s := YearOrder(years);
    var r := YearRanking(years, n);
    YearCountsSpec(years);
    CountsOfAt(GroupKeys(years), years);
    SortPermutes(c, CountsBefore);
    CountsPreorder();
    SortSorted(c, CountsBefore);
    forall i | 0 <= i < |r| ensures r[i].year in years && r[i].count == Count(years, r[i].year) {
      assert r[i] == s[i];
      assert s[i] in multiset(c);
    }
    forall i, j | 0 <= i < j < |r| ensures r[i].year != r[j].year && CountsBefore(r[i], r[j]) {
      assert r[i] == s[i] && r[j] == s[j];
      DistinctAfterSort(c, s, i, j);
    }
  }

  /** Sorting the grouped table keeps its years distinct. */
  lemma DistinctAfterSort(c: seq<YearCount>, s: seq<YearCount>, i: nat, j: nat)
    requires forall a, b :: 0 <= a < b < |c| ==> c[a].year < c[b].year
    requires multiset(s) == multiset(c) && i < j < |s|
    ensures s[i].year != s[j].year
  {
    if s[i].year == s[j].year {
      assert s[i] in multiset(c) && s[j] in multiset(c);
      var a :| 0 <= a < |c| && c[a] == s[i];
      var b :| 0 <= b < |c| && c[b] == s[j];
      if a == b {
        CountOnce(c, a);
        Twice(s, i, j);
        assert false;
      } else {
        assert false;
      }
    }
  }

  /** An element at two positions occurs at least twice. */
  lemma Twice<T>(s: seq<T>, i: nat, j: nat)
    requires i < j < |s| && s[i] == s[j]
    ensures multiset(s)[s[i]] >= 2
  {
    assert s == s[..i] + [s[i]] + s[i + 1..j] + [s[j]] + s[j + 1..];
  }

  /** A year appears in one row of the grouped table, so that row occurs
      once. */
  lemma {:induction false} CountOnce(c: seq<YearCount>, a: nat)
    requires forall x, y :: 0 <= x < y < |c| ==> c[x].year < c[y].year
    requires a < |c|
    ensures multiset(c)[c[a]] == 1
  {
    var pre, post := c[..a], c[a + 1..];
    assert c == pre + [c[a]] + post;
    assert c[a] !in pre by {
      forall x | 0 <= x < |pre| ensures pre[x] != c[a] {
        assert pre[x] == c[x];
      }
    }
    assert c[a] !in post by {
      forall x | 0 <= x < |post| ensures post[x] != c[a] {
        assert post[x] == c[a + 1 + x];
      }
    }
  }

  /** Every year of the table is in the full ranking, and a year cut by
      `head(n)` has no more movies than any year kept. */
  lemma YearRankingCut(years: seq<int>, n: int)
    ensures forall y :: y in years ==> exists i :: 0 <= i < |YearOrder(years)| && YearOrder(years)[i].year == y
    ensures forall a, b :: a in YearRanking(years, n) && b in YearOrder(years)[|YearRanking(years, n)|..] ==>
      CountsBefore(a, b)
  {
    var c := YearCounts(years);
    var s := YearOrder(years);
    var r := YearRanking(years, n);
    YearCountsSpec(years);
    SortPermutes(c, CountsBefore);
    forall y | y in years ensures exists i :: 0 <= i < |s| && s[i].year == y {
      var k :| 0 <= k < |c| && c[k].year == y;
      assert c[k] in multiset(s);
      var i :| 0 <= i < |s| && s[i] == c[k];
    }
    CountsPreorder();
    SortSorted(c, CountsBefore);
    var rest := s[|r|..];
    forall a, b | a in r && b in rest ensures CountsBefore(a, b) {
      var i :| 0 <= i < |r| && r[i] == a;
      var j :| 0 <= j < |rest| && rest[j] == b;
      assert s[i] == a && s[|r| + j] == b;
    }
  }
}
