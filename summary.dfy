/** `avg_rating_per_decades` and the share column of
    `percentage_movies_by_decades`: the mean rating and the number of movies
    of every decade, one row per decade in ascending order, and each
    decade's percentage of all movies. Means and percentages are exact. */
module Summary {
  import opened Seqs
  import opened Grouping
  import opened Decades
  import opened Movies

  /** A row of `groupby('Decade')['Rating'].mean()`, in tenths of a point. */
  datatype MeanRow = MeanRow(decade: int, rating: real)

  /** A row of `groupby('Decade')['Titles'].count()`. */
  datatype CountRow = CountRow(decade: int, titles: nat)

  /** A row of the merged and renamed table: `Decade`, `Mean_rating`,
      `Movie_count`. */
  datatype DecadeRow = DecadeRow(decade: int, meanRating: real, movieCount: nat)

  function MeansOver(gs: seq<int>, keys: seq<int>, values: seq<nat>): seq<MeanRow>
    requires |keys| == |values|
    requires forall g :: g in gs ==> g in keys
  {
    if gs == [] then []
    else
      CountPositive(keys, gs[0]);
      [MeanRow(gs[0], Mean(Select(keys, values, gs[0])))] + MeansOver(gs[1..], keys, values)
  }

  function CountsOver(gs: seq<int>, keys: seq<int>): seq<CountRow> {
    if gs == [] then [] else [CountRow(gs[0], Count(keys, gs[0]))] + CountsOver(gs[1..], keys)
  }

  /** Line 66 without the rounding: the mean of `values` per key. */
  function GroupMean(keys: seq<int>, values: seq<nat>): seq<MeanRow>
    requires |keys| == |values|
  {
    GroupKeysSpec(keys);
    MeansOver(GroupKeys(keys), keys, values)
  }

  /** Line 69: the number of rows per key (no title is missing, so `count`
      counts every row). */
  function GroupCount(keys: seq<int>): seq<CountRow> {
    CountsOver(GroupKeys(keys), keys)
  }

  /** The rows of `right` whose decade is `l`'s, joined with `l`. */
  function Matches(l: MeanRow, right: seq<CountRow>): seq<DecadeRow> {
    if right == [] then []
    else (if right[0].decade == l.decade then [DecadeRow(l.decade, l.rating, right[0].titles)] else [])
         + Matches(l, right[1..])
  }

  /** Lines 72-73: `merge` on the shared `Decade` column, an inner join in the
      order of the left table. */
  function Merge(left: seq<MeanRow>, right: seq<CountRow>): seq<DecadeRow> {
    if left == [] then [] else Matches(left[0], right) + Merge(left[1..], right)
  }

  /** The summary of lines 66-73 over the `Decade` and `Rating` columns. */
  function Summarize(decades: seq<int>, ratings: seq<nat>): seq<DecadeRow>
    requires |decades| == |ratings|
  {
    Merge(GroupMean(decades, ratings), GroupCount(decades))
  }

  /** The row the summary holds for group key `g`. */
  function RowOf(g: int, keys: seq<int>, values: seq<nat>): DecadeRow
    requires |keys| == |values| && g in keys
  {
    CountPositive(keys, g);
    DecadeRow(g, Mean(Select(keys, values, g)), Count(keys, g))
  }

  function RowsOver(gs: seq<int>, keys: seq<int>, values: seq<nat>): seq<DecadeRow>
    requires |keys| == |values|
    requires forall g :: g in gs ==> g in keys
  {
    if gs == [] then [] else [RowOf(gs[0], keys, values)] + RowsOver(gs[1..], keys, values)
  }

  lemma {:induction false} MatchesNone(l: MeanRow, gs: seq<int>, keys: seq<int>)
    requires l.decade !in gs
    ensures Matches(l, CountsOver(gs, keys)) == []
  {
    if gs != [] {
      MatchesNone(l, gs[1..], keys);
      assert CountsOver(gs, keys)[1..] == CountsOver(gs[1..], keys);
    }
  }

  /** With distinct keys on the right, a left row meets exactly its own key. */
  lemma {:induction false} MatchesOne(l: MeanRow, gs: seq<int>, keys: seq<int>)
    requires Increasing(gs) && l.decade in gs
    ensures Matches(l, CountsOver(gs, keys)) == [DecadeRow(l.decade, l.rating, Count(keys, l.decade))]
  {
    var right := CountsOver(gs, keys);
    assert right[1..] == CountsOver(gs[1..], keys);
    assert gs == [gs[0]] + gs[1..];
    if gs[0] == l.decade {
      assert l.decade !in gs[1..] by {
        forall j | 0 <= j < |gs[1..]| ensures gs[1..][j] != l.decade {
          assert gs[1..][j] == gs[j + 1];
        }
      }
      MatchesNone(l, gs[1..], keys);
    } else {
      MatchesOne(l, gs[1..], keys);
    }
  }

  lemma {:induction false} MergeOver(gs: seq<int>, all: seq<int>, keys: seq<int>, values: seq<nat>)
    requires |keys| == |values| && Increasing(all)
    requires forall g :: g in gs ==> g in keys && g in all
    ensures Merge(MeansOver(gs, keys, values), CountsOver(all, keys)) == RowsOver(gs, keys, values)
  {
    if gs != [] {
      var left := MeansOver(gs, keys, values);
      assert left[0] == MeanRow(gs[0], RowOf(gs[0], keys, values).meanRating);
      assert left[1..] == MeansOver(gs[1..], keys, values);
      MatchesOne(left[0], all, keys);
      MergeOver(gs[1..], all, keys, values);
    }
  }

  /** Merging the two group tables pairs each decade's mean with its count. */
  lemma SummarizeRows(decades: seq<int>, ratings: seq<nat>)
    requires |decades| == |ratings|
    ensures forall g :: g in GroupKeys(decades) ==> g in decades
    ensures Summarize(decades, ratings) == RowsOver(GroupKeys(decades), decades, ratings)
  {
    GroupKeysSpec(decades);
    MergeOver(GroupKeys(decades), GroupKeys(decades), decades, ratings);
  }

  lemma {:induction false} RowsOverAt(gs: seq<int>, keys: seq<int>, values: seq<nat>)
    requires |keys| == |values|
    requires forall g :: g in gs ==> g in keys
    ensures |RowsOver(gs, keys, values)| == |gs|
    ensures forall i :: 0 <= i < |gs| ==> RowsOver(gs, keys, values)[i] == RowOf(gs[i], keys, values)
  {
    if gs != [] {
      RowsOverAt(gs[1..], keys, values);
    }
  }

  /** The summary lists each distinct decade once, in ascending order. */
  lemma SummaryKeys(decades: seq<int>, ratings: seq<nat>)
    requires |decades| == |ratings|
    ensures var rows := Summarize(decades, ratings);
      && (forall i, j :: 0 <= i < j < |rows| ==> rows[i].decade < rows[j].decade)
      && (forall i :: 0 <= i < |rows| ==> rows[i].decade in decades)
      && (forall d :: d in decades ==> exists i :: 0 <= i < |rows| && rows[i].decade == d)
  {
    var gs := GroupKeys(decades);
    GroupKeysSpec(decades);
    SummarizeRows(decades, ratings);
    RowsOverAt(gs, decades, ratings);
    var rows := Summarize(decades, ratings);
    assert forall i :: 0 <= i < |rows| ==> rows[i].decade == gs[i];
    forall d | d in decades ensures exists i :: 0 <= i < |rows| && rows[i].decade == d {
      var i :| 0 <= i < |gs| && gs[i] == d;
      assert rows[i].decade == d;
    }
  }

  /** Each summary row counts the movies of its decade (never zero) and
      holds the mean of their ratings. */
  lemma SummaryRow(decades: seq<int>, ratings: seq<nat>, i: nat)
    requires |decades| == |ratings| && i < |Summarize(decades, ratings)|
    ensures var row := Summarize(decades, ratings)[i];
      && row.movieCount == Count(decades, row.decade) > 0
      && row.meanRating == Mean(Select(decades, ratings, row.decade))
  {
    var gs := GroupKeys(decades);
    GroupKeysSpec(decades);
    SummarizeRows(decades, ratings);
    RowsOverAt(gs, decades, ratings);
    CountPositive(decades, gs[i]);
  }

  /** A decade's mean lies between any bounds of its movies' ratings, in
      particular between the lowest and the highest. */
  lemma SummaryMeanBounds(decades: seq<int>, ratings: seq<nat>, i: nat, lo: int, hi: int)
    requires |decades| == |ratings| && i < |Summarize(decades, ratings)|
    requires forall j :: 0 <= j < |decades| && decades[j] == Summarize(decades, ratings)[i].decade ==>
      lo <= ratings[j] <= hi
    ensures lo as real <= Summarize(decades, ratings)[i].meanRating <= hi as real
  {
    var gs := GroupKeys(decades);
    GroupKeysSpec(decades);
    SummarizeRows(decades, ratings);
    RowsOverAt(gs, decades, ratings);
    var g := gs[i];
    CountPositive(decades, g);
    SelectBounds(decades, ratings, g, lo, hi);
    MeanBounds(Select(decades, ratings, g), lo, hi);
  }

  function Counts(rows: seq<DecadeRow>): seq<nat> {
    if rows == [] then [] else [rows[0].movieCount] + Counts(rows[1..])
  }

  lemma {:induction false} CountsOfRows(gs: seq<int>, keys: seq<int>, values: seq<nat>)
    requires |keys| == |values|
    requires forall g :: g in gs ==> g in keys
    ensures Sum(Counts(RowsOver(gs, keys, values))) == CountsSum(gs, keys)
  {
    if gs != [] {
      var rows := RowsOver(gs, keys, values);
      assert rows[1..] == RowsOver(gs[1..], keys, values);
      CountsOfRows(gs[1..], keys, values);
    }
  }

  /** Every movie is counted in exactly one decade: the counts add up to the
      number of movies. */
  lemma SummaryCountsSum(decades: seq<int>, ratings: seq<nat>)
    requires |decades| == |ratings|
    ensures Sum(Counts(Summarize(decades, ratings))) == |decades|
  {
    GroupKeysSpec(decades);
    SummarizeRows(decades, ratings);
    CountsOfRows(GroupKeys(decades), decades, ratings);
    CountsSumAll(GroupKeys(decades), decades);
  }

  /** Over the decade column every summary row is a decade of some movie's
      release year. */
  lemma SummaryDecadesOfYears(years: seq<int>, ratings: seq<nat>, i: nat)
    requires |years| == |ratings| && i < |Summarize(DecadeColumn(years), ratings)|
    ensures var d := Summarize(DecadeColumn(years), ratings)[i].decade;
      d % 10 == 0 && exists j :: 0 <= j < |years| && Decade(years[j]) == d
  {
    var ds := DecadeColumn(years);
    SummaryKeys(ds, ratings);
    MapAt(years, Decade);
    var d := Summarize(ds, ratings)[i].decade;
    var j :| 0 <= j < |ds| && ds[j] == d;
  }

  function SumReal(xs: seq<real>): real {
    if xs == [] then 0.0 else xs[0] + SumReal(xs[1..])
  }

  /** Each count's share of `total`, in percent. */
  function Shares(counts: seq<nat>, total: nat): seq<real>
    requires total > 0
  {
    if counts == [] then []
    else [(counts[0] * 100) as real / total as real] + Shares(counts[1..], total)
  }

  lemma {:induction false} SumPositive(counts: seq<nat>)
    requires counts != [] && forall i :: 0 <= i < |counts| ==> counts[i] > 0
    ensures Sum(counts) > 0
  {
  }

  /** Line 129: `Movie_count * 100 / sum(Movie_count)`, for a table whose
      counts are positive (as the summary's are). */
  function Percents(rows: seq<DecadeRow>): seq<real>
    requires forall i :: 0 <= i < |rows| ==> rows[i].movieCount > 0
  {
    if rows == [] then []
    else
      CountsAt(rows);
      SumPositive(Counts(rows));
      Shares(Counts(rows), Sum(Counts(rows)))
  }

  lemma {:induction false} CountsAt(rows: seq<DecadeRow>)
    ensures |Counts(rows)| == |rows|
    ensures forall i :: 0 <= i < |rows| ==> Counts(rows)[i] == rows[i].movieCount
  {
    if rows != [] {
      CountsAt(rows[1..]);
    }
  }

  lemma {:induction false} SharesAt(counts: seq<nat>, total: nat)
    requires total > 0
    ensures |Shares(counts, total)| == |counts|
    ensures forall i :: 0 <= i < |counts| ==>
      Shares(counts, total)[i] == (counts[i] * 100) as real / total as real
  {
    if counts != [] {
      SharesAt(counts[1..], total);
    }
  }

  lemma AddFractions(x: real, y: real, t: real)
    requires t != 0.0
    ensures x / t + y / t == (x + y) / t
  {
  }

  lemma {:induction false} SharesSum(counts: seq<nat>, total: nat)
    requires total > 0
    ensures SumReal(Shares(counts, total)) == (Sum(counts) * 100) as real / total as real
  {
    if counts != [] {
      SharesSum(counts[1..], total);
      AddFractions((counts[0] * 100) as real, (Sum(counts[1..]) * 100) as real, total as real);
    }
  }

  /** Each decade's percentage is `count * 100 / total`, and positive. */
  lemma PercentAt(rows: seq<DecadeRow>, i: nat)
    requires forall j :: 0 <= j < |rows| ==> rows[j].movieCount > 0
    requires i < |rows|
    ensures |Percents(rows)| == |rows|
    ensures Percents(rows)[i] == (rows[i].movieCount * 100) as real / Sum(Counts(rows)) as real
    ensures Percents(rows)[i] > 0.0
  {
    CountsAt(rows);
    SumPositive(Counts(rows));
    SharesAt(Counts(rows), Sum(Counts(rows)));
    DivPositive((rows[i].movieCount * 100) as real, Sum(Counts(rows)) as real);
  }

  lemma DivPositive(a: real, b: real)
    requires a > 0.0 && b > 0.0
    ensures a / b > 0.0
  {
  }

  /** The percentages of a non-empty table add up to exactly 100. */
  lemma PercentsSum(rows: seq<DecadeRow>)
    requires rows != [] && forall i :: 0 <= i < |rows| ==> rows[i].movieCount > 0
    ensures SumReal(Percents(rows)) == 100.0
  {
    CountsAt(rows);
    SumPositive(Counts(rows));
    var total := Sum(Counts(rows));
    SharesSum(Counts(rows), total);
    HundredTimes(total as real);
  }

  lemma HundredTimes(t: real)
    requires t != 0.0
    ensures (t * 100.0) / t == 100.0
  {
  }

  /** `avg_rating_per_decades`: writes the `Decade` column into the table
      (line 64) and returns the summary of lines 66-73. */
  method AvgRatingPerDecades(data: MovieFrame) returns (merged: seq<DecadeRow>)
    requires data.Complete()
    modifies data
    ensures data.Complete() && DecadeColumnName in data.columns
    ensures data.decades == DecadeColumn(data.releaseYears)
    ensures data.titles == old(data.titles) && data.releaseYears == old(data.releaseYears)
    ensures data.directors == old(data.directors) && data.ratings == old(data.ratings)
    ensures data.columns == old(data.columns) + {DecadeColumnName}
    ensures merged == Summarize(data.decades, data.ratings)
  {
    data.AddDecadeColumn();
    merged := Summarize(data.decades, data.ratings);
  }

  /** `percentage_movies_by_decades` up to the chart: the summary with its
      `Movie_percent` column. */
  method PercentageMoviesByDecades(data: MovieFrame) returns (merged: seq<DecadeRow>, percent: seq<real>)
    requires data.Complete()
    modifies data
    ensures data.Complete() && data.decades == DecadeColumn(data.releaseYears)
    ensures data.titles == old(data.titles) && data.releaseYears == old(data.releaseYears)
    ensures data.directors == old(data.directors) && data.ratings == old(data.ratings)
    ensures data.columns == old(data.columns) + {DecadeColumnName}
    ensures merged == Summarize(data.decades, data.ratings)
    ensures (forall i :: 0 <= i < |merged| ==> merged[i].movieCount > 0) && percent == Percents(merged)
  {
    merged := AvgRatingPerDecades(data);
    forall i | 0 <= i < |merged| ensures merged[i].movieCount > 0 {
      SummaryRow(data.decades, data.ratings, i);
    }
    percent := Percents(merged);
  }
}
