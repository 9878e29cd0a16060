/** The decade bucket of a release year (the `Decade` column). */
module Decades {
  import opened Seqs

  /** `10 * (year // 10)`. Python's `//` rounds down; for the positive
      divisor 10 Dafny's Euclidean `/` rounds down as well, so negative years
      fall in the decade below them too. The decade is a multiple of ten at
      most the year and less than ten below it. */
  function Decade(year: int): (d: int)
    ensures d % 10 == 0 && d <= year < d + 10
  {
    10 * (year / 10)
  }

  /** Those two facts pin the decade down: it is the only such multiple. */
  lemma DecadeUnique(year: int, d: int)
    requires d % 10 == 0 && d <= year < d + 10
    ensures Decade(year) == d
  {
    var e := Decade(year);
    assert d == 10 * (d / 10) && e == 10 * (e / 10);
  }

  /** A decade is its own decade: bucketing the bucket changes nothing. */
  lemma DecadeIdempotent(year: int)
    ensures Decade(Decade(year)) == Decade(year)
  {
    DecadeUnique(Decade(year), Decade(year));
  }

  /** Later years never fall in earlier decades. */
  lemma DecadeMonotone(a: int, b: int)
    requires a <= b
    ensures Decade(a) <= Decade(b)
  {
    var da, db := Decade(a), Decade(b);
    assert da == 10 * (da / 10) && db == 10 * (db / 10);
  }

  /** The column of decades, one per release year. */
  function DecadeColumn(years: seq<int>): seq<int> {
    Map(years, Decade)
  }

  /** The decade of every entry of a decade column is that entry itself:
      bucketing the column a second time changes nothing. */
  lemma DecadeColumnIdempotent(years: seq<int>)
    ensures DecadeColumn(DecadeColumn(years)) == DecadeColumn(years)
  {
    var ds := DecadeColumn(years);
    MapAt(years, Decade);
    MapAt(ds, Decade);
    forall i | 0 <= i < |ds| ensures DecadeColumn(ds)[i] == ds[i] {
      DecadeIdempotent(years[i]);
    }
  }
}
