/** What `groupby(...)` followed by `count()` or `mean()` computes over an
    integer key column: the distinct keys in ascending order, the size of
    each group, and the values that fall in each group. */
module Grouping {

  /** How many times `k` occurs in `ks`. */
  function Count(ks: seq<int>, k: int): nat {
    if ks == [] then 0 else (if ks[0] == k then 1 else 0) + Count(ks[1..], k)
  }

  /** `Count` is the multiplicity of `k` in the bag of keys. */
  lemma {:induction false} CountIsMultiplicity(ks: seq<int>, k: int)
    ensures Count(ks, k) == multiset(ks)[k]
  {
    if ks != [] {
      CountIsMultiplicity(ks[1..], k);
      assert ks == [ks[0]] + ks[1..];
    }
  }

  /** A key has a non-empty group exactly when it occurs. */
  lemma {:induction false} CountPositive(ks: seq<int>, k: int)
    ensures Count(ks, k) > 0 <==> k in ks
  {
    CountIsMultiplicity(ks, k);
  }

  predicate Increasing(s: seq<int>) {
    forall i, j :: 0 <= i < j < |s| ==> s[i] < s[j]
  }

  /** Adds `k` to an ascending key list unless it is already there. */
  function InsertKey(s: seq<int>, k: int): seq<int> {
    if s == [] then [k]
    else if k < s[0] then [k] + s
    else if k == s[0] then s
    else [s[0]] + InsertKey(s[1..], k)
  }

  lemma {:induction false} InsertKeySpec(s: seq<int>, k: int)
    requires Increasing(s)
    ensures Increasing(InsertKey(s, k))
    ensures forall x :: x in InsertKey(s, k) <==> x in s || x == k
  {
    if s != [] && k > s[0] {
      InsertKeySpec(s[1..], k);
      var t := InsertKey(s[1..], k);
      assert InsertKey(s, k) == [s[0]] + t;
      forall j | 0 <= j < |t| ensures s[0] < t[j] {
        assert t[j] in t;
      }
    }
  }

  /** The group keys of `groupby(by=...)`: each key once, ascending. */
  function GroupKeys(ks: seq<int>): seq<int> {
    if ks == [] then [] else InsertKey(GroupKeys(ks[1..]), ks[0])
  }

  lemma {:induction false} GroupKeysSpec(ks: seq<int>)
    ensures Increasing(GroupKeys(ks))
    ensures forall x :: x in GroupKeys(ks) <==> x in ks
  {
    if ks != [] {
      GroupKeysSpec(ks[1..]);
      InsertKeySpec(GroupKeys(ks[1..]), ks[0]);
      assert ks == [ks[0]] + ks[1..];
    }
  }

  /** The values at the positions where `ks` holds `k`: the group of `k`
      in the value column `vs`. */
  function Select(ks: seq<int>, vs: seq<nat>, k: int): (r: seq<nat>)
    requires |ks| == |vs|
    ensures |r| == Count(ks, k)
  {
    if ks == [] then []
    else (if ks[0] == k then [vs[0]] else []) + Select(ks[1..], vs[1..], k)
  }

  /** A value is in the group of `k` exactly when some position holding `k`
      carries it. */
  lemma {:induction false} SelectMembers(ks: seq<int>, vs: seq<nat>, k: int, v: nat)
    requires |ks| == |vs|
    ensures v in Select(ks, vs, k) <==> exists i :: 0 <= i < |ks| && ks[i] == k && vs[i] == v
  {
    if ks != [] {
      var head: seq<nat> := if ks[0] == k then [vs[0]] else [];
      SelectMembers(ks[1..], vs[1..], k, v);
      if v in Select(ks, vs, k) {
        if v in head {
          assert ks[0] == k && vs[0] == v;
        } else {
          assert v in Select(ks[1..], vs[1..], k);
          var j :| 0 <= j < |ks| - 1 && ks[1..][j] == k && vs[1..][j] == v;
          assert ks[j + 1] == k && vs[j + 1] == v;
        }
      }
      if exists i :: 0 <= i < |ks| && ks[i] == k && vs[i] == v {
        var i :| 0 <= i < |ks| && ks[i] == k && vs[i] == v;
        if i > 0 {
          assert ks[1..][i - 1] == k && vs[1..][i - 1] == v;
        }
      }
    }
  }

  /** Every value of a group comes from a position holding its key, so
      bounds on those positions bound the whole group. */
  lemma {:induction false} SelectBounds(ks: seq<int>, vs: seq<nat>, k: int, lo: int, hi: int)
    requires |ks| == |vs|
    requires forall i :: 0 <= i < |ks| && ks[i] == k ==> lo <= vs[i] <= hi
    ensures forall j :: 0 <= j < |Select(ks, vs, k)| ==> lo <= Select(ks, vs, k)[j] <= hi
  {
    if ks != [] {
      forall i | 0 <= i < |ks| - 1 && ks[1..][i] == k ensures lo <= vs[1..][i] <= hi {
        assert ks[1..][i] == ks[i + 1];
      }
      SelectBounds(ks[1..], vs[1..], k, lo, hi);
    }
  }

  function Sum(vs: seq<nat>): nat {
    if vs == [] then 0 else vs[0] + Sum(vs[1..])
  }

  /** The arithmetic mean of a non-empty group, exact. */
  function Mean(vs: seq<nat>): real
    requires |vs| > 0
  {
    (Sum(vs) as real) / (|vs| as real)
  }

  lemma {:induction false} SumBounds(vs: seq<nat>, lo: int, hi: int)
    requires forall j :: 0 <= j < |vs| ==> lo <= vs[j] <= hi
    ensures lo * |vs| <= Sum(vs) <= hi * |vs|
  {
    if vs != [] {
      SumBounds(vs[1..], lo, hi);
    }
  }

  /** A mean lies between any lower and upper bound of its values. */
  lemma MeanBounds(vs: seq<nat>, lo: int, hi: int)
    requires |vs| > 0
    requires forall j :: 0 <= j < |vs| ==> lo <= vs[j] <= hi
    ensures lo as real <= Mean(vs) <= hi as real
  {
    SumBounds(vs, lo, hi);
    QuotientBounds(Sum(vs), |vs|, lo, hi);
  }

  lemma QuotientBounds(total: nat, n: nat, lo: int, hi: int)
    requires n > 0 && lo * n <= total <= hi * n
    ensures lo as real <= (total as real) / (n as real) <= hi as real
  {
    var q := (total as real) / (n as real);
    assert q * (n as real) == total as real;
    assert (lo * n) as real == (lo as real) * (n as real);
    assert (hi * n) as real == (hi as real) * (n as real);
  }

  /** The group sizes of the keys in `keys`, added up. */
  function CountsSum(keys: seq<int>, ks: seq<int>): nat {
    if keys == [] then 0 else Count(ks, keys[0]) + CountsSum(keys[1..], ks)
  }

  lemma {:induction false} CountsSumEmpty(keys: seq<int>)
    ensures CountsSum(keys, []) == 0
  {
    if keys != [] {
      CountsSumEmpty(keys[1..]);
    }
  }

  /** One more key occurrence adds one to the sum of the group sizes, if
      its key is listed. */
  lemma {:induction false} CountsSumCons(keys: seq<int>, x: int, ks: seq<int>)
    requires Increasing(keys)
    ensures CountsSum(keys, [x] + ks) == CountsSum(keys, ks) + (if x in keys then 1 else 0)
  {
    if keys != [] {
      CountsSumCons(keys[1..], x, ks);
      assert ([x] + ks)[1..] == ks;
      if x == keys[0] {
        assert x !in keys[1..] by {
          forall j | 0 <= j < |keys[1..]| ensures keys[1..][j] != x {
            assert keys[1..][j] == keys[j + 1];
          }
        }
      }
      assert x in keys <==> x == keys[0] || x in keys[1..] by {
        assert keys == [keys[0]] + keys[1..];
      }
    }
  }

  /** Groups partition the rows: listing every key once, the group sizes add
      up to the number of rows. */
  lemma {:induction false} CountsSumAll(keys: seq<int>, ks: seq<int>)
    requires Increasing(keys)
    requires forall x :: x in ks ==> x in keys
    ensures CountsSum(keys, ks) == |ks|
  {
    if ks == [] {
      CountsSumEmpty(keys);
    } else {
      assert ks == [ks[0]] + ks[1..];
      CountsSumAll(keys, ks[1..]);
      CountsSumCons(keys, ks[0], ks[1..]);
    }
  }
}
