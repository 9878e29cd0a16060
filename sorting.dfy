/** The stable sort behind `sort_values` and `nlargest`: an insertion sort
    by a caller-chosen "ranks before or with" relation, with the properties
    the analyses rely on: sorted, a permutation, and stable. */
module Sorting {
  import opened Seqs

  /** `le` relates any two elements and is transitive. */
  ghost predicate TotalPreorder<T(!new)>(le: (T, T) -> bool) {
    && (forall a, b :: le(a, b) || le(b, a))
    && (forall a, b, c :: le(a, b) && le(b, c) ==> le(a, c))
  }

  /** Each element ranks before or with every later one. */
  ghost predicate SortedBy<T>(s: seq<T>, le: (T, T) -> bool) {
    forall i, j :: 0 <= i < j < |s| ==> le(s[i], s[j])
  }

  /** Puts `x` in front of the first element it ranks before or with. */
  function Insert<T>(x: T, s: seq<T>, le: (T, T) -> bool): (r: seq<T>)
    ensures |r| == |s| + 1
  {
    if s == [] || le(x, s[0]) then [x] + s else [s[0]] + Insert(x, s[1..], le)
  }

  /** Sorts `s` by `le`, keeping elements that rank together in their order. */
  function SortBy<T>(s: seq<T>, le: (T, T) -> bool): (r: seq<T>)
    ensures |r| == |s|
  {
    if s == [] then [] else Insert(s[0], SortBy(s[1..], le), le)
  }

  lemma {:induction false} InsertPermutes<T>(x: T, s: seq<T>, le: (T, T) -> bool)
    ensures multiset(Insert(x, s, le)) == multiset(s) + multiset{x}
  {
    if s != [] && !le(x, s[0]) {
      var t := Insert(x, s[1..], le);
      InsertPermutes(x, s[1..], le);
      assert s == [s[0]] + s[1..];
      calc {
        multiset(Insert(x, s, le));
        multiset([s[0]] + t);
        multiset{s[0]} + multiset(t);
        multiset{s[0]} + (multiset(s[1..]) + multiset{x});
        multiset{s[0]} + multiset(s[1..]) + multiset{x};
        multiset(s) + multiset{x};
      }
    }
  }

  /** Sorting only reorders. */
  lemma {:induction false} SortPermutes<T>(s: seq<T>, le: (T, T) -> bool)
    ensures multiset(SortBy(s, le)) == multiset(s)
  {
    if s != [] {
      SortPermutes(s[1..], le);
      InsertPermutes(s[0], SortBy(s[1..], le), le);
      assert s == [s[0]] + s[1..];
    }
  }

  lemma {:induction false} InsertSorted<T(!new)>(x: T, s: seq<T>, le: (T, T) -> bool)
    requires TotalPreorder(le) && SortedBy(s, le)
    ensures SortedBy(Insert(x, s, le), le)
  {
    var r := Insert(x, s, le);
    if s == [] {
    } else if le(x, s[0]) {
      forall i, j | 0 <= i < j < |r| ensures le(r[i], r[j]) {
        if i == 0 && j > 1 {
          assert le(s[0], s[j - 1]);
        }
      }
    } else {
      var t := Insert(x, s[1..], le);
      InsertSorted(x, s[1..], le);
      InsertPermutes(x, s[1..], le);
      forall j | 0 <= j < |t| ensures le(s[0], t[j]) {
        assert t[j] in multiset(t);
        assert t[j] in multiset(s[1..]) + multiset{x};
        if t[j] != x {
          var k :| 0 <= k < |s[1..]| && s[1..][k] == t[j];
          assert s[k + 1] == t[j];
        }
      }
    }
  }

  /** The sorted sequence ranks each element before or with every later one. */
  lemma {:induction false} SortSorted<T(!new)>(s: seq<T>, le: (T, T) -> bool)
    requires TotalPreorder(le)
    ensures SortedBy(SortBy(s, le), le)
  {
    if s != [] {
      SortSorted(s[1..], le);
      InsertSorted(s[0], SortBy(s[1..], le), le);
    }
  }

  /** `p` picks elements that all rank together. */
  ghost predicate RankTogether<T(!new)>(p: T -> bool, le: (T, T) -> bool) {
    forall a, b :: p(a) && p(b) ==> le(a, b)
  }

  lemma {:induction false} InsertFilter<T(!new)>(x: T, s: seq<T>, le: (T, T) -> bool, p: T -> bool)
    requires RankTogether(p, le)
    ensures Filter(Insert(x, s, le), p) == (if p(x) then [x] else []) + Filter(s, p)
  {
    if s != [] && !le(x, s[0]) {
      var r := Insert(x, s, le);
      var t := Insert(x, s[1..], le);
      var head := if p(s[0]) then [s[0]] else [];
      var mine := if p(x) then [x] else [];
      InsertFilter(x, s[1..], le, p);
      assert r == [s[0]] + t && r[0] == s[0] && r[1..] == t;
      if p(x) {
        assert !p(s[0]);
      }
      calc {
        Filter(r, p);
        head + Filter(t, p);
        head + (mine + Filter(s[1..], p));
        { Associative(head, mine, Filter(s[1..], p)); }
        head + mine + Filter(s[1..], p);
        { assert head + mine == mine + head; }
        mine + head + Filter(s[1..], p);
        { Associative(mine, head, Filter(s[1..], p)); }
        mine + (head + Filter(s[1..], p));
        mine + Filter(s, p);
      }
    }
  }

  /** Stability: elements that rank together come out in their input order. */
  lemma {:induction false} SortStable<T(!new)>(s: seq<T>, le: (T, T) -> bool, p: T -> bool)
    requires RankTogether(p, le)
    ensures Filter(SortBy(s, le), p) == Filter(s, p)
  {
    if s != [] {
      SortStable(s[1..], le, p);
      InsertFilter(s[0], SortBy(s[1..], le), le, p);
    }
  }
}
