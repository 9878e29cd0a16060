/** Sequence helpers shared by the modules: concatenation regrouping, and
    the row selections pandas offers (`filter` by a predicate, `nlargest`'s
    cut-off and `head`). */
module Seqs {

  lemma Associative<T>(a: seq<T>, b: seq<T>, c: seq<T>)
    ensures a + (b + c) == a + b + c
  {
  }

  /** The elements of `s` that satisfy `p`, in order. */
  function Filter<T>(s: seq<T>, p: T -> bool): (r: seq<T>)
    ensures |r| <= |s|
  {
    if s == [] then [] else (if p(s[0]) then [s[0]] else []) + Filter(s[1..], p)
  }

  /** The first `n` elements, all of them when `n` is past the end, none when
      `n` is not positive. */
  function Take<T>(s: seq<T>, n: int): (r: seq<T>)
    ensures |r| == if n <= 0 then 0 else if n < |s| then n else |s|
    ensures r <= s
  {
    if n <= 0 then [] else if n < |s| then s[..n] else s
  }

  /** pandas' `head(n)`: the first `n` rows, and for a negative `n` all rows
      except the last `-n`. */
  function Head<T>(s: seq<T>, n: int): (r: seq<T>)
    ensures r <= s
    ensures |r| == if 0 <= n then (if n < |s| then n else |s|)
                   else (if |s| + n > 0 then |s| + n else 0)
  {
    if 0 <= n then (if n < |s| then s[..n] else s)
    else if |s| + n > 0 then s[..|s| + n] else []
  }

  /** `f` applied to every element: a column computed from another. */
  function Map<A, B>(s: seq<A>, f: A -> B): (r: seq<B>)
    ensures |r| == |s|
  {
    if s == [] then [] else [f(s[0])] + Map(s[1..], f)
  }

  lemma {:induction false} MapAt<A, B>(s: seq<A>, f: A -> B)
    ensures forall i :: 0 <= i < |s| ==> Map(s, f)[i] == f(s[i])
  {
    if s != [] {
      MapAt(s[1..], f);
    }
  }
}
