/** Mapping each element of a sequence to a sequence and joining the results; sizes of integer ranges and sets. */
module Sequences {

  function FlatMap<T, U>(f: T -> seq<U>, s: seq<T>): seq<U> {
    if s == [] then [] else FlatMap(f, s[..|s| - 1]) + f(s[|s| - 1])
  }

  lemma FlatMapSnoc<T, U>(f: T -> seq<U>, s: seq<T>, x: T)
    ensures FlatMap(f, s + [x]) == FlatMap(f, s) + f(x)
  {
    assert (s + [x])[..|s|] == s;
  }

  lemma FlatMapOne<T, U>(f: T -> seq<U>, x: T)
    ensures FlatMap(f, [x]) == f(x)
  {
    assert [x][..0] == [];
  }

  lemma {:induction false} FlatMapConcat<T, U>(f: T -> seq<U>, a: seq<T>, b: seq<T>)
    ensures FlatMap(f, a + b) == FlatMap(f, a) + FlatMap(f, b)
  {
    if b == [] {
      assert a + b == a;
    } else {
      FlatMapConcat(f, a, b[..|b| - 1]);
      assert (a + b)[..|a + b| - 1] == a + b[..|b| - 1];
    }
  }

  /** Two passes are one pass with the composed step. */
  lemma {:induction false} FlatMapCompose<T, U, V>(f: T -> seq<U>, g: U -> seq<V>, h: T -> seq<V>, s: seq<T>)
    requires forall i :: 0 <= i < |s| ==> FlatMap(g, f(s[i])) == h(s[i])
    ensures FlatMap(g, FlatMap(f, s)) == FlatMap(h, s)
  {
    if s != [] {
      FlatMapCompose(f, g, h, s[..|s| - 1]);
      FlatMapConcat(g, FlatMap(f, s[..|s| - 1]), f(s[|s| - 1]));
    }
  }

  /** A property of every piece is a property of the whole. */
  lemma {:induction false} FlatMapAll<T, U>(f: T -> seq<U>, p: U -> bool, s: seq<T>)
    requires forall i :: 0 <= i < |s| ==> forall x :: x in f(s[i]) ==> p(x)
    ensures forall x :: x in FlatMap(f, s) ==> p(x)
  {
    if s != [] { FlatMapAll(f, p, s[..|s| - 1]); }
  }

  // ---------- sizes ----------

  predicate Within(lo: int, b: int, hi: int) { lo <= b < hi }

  function Range(lo: int, hi: int): set<int> { set b | lo <= b < hi && Within(lo, b, hi) }

  lemma {:induction false} RangeSize(lo: int, hi: int)
    requires lo <= hi
    ensures |Range(lo, hi)| == hi - lo
    decreases hi - lo
  {
    if lo < hi {
      RangeSize(lo, hi - 1);
      assert Range(lo, hi) == Range(lo, hi - 1) + {hi - 1};
    } else {
      assert Range(lo, hi) == {};
    }
  }

  lemma {:induction false} SubsetSize<T>(s: set<T>, t: set<T>)
    requires s <= t
    ensures |s| <= |t|
  {
    if s != {} {
      var x :| x in s;
      SubsetSize(s - {x}, t - {x});
    }
  }
}
