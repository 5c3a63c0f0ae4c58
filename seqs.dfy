/** Array.prototype.filter on sequences, and the laws the catalog and the cart rely on. */
module Seqs {

  /** The elements of `s` that satisfy `f`, in their original order. */
  function Filter<T>(s: seq<T>, f: T -> bool): (r: seq<T>)
    ensures |r| <= |s|
  {
    if s == [] then []
    else
      var rest := Filter(s[..|s| - 1], f);
      if f(s[|s| - 1]) then rest + [s[|s| - 1]] else rest
  }

  /** A non-empty sequence is its prefix followed by its last element. */
  lemma SplitLast<T>(s: seq<T>)
    requires s != []
    ensures s == s[..|s| - 1] + [s[|s| - 1]]
  {
  }

  /** A sequence is what lies before position `k`, the element at `k`, and what follows. */
  lemma SplitAt<T>(s: seq<T>, k: nat)
    requires k < |s|
    ensures s == s[..k] + [s[k]] + s[k + 1..]
  {
  }

  /** Filtering a sequence extended by one element. */
  lemma FilterSnoc<T>(s: seq<T>, x: T, f: T -> bool)
    ensures Filter(s + [x], f) == Filter(s, f) + (if f(x) then [x] else [])
  {
    assert (s + [x])[..|s + [x]| - 1] == s;
  }

  /** Filtering distributes over concatenation: the kept elements stay in their relative order. */
  lemma {:induction false} FilterConcat<T>(a: seq<T>, b: seq<T>, f: T -> bool)
    ensures Filter(a + b, f) == Filter(a, f) + Filter(b, f)
    decreases |b|
  {
    if b == [] {
      assert a + b == a;
    } else {
      var b', y := b[..|b| - 1], b[|b| - 1];
      SplitLast(b);
      assert a + (b' + [y]) == (a + b') + [y];
      FilterConcat(a, b', f);
      FilterSnoc(a + b', y, f);
      FilterSnoc(b', y, f);
    }
  }

  /** Every element that satisfies `f` is kept as often as it occurs; every other one is dropped. */
  lemma {:induction false} FilterCount<T>(s: seq<T>, f: T -> bool, x: T)
    ensures multiset(Filter(s, f))[x] == if f(x) then multiset(s)[x] else 0
  {
    if s != [] {
      var s' := s[..|s| - 1];
      var y := s[|s| - 1];
      assert s == s' + [y];
      FilterCount(s', f, x);
      FilterSnoc(s', y, f);
    }
  }

  /** `x` survives the filter exactly when it is in `s` and satisfies `f`. */
  lemma FilterMember<T>(s: seq<T>, f: T -> bool, x: T)
    ensures x in Filter(s, f) <==> x in s && f(x)
  {
    FilterCount(s, f, x);
  }

  /** The filter changes nothing exactly when every element satisfies `f`. */
  lemma {:induction false} FilterIdentity<T>(s: seq<T>, f: T -> bool)
    ensures Filter(s, f) == s <==> forall x :: x in s ==> f(x)
  {
    if forall x :: x in s ==> f(x) {
      if s != [] {
        var s' := s[..|s| - 1];
        assert forall x :: x in s' ==> x in s;
        FilterIdentity(s', f);
        assert s == s' + [s[|s| - 1]];
      }
    } else {
      var x :| x in s && !f(x);
      FilterMember(s, f, x);
    }
  }

  /** If some element fails `f`, the filter leaves a strictly shorter sequence. */
  lemma {:induction false} FilterDrops<T>(s: seq<T>, f: T -> bool, x: T)
    requires x in s && !f(x)
    ensures |Filter(s, f)| < |s|
  {
    var s' := s[..|s| - 1];
    var y := s[|s| - 1];
    assert s == s' + [y];
    if y != x {
      assert x in s';
      FilterDrops(s', f, x);
    }
  }

  /** Filters agreeing on every element give the same result. */
  lemma {:induction false} FilterExt<T>(s: seq<T>, f: T -> bool, g: T -> bool)
    requires forall x :: f(x) == g(x)
    ensures Filter(s, f) == Filter(s, g)
  {
    if s != [] {
      FilterExt(s[..|s| - 1], f, g);
    }
  }

  /** Two successive filters are one filter by the conjunction. */
  lemma {:induction false} FilterFilter<T>(s: seq<T>, f: T -> bool, g: T -> bool, h: T -> bool)
    requires forall x :: h(x) == (f(x) && g(x))
    ensures Filter(Filter(s, f), g) == Filter(s, h)
  {
    if s != [] {
      var s' := s[..|s| - 1];
      var y := s[|s| - 1];
      FilterFilter(s', f, g, h);
      if f(y) {
        FilterSnoc(Filter(s', f), y, g);
      }
    }
  }
}
