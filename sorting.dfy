/**
 * Sorting the display list by price: `lista.sort((a, b) => a.price - b.price)` for
 * the order "asc" and `lista.sort((a, b) => b.price - a.price)` for any other
 * order. `Array.prototype.sort` is stable, so products of equal price keep their
 * relative order; SortByPrice is that stable sort, SortInPlace does it on an array.
 */
module Sorting {
  import opened Products
  import opened Seqs

  /** The comparator handed to `sort`: negative when `a` goes before `b`. */
  function Compare(ordem: string, a: Product, b: Product): int {
    if ordem == "asc" then a.price - b.price else b.price - a.price
  }

  /** No later element compares below an earlier one. */
  ghost predicate Sorted(ordem: string, s: seq<Product>) {
    forall i, j :: 0 <= i < j < |s| ==> Compare(ordem, s[i], s[j]) <= 0
  }

  /** The products of `s` that cost exactly `price`, in the order of `s`. */
  function WithPrice(s: seq<Product>, price: int): seq<Product> {
    Filter(s, PriceIs(price))
  }

  function PriceIs(price: int): Product -> bool {
    (p: Product) => p.price == price
  }

  /** Inserts `x` into `s` after every element that does not compare above it. */
  function Insert(ordem: string, s: seq<Product>, x: Product): seq<Product> {
    if s == [] then [x]
    else if Compare(ordem, x, s[|s| - 1]) < 0 then Insert(ordem, s[..|s| - 1], x) + [s[|s| - 1]]
    else s + [x]
  }

  /** Stable insertion sort under `Compare(ordem, _, _)`. */
  function SortByPrice(ordem: string, s: seq<Product>): seq<Product> {
    if s == [] then [] else Insert(ordem, SortByPrice(ordem, s[..|s| - 1]), s[|s| - 1])
  }

  lemma {:induction false} InsertCount(ordem: string, s: seq<Product>, x: Product)
    ensures multiset(Insert(ordem, s, x)) == multiset(s) + multiset{x}
  {
    if s != [] && Compare(ordem, x, s[|s| - 1]) < 0 {
      var s' := s[..|s| - 1];
      assert s == s' + [s[|s| - 1]];
      InsertCount(ordem, s', x);
    }
  }

  /** Sorting permutes: the same products, each as often as before. */
  lemma {:induction false} SortPermutes(ordem: string, s: seq<Product>)
    ensures multiset(SortByPrice(ordem, s)) == multiset(s)
    ensures |SortByPrice(ordem, s)| == |s|
  {
    if s != [] {
      var s' := s[..|s| - 1];
      assert s == s' + [s[|s| - 1]];
      SortPermutes(ordem, s');
      InsertCount(ordem, SortByPrice(ordem, s'), s[|s| - 1]);
    }
    assert |multiset(SortByPrice(ordem, s))| == |multiset(s)|;
  }

  /** Appending an element that no earlier element compares above keeps a list sorted. */
  lemma SortedSnoc(ordem: string, s: seq<Product>, y: Product)
    requires Sorted(ordem, s)
    requires forall e :: e in s ==> Compare(ordem, e, y) <= 0
    ensures Sorted(ordem, s + [y])
  {
  }

  lemma {:induction false} InsertSorted(ordem: string, s: seq<Product>, x: Product)
    requires Sorted(ordem, s)
    ensures Sorted(ordem, Insert(ordem, s, x))
  {
    if s != [] {
      var s', y := s[..|s| - 1], s[|s| - 1];
      SplitLast(s);
      if Compare(ordem, x, y) < 0 {
        SortedPrefix(ordem, s);
        InsertSorted(ordem, s', x);
        InsertCount(ordem, s', x);
        var t := Insert(ordem, s', x);
        forall e | e in t ensures Compare(ordem, e, y) <= 0 {
          assert e in multiset(t);
          if e != x {
            assert e in multiset(s');
            assert e in s;
            SortedLast(ordem, s, e);
          }
        }
        SortedSnoc(ordem, t, y);
      } else {
        forall e | e in s ensures Compare(ordem, e, x) <= 0 {
          SortedLast(ordem, s, e);
        }
        SortedSnoc(ordem, s, x);
      }
    }
  }

  /** The stable sort's result is sorted. */
  lemma {:induction false} SortSorted(ordem: string, s: seq<Product>)
    ensures Sorted(ordem, SortByPrice(ordem, s))
  {
    if s != [] {
      SortSorted(ordem, s[..|s| - 1]);
      InsertSorted(ordem, SortByPrice(ordem, s[..|s| - 1]), s[|s| - 1]);
    }
  }

  lemma {:induction false} InsertStable(ordem: string, s: seq<Product>, x: Product, price: int)
    ensures WithPrice(Insert(ordem, s, x), price) == WithPrice(s, price) + WithPrice([x], price)
  {
    var f := PriceIs(price);
    FilterSnoc([], x, f);
    var ex := WithPrice([x], price);
    assert ex == if f(x) then [x] else [];
    if s == [] {
      assert Insert(ordem, s, x) == [x];
    } else if Compare(ordem, x, s[|s| - 1]) < 0 {
      var s', y := s[..|s| - 1], s[|s| - 1];
      SplitLast(s);
      var t := Insert(ordem, s', x);
      assert Insert(ordem, s, x) == t + [y];
      InsertStable(ordem, s', x, price);
      FilterSnoc(t, y, f);
      FilterSnoc(s', y, f);
      var ey: seq<Product> := if f(y) then [y] else [];
      assert WithPrice(t + [y], price) == WithPrice(s', price) + ex + ey;
      assert WithPrice(s, price) == WithPrice(s', price) + ey;
      assert x.price != y.price;
      assert ex == [] || ey == [];
      assert ex + ey == ey + ex;
    } else {
      assert Insert(ordem, s, x) == s + [x];
      FilterSnoc(s, x, f);
    }
  }

  /** The sort is stable: the products of any one price keep their relative order. */
  lemma {:induction false} SortStable(ordem: string, s: seq<Product>, price: int)
    ensures WithPrice(SortByPrice(ordem, s), price) == WithPrice(s, price)
  {
    if s != [] {
      var s' := s[..|s| - 1];
      var y := s[|s| - 1];
      assert s == s' + [y];
      SortStable(ordem, s', price);
      InsertStable(ordem, SortByPrice(ordem, s'), y, price);
      FilterSnoc([], y, PriceIs(price));
      FilterSnoc(s', y, PriceIs(price));
    }
  }

  /** A sorted list is left as it is. */
  lemma {:induction false} SortFixesSorted(ordem: string, s: seq<Product>)
    requires Sorted(ordem, s)
    ensures SortByPrice(ordem, s) == s
  {
    if s != [] {
      var s' := s[..|s| - 1];
      assert Sorted(ordem, s');
      SortFixesSorted(ordem, s');
      assert s == s' + [s[|s| - 1]];
      if s' != [] {
        assert Compare(ordem, s'[|s'| - 1], s[|s| - 1]) <= 0;
      }
    }
  }

  lemma SortedPrefix(ordem: string, s: seq<Product>)
    requires Sorted(ordem, s) && s != []
    ensures Sorted(ordem, s[..|s| - 1])
  {
  }

  /** Every element of a sorted list compares at most zero against its last element. */
  lemma SortedLast(ordem: string, s: seq<Product>, x: Product)
    requires Sorted(ordem, s) && s != [] && x in s
    ensures Compare(ordem, x, s[|s| - 1]) <= 0
  {
    var k :| 0 <= k < |s| && s[k] == x;
    if k < |s| - 1 {
      assert Compare(ordem, s[k], s[|s| - 1]) <= 0;
    }
  }

  /** Lists that agree on the products of every price hold the same products. */
  lemma SamePricesSameProducts(a: seq<Product>, b: seq<Product>)
    requires forall price :: WithPrice(a, price) == WithPrice(b, price)
    ensures multiset(a) == multiset(b)
  {
    forall x ensures multiset(a)[x] == multiset(b)[x] {
      FilterCount(a, PriceIs(x.price), x);
      FilterCount(b, PriceIs(x.price), x);
      assert WithPrice(a, x.price) == WithPrice(b, x.price);
    }
  }

  /** Removing the last products, of equal price, from lists that agree on every price. */
  lemma DropLastAgrees(a: seq<Product>, x: Product, b: seq<Product>, y: Product)
    requires x.price == y.price
    requires forall price :: WithPrice(a + [x], price) == WithPrice(b + [y], price)
    ensures x == y
    ensures forall price :: WithPrice(a, price) == WithPrice(b, price)
  {
    FilterSnoc(a, x, PriceIs(x.price));
    FilterSnoc(b, y, PriceIs(x.price));
    assert PriceIs(x.price)(x) && PriceIs(x.price)(y);
    var wa, wb := WithPrice(a + [x], x.price), WithPrice(b + [y], x.price);
    assert wa == wb;
    assert wa == WithPrice(a, x.price) + [x] && wb == WithPrice(b, x.price) + [y];
    assert x == wa[|wa| - 1] == wb[|wb| - 1] == y;
    forall price
      ensures WithPrice(a, price) == WithPrice(b, price)
    {
      var f := PriceIs(price);
      FilterSnoc(a, x, f);
      FilterSnoc(b, y, f);
      var e: seq<Product> := if f(x) then [x] else [];
      var fa, fb := Filter(a, f), Filter(b, f);
      assert WithPrice(a + [x], price) == WithPrice(b + [y], price);
      assert fa + e == fb + e;
      assert fa == (fa + e)[..|fa|] && fb == (fb + e)[..|fb|];
    }
  }

  /**
   * Any sorted arrangement that keeps the relative order of equal-price products
   * is unique: two of them over the same products are the same list.
   */
  lemma {:induction false} SortedStableUnique(ordem: string, a: seq<Product>, b: seq<Product>)
    requires Sorted(ordem, a) && Sorted(ordem, b)
    requires forall price :: WithPrice(a, price) == WithPrice(b, price)
    ensures a == b
    decreases |a|
  {
    SamePricesSameProducts(a, b);
    assert |a| == |multiset(a)| == |multiset(b)| == |b|;
    if a != [] {
      var a', x := a[..|a| - 1], a[|a| - 1];
      var b', y := b[..|b| - 1], b[|b| - 1];
      SplitLast(a);
      SplitLast(b);
      assert x in b && y in a by {
        assert x in multiset(b) && y in multiset(a);
      }
      SortedLast(ordem, b, x);
      SortedLast(ordem, a, y);
      DropLastAgrees(a', x, b', y);
      SortedPrefix(ordem, a);
      SortedPrefix(ordem, b);
      SortedStableUnique(ordem, a', b');
    }
  }

  /**
   * Whatever stable sort the runtime uses, its result is SortByPrice: a sorted
   * list that keeps each price's products in the order of `s` is SortByPrice(s).
   */
  lemma StableSortIsSortByPrice(ordem: string, s: seq<Product>, r: seq<Product>)
    requires Sorted(ordem, r)
    requires forall price :: WithPrice(r, price) == WithPrice(s, price)
    ensures r == SortByPrice(ordem, s)
  {
    SortSorted(ordem, s);
    forall price ensures WithPrice(r, price) == WithPrice(SortByPrice(ordem, s), price) {
      SortStable(ordem, s, price);
    }
    SortedStableUnique(ordem, r, SortByPrice(ordem, s));
  }

  /** Moving `x` one place to the left past an element that compares above it. */
  lemma InsertShift(ordem: string, s: seq<Product>, j: nat, x: Product)
    requires 0 < j <= |s| && Compare(ordem, x, s[j - 1]) < 0
    ensures Insert(ordem, s[..j], x) + s[j..] == Insert(ordem, s[..j - 1], x) + s[j - 1..]
  {
    assert s[..j][..j - 1] == s[..j - 1];
    assert s[j - 1..] == [s[j - 1]] + s[j..];
  }

  /** `x` stays where it is once the element to its left does not compare above it. */
  lemma InsertStop(ordem: string, s: seq<Product>, j: nat, x: Product)
    requires j <= |s| && (j == 0 || Compare(ordem, x, s[j - 1]) >= 0)
    ensures Insert(ordem, s[..j], x) == s[..j] + [x]
  {
  }

  /** Swapping `x` with the element to its left, in the layout the insertion step keeps. */
  lemma SwapLeft(s: seq<Product>, x: Product, tail: seq<Product>, j: nat)
    requires 0 < j <= |s|
    ensures (s[..j] + [x] + s[j..] + tail)[j - 1 := x][j := s[j - 1]]
         == s[..j - 1] + [x] + s[j - 1..] + tail
  {
  }

  /** One step of the insertion sort: moves `a[i]` into the sorted prefix `a[..i]`. */
  method InsertInPlace(a: array<Product>, i: nat, ordem: string)
    requires i < a.Length
    modifies a
    ensures a[..i + 1] == Insert(ordem, old(a[..i]), old(a[i]))
    ensures a[i + 1..] == old(a[i + 1..])
  {
    ghost var sorted, tail := a[..i], a[i + 1..];
    var x := a[i];
    var j := i;
    assert sorted[..j] == sorted && sorted[j..] == [];
    assert a[..] == sorted[..j] + [x] + sorted[j..] + tail;
    while j > 0 && Compare(ordem, x, a[j - 1]) < 0
      invariant 0 <= j <= i
      invariant a[..] == sorted[..j] + [x] + sorted[j..] + tail
      invariant Insert(ordem, sorted, x) == Insert(ordem, sorted[..j], x) + sorted[j..]
    {
      assert a[j - 1] == a[..][j - 1] == sorted[j - 1];
      InsertShift(ordem, sorted, j, x);
      SwapLeft(sorted, x, tail, j);
      ghost var before := a[..];
      a[j - 1], a[j] := a[j], a[j - 1];
      assert a[..] == before[j - 1 := x][j := sorted[j - 1]];
      j := j - 1;
    }
    if j > 0 {
      assert a[j - 1] == a[..][j - 1] == sorted[j - 1];
    }
    InsertStop(ordem, sorted, j, x);
    assert a[..] == Insert(ordem, sorted, x) + tail;
  }

  /** `lista.sort(comparator)` in place: insertion sort, stable under Compare. */
  method SortInPlace(a: array<Product>, ordem: string)
    modifies a
    ensures a[..] == SortByPrice(ordem, old(a[..]))
  {
    for i := 0 to a.Length
      invariant a[..i] == SortByPrice(ordem, old(a[..])[..i])
      invariant a[i..] == old(a[..])[i..]
    {
      assert old(a[..])[..i + 1][..i] == old(a[..])[..i];
      assert a[i] == old(a[..])[i];
      InsertInPlace(a, i, ordem);
    }
    assert a[..] == a[..a.Length];
    assert old(a[..]) == old(a[..])[..a.Length];
  }
}
