/**
 Strict lexicographic order on integer sequences and stable sorting by a key.

 Every order the program relies on (key identities, transient discovery keys,
 tombstone stamps, endpoints) is a derived comparison, field by field and byte by
 byte. Each of them is expressed here as `Below` on a sequence of integers.
 */
module Ordering {

  predicate Below(a: seq<int>, b: seq<int>) {
    b != [] && (a == [] || a[0] < b[0] || (a[0] == b[0] && Below(a[1..], b[1..])))
  }

  lemma {:induction false} BelowIrreflexive(a: seq<int>)
    ensures !Below(a, a)
  {
    if a == [] {
    } else {
      BelowIrreflexive(a[1..]);
    }
  }

  lemma {:induction false} BelowTransitive(a: seq<int>, b: seq<int>, c: seq<int>)
    requires Below(a, b) && Below(b, c)
    ensures Below(a, c)
  {
    if a != [] && a[0] == b[0] == c[0] {
      BelowTransitive(a[1..], b[1..], c[1..]);
    }
  }

  lemma {:induction false} BelowTotal(a: seq<int>, b: seq<int>)
    ensures Below(a, b) || a == b || Below(b, a)
  {
    if a != [] && b != [] && a[0] == b[0] {
      BelowTotal(a[1..], b[1..]);
      assert a == [a[0]] + a[1..] && b == [b[0]] + b[1..];
    }
  }

  lemma BelowAsymmetric(a: seq<int>, b: seq<int>)
    requires Below(a, b)
    ensures !Below(b, a) && a != b
  {
    if Below(b, a) {
      BelowTransitive(a, b, a);
    }
    BelowIrreflexive(a);
  }

  /** No element is preceded by one with a greater key. */
  ghost predicate Sorted<T>(xs: seq<T>, key: T -> seq<int>) {
    forall i, j | 0 <= i < j < |xs| :: !Below(key(xs[j]), key(xs[i]))
  }

  ghost predicate StrictlySorted<T>(xs: seq<T>, key: T -> seq<int>) {
    forall i, j | 0 <= i < j < |xs| :: Below(key(xs[i]), key(xs[j]))
  }

  ghost predicate DistinctKeys<T>(xs: seq<T>, key: T -> seq<int>) {
    forall i, j | 0 <= i < j < |xs| :: key(xs[i]) != key(xs[j])
  }

  /** Inserts before the first element that is not below `x`, which keeps equal keys in arrival order. */
  function InsertBy<T>(x: T, xs: seq<T>, key: T -> seq<int>): (r: seq<T>)
    ensures |r| == |xs| + 1
    ensures multiset(r) == multiset(xs) + multiset{x}
  {
    if xs == [] || !Below(key(xs[0]), key(x)) then [x] + xs
    else
      assert xs == [xs[0]] + xs[1..];
      [xs[0]] + InsertBy(x, xs[1..], key)
  }

  /** The stable sort of `xs` by `key`. */
  function SortBy<T>(xs: seq<T>, key: T -> seq<int>): (r: seq<T>)
    ensures |r| == |xs|
    ensures multiset(r) == multiset(xs)
  {
    if xs == [] then []
    else
      assert xs == [xs[0]] + xs[1..];
      InsertBy(xs[0], SortBy(xs[1..], key), key)
  }

  lemma SameElements<T>(xs: seq<T>, ys: seq<T>)
    requires multiset(xs) == multiset(ys)
    ensures forall x :: x in xs <==> x in ys
  {
    forall x
      ensures x in xs <==> x in ys
    {
      assert x in xs <==> x in multiset(xs);
      assert x in ys <==> x in multiset(ys);
    }
  }

  lemma {:induction false} InsertBySorted<T>(x: T, xs: seq<T>, key: T -> seq<int>)
    requires Sorted(xs, key)
    ensures Sorted(InsertBy(x, xs, key), key)
  {
    if xs == [] {
    } else if !Below(key(xs[0]), key(x)) {
      forall j | 0 <= j < |xs|
        ensures !Below(key(xs[j]), key(x))
      {
        if Below(key(xs[j]), key(x)) {
          BelowTotal(key(xs[0]), key(xs[j]));
          if Below(key(xs[0]), key(xs[j])) {
            BelowTransitive(key(xs[0]), key(xs[j]), key(x));
          }
        }
      }
    } else {
      var rest := InsertBy(x, xs[1..], key);
      InsertBySorted(x, xs[1..], key);
      forall y | y in rest
        ensures y == x || y in xs[1..]
      {
        assert y in multiset(rest);
      }
      forall j | 0 <= j < |rest|
        ensures !Below(key(rest[j]), key(xs[0]))
      {
        assert rest[j] in rest;
        if rest[j] == x {
          BelowAsymmetric(key(xs[0]), key(x));
        }
      }
    }
  }

  lemma {:induction false} SortBySorted<T>(xs: seq<T>, key: T -> seq<int>)
    ensures Sorted(SortBy(xs, key), key)
  {
    if xs == [] {
    } else {
      SortBySorted(xs[1..], key);
      InsertBySorted(xs[0], SortBy(xs[1..], key), key);
    }
  }

  /** In a sorted list, comparing neighbours is enough to find every repeated key. */
  lemma SortedWithoutEqualNeighbours<T>(xs: seq<T>, key: T -> seq<int>)
    requires Sorted(xs, key)
    ensures (forall i | 0 <= i < |xs| - 1 :: key(xs[i]) != key(xs[i + 1])) <==> StrictlySorted(xs, key)
  {
    if forall i | 0 <= i < |xs| - 1 :: key(xs[i]) != key(xs[i + 1]) {
      forall i, j | 0 <= i < j < |xs|
        ensures Below(key(xs[i]), key(xs[j]))
      {
        assert key(xs[i]) != key(xs[i + 1]);
        BelowTotal(key(xs[i]), key(xs[i + 1]));
        BelowTotal(key(xs[i + 1]), key(xs[j]));
        if i + 1 < j && Below(key(xs[i + 1]), key(xs[j])) {
          BelowTransitive(key(xs[i]), key(xs[i + 1]), key(xs[j]));
        }
      }
    }
    if StrictlySorted(xs, key) {
      forall i | 0 <= i < |xs| - 1
        ensures key(xs[i]) != key(xs[i + 1])
      {
        BelowIrreflexive(key(xs[i]));
      }
    }
  }

  lemma StrictlySortedDistinct<T>(xs: seq<T>, key: T -> seq<int>)
    requires StrictlySorted(xs, key)
    ensures forall i, j | 0 <= i < |xs| && 0 <= j < |xs| && key(xs[i]) == key(xs[j]) :: i == j
    ensures DistinctKeys(xs, key)
  {
    forall i, j | 0 <= i < |xs| && 0 <= j < |xs| && key(xs[i]) == key(xs[j])
      ensures i == j
    {
      BelowIrreflexive(key(xs[i]));
    }
  }

  lemma {:induction false} StrictlySortedCount<T>(xs: seq<T>, key: T -> seq<int>)
    requires StrictlySorted(xs, key)
    ensures |set x | x in xs| == |xs|
  {
    if xs == [] {
    } else {
      var n := |xs| - 1;
      StrictlySortedCount(xs[..n], key);
      BelowIrreflexive(key(xs[n]));
      assert xs[n] !in xs[..n];
      assert xs == xs[..n] + [xs[n]];
      assert (set x | x in xs) == (set x | x in xs[..n]) + {xs[n]};
    }
  }

  lemma StrictlySortedIsSorted<T>(xs: seq<T>, key: T -> seq<int>)
    requires StrictlySorted(xs, key)
    ensures Sorted(xs, key)
  {
    forall i, j | 0 <= i < j < |xs|
      ensures !Below(key(xs[j]), key(xs[i]))
    {
      BelowAsymmetric(key(xs[i]), key(xs[j]));
    }
  }

  /** A strictly sorted list is determined by its set of elements. */
  lemma {:induction false} StrictlySortedUnique<T>(xs: seq<T>, ys: seq<T>, key: T -> seq<int>)
    requires StrictlySorted(xs, key) && StrictlySorted(ys, key)
    requires forall x :: x in xs <==> x in ys
    ensures xs == ys
    decreases |xs|
  {
    assert xs != [] ==> xs[0] in xs;
    assert ys != [] ==> ys[0] in ys;
    if xs != [] && ys != [] {
      if xs[0] != ys[0] {
        var i :| 0 <= i < |xs| && xs[i] == ys[0];
        var j :| 0 <= j < |ys| && ys[j] == xs[0];
        BelowAsymmetric(key(xs[0]), key(xs[i]));
        assert false;
      }
      forall x
        ensures x in xs[1..] <==> x in ys[1..]
      {
        TailMembership(xs, key, x);
        TailMembership(ys, key, x);
      }
      StrictlySortedUnique(xs[1..], ys[1..], key);
      assert xs == [xs[0]] + xs[1..] && ys == [ys[0]] + ys[1..];
    }
  }

  lemma TailMembership<T>(xs: seq<T>, key: T -> seq<int>, x: T)
    requires StrictlySorted(xs, key) && xs != []
    ensures x in xs[1..] <==> x in xs && x != xs[0]
  {
    if x in xs[1..] {
      var i :| 0 <= i < |xs[1..]| && xs[1..][i] == x;
      assert xs[i + 1] == x;
      BelowIrreflexive(key(xs[0]));
    }
  }

  lemma {:induction false} InsertByStrict<T>(x: T, xs: seq<T>, key: T -> seq<int>)
    requires StrictlySorted(xs, key)
    requires forall y | y in xs :: key(y) != key(x)
    ensures StrictlySorted(InsertBy(x, xs, key), key)
  {
    var r := InsertBy(x, xs, key);
    StrictlySortedIsSorted(xs, key);
    InsertBySorted(x, xs, key);
    if xs != [] && Below(key(xs[0]), key(x)) {
      var rest := InsertBy(x, xs[1..], key);
      InsertByStrict(x, xs[1..], key);
      forall j | 0 <= j < |rest|
        ensures Below(key(xs[0]), key(rest[j]))
      {
        assert rest[j] in multiset(rest);
        if rest[j] != x {
          assert rest[j] in xs[1..];
        }
      }
    } else {
      forall j | 0 <= j < |xs|
        ensures Below(key(x), key(xs[j]))
      {
        assert xs[j] in xs;
        assert r == [x] + xs;
        assert !Below(key(r[j + 1]), key(r[0]));
        BelowTotal(key(x), key(xs[j]));
      }
    }
  }

  /** Distinct keys survive sorting, so the sorted list is strictly sorted. */
  lemma {:induction false} SortByStrict<T>(xs: seq<T>, key: T -> seq<int>)
    requires DistinctKeys(xs, key)
    ensures StrictlySorted(SortBy(xs, key), key)
  {
    if xs == [] {
    } else {
      SortByStrict(xs[1..], key);
      var rest := SortBy(xs[1..], key);
      forall y | y in rest
        ensures key(y) != key(xs[0])
      {
        assert y in multiset(rest);
        assert y in xs[1..];
      }
      InsertByStrict(xs[0], rest, key);
    }
  }

  /** Sorting a strictly sorted list changes nothing. */
  lemma SortByIdempotent<T>(xs: seq<T>, key: T -> seq<int>)
    requires StrictlySorted(xs, key)
    ensures SortBy(xs, key) == xs
  {
    StrictlySortedDistinct(xs, key);
    SortByStrict(xs, key);
    SameElements(SortBy(xs, key), xs);
    StrictlySortedUnique(SortBy(xs, key), xs, key);
  }

  /** The first difference decides; without one, the shorter sequence comes first. */
  lemma {:induction false} BelowExact(a: seq<int>, b: seq<int>)
    ensures Below(a, b) <==>
            || a < b
            || exists i :: 0 <= i < |a| && i < |b| && a[..i] == b[..i] && a[i] < b[i]
  {
    if a == [] || b == [] {
    } else {
      BelowExact(a[1..], b[1..]);
      if Below(a, b) && a[0] == b[0] {
        if a[1..] < b[1..] {
          assert a == [a[0]] + a[1..] && b == [b[0]] + b[1..];
        } else {
          var i :| 0 <= i < |a[1..]| && i < |b[1..]| && a[1..][..i] == b[1..][..i] && a[1..][i] < b[1..][i];
          assert a[..i + 1] == [a[0]] + a[1..][..i] && b[..i + 1] == [b[0]] + b[1..][..i];
        }
      }
      if i :| 0 <= i < |a| && i < |b| && a[..i] == b[..i] && a[i] < b[i] {
        if i > 0 {
          assert a[..i][0] == b[..i][0];
          assert a[1..][..i - 1] == a[..i][1..] && b[1..][..i - 1] == b[..i][1..];
          assert a[1..][i - 1] < b[1..][i - 1];
        }
      }
      if a < b {
        assert a[0] == b[0] && a[1..] <= b[1..];
      }
    }
  }
}
