/** `ORDER BY` as a function: a stable insertion sort on the rows' sort
    keys. SQL leaves the order of rows with equal keys unspecified, so the
    contracts promise only what the database promises: the result is in key
    order and holds exactly the input rows. */
module Sorting {
  import opened Collation

  ghost predicate SortedBy<T>(xs: seq<T>, key: T -> SortKey) {
    forall i, j :: 0 <= i < j < |xs| ==> KeyLe(key(xs[i]), key(xs[j]))
  }

  /** Places `x` before the first element whose key is not below it. */
  function Insert<T>(x: T, xs: seq<T>, key: T -> SortKey): (r: seq<T>)
    ensures multiset(r) == multiset(xs) + multiset{x}
    decreases |xs|
  {
    if |xs| == 0 then [x]
    else if KeyLe(key(x), key(xs[0])) then [x] + xs
    else
      assert xs == [xs[0]] + xs[1..];
      [xs[0]] + Insert(x, xs[1..], key)
  }

  lemma {:induction false} InsertSorted<T>(x: T, xs: seq<T>, key: T -> SortKey)
    requires SortedBy(xs, key)
    ensures SortedBy(Insert(x, xs, key), key)
    decreases |xs|
  {
    if |xs| == 0 {
    } else if KeyLe(key(x), key(xs[0])) {
      forall y | y in xs
        ensures KeyLe(key(x), key(y))
      {
        var j :| 0 <= j < |xs| && xs[j] == y;
        if j > 0 {
          KeyLeTransitive(key(x), key(xs[0]), key(y));
        }
      }
      PrependSorted(x, xs, key);
    } else {
      InsertSorted(x, xs[1..], key);
      KeyLeTotal(key(x), key(xs[0]));
      var rest := Insert(x, xs[1..], key);
      forall y | y in rest
        ensures KeyLe(key(xs[0]), key(y))
      {
        InsertedFrom(x, xs[1..], key, y);
        if y != x {
          var j :| 0 <= j < |xs[1..]| && xs[1..][j] == y;
          assert xs[j + 1] == y;
        }
      }
      PrependSorted(xs[0], rest, key);
    }
  }

  /** Every element of an insertion is the inserted one or an old one. */
  lemma InsertedFrom<T>(x: T, xs: seq<T>, key: T -> SortKey, y: T)
    requires y in Insert(x, xs, key)
    ensures y == x || y in xs
  {
    assert y in multiset(Insert(x, xs, key));
    assert y in multiset(xs) + multiset{x};
  }

  /** An element no greater than the head of a sorted sequence may go before it. */
  lemma PrependSorted<T>(x: T, xs: seq<T>, key: T -> SortKey)
    requires SortedBy(xs, key)
    requires forall y :: y in xs ==> KeyLe(key(x), key(y))
    ensures SortedBy([x] + xs, key)
  {
    var r := [x] + xs;
    forall i, j | 0 <= i < j < |r|
      ensures KeyLe(key(r[i]), key(r[j]))
    {
      assert r[j] == xs[j - 1] && xs[j - 1] in xs;
      if i > 0 {
        assert r[i] == xs[i - 1];
      }
    }
  }

  /** The rows of `xs` in ascending key order. */
  function SortBy<T>(xs: seq<T>, key: T -> SortKey): (r: seq<T>)
    ensures multiset(r) == multiset(xs)
    ensures SortedBy(r, key)
    decreases |xs|
  {
    if |xs| == 0 then []
    else
      var sorted := SortBy(xs[1..], key);
      InsertSorted(xs[0], sorted, key);
      assert xs == [xs[0]] + xs[1..];
      Insert(xs[0], sorted, key)
  }

  /** A permutation holds the same elements. */
  lemma PermutationMembers<T>(a: seq<T>, b: seq<T>)
    requires multiset(a) == multiset(b)
    ensures forall x :: x in a <==> x in b
  {
    forall x
      ensures x in a <==> x in b
    {
      assert x in a <==> x in multiset(a);
      assert x in b <==> x in multiset(b);
    }
  }

  /** The list comprehension `[f(x) for x in xs]`. */
  function MapSeq<T, U>(xs: seq<T>, f: T -> U): (r: seq<U>)
    ensures |r| == |xs|
    ensures forall i :: 0 <= i < |xs| ==> r[i] == f(xs[i])
  {
    seq(|xs|, i requires 0 <= i < |xs| => f(xs[i]))
  }

  lemma MapSeqAppend<T, U>(a: seq<T>, b: seq<T>, f: T -> U)
    ensures MapSeq(a + b, f) == MapSeq(a, f) + MapSeq(b, f)
  {
  }

  /** Mapping two permutations of each other gives two permutations of each other. */
  lemma {:induction false} MapPermutation<T, U>(a: seq<T>, b: seq<T>, f: T -> U)
    requires multiset(a) == multiset(b)
    ensures multiset(MapSeq(a, f)) == multiset(MapSeq(b, f))
    decreases |a|
  {
    if |a| == 0 {
      assert |b| == |multiset(b)| == 0;
    } else {
      var x := a[0];
      assert x in multiset(b);
      var k :| 0 <= k < |b| && b[k] == x;
      var b' := b[..k] + b[k + 1..];
      RemoveBoth(a, b, k);
      MapPermutation(a[1..], b', f);
      MapRemoved(a, b, k, f);
    }
  }

  /** Taking the same element out of two permutations leaves two permutations. */
  lemma RemoveBoth<T>(a: seq<T>, b: seq<T>, k: int)
    requires multiset(a) == multiset(b)
    requires |a| > 0 && 0 <= k < |b| && b[k] == a[0]
    ensures multiset(a[1..]) == multiset(b[..k] + b[k + 1..])
  {
    var x, b' := a[0], b[..k] + b[k + 1..];
    assert a == [x] + a[1..];
    assert b == b[..k] + [x] + b[k + 1..];
    calc {
      multiset(a[1..]) + multiset{x};
      multiset(a);
      multiset(b);
      multiset(b[..k]) + multiset{x} + multiset(b[k + 1..]);
      multiset(b') + multiset{x};
    }
    MultisetCancel(multiset(a[1..]), multiset(b'), x);
  }

  lemma MultisetCancel<T>(p: multiset<T>, q: multiset<T>, x: T)
    requires p + multiset{x} == q + multiset{x}
    ensures p == q
  {
    forall y
      ensures p[y] == q[y]
    {
      assert (p + multiset{x})[y] == (q + multiset{x})[y];
    }
  }

  /** The image of a sequence is the image of its first element and of the rest. */
  lemma MapRemoved<T, U>(a: seq<T>, b: seq<T>, k: int, f: T -> U)
    requires |a| > 0 && 0 <= k < |b| && b[k] == a[0]
    requires multiset(MapSeq(a[1..], f)) == multiset(MapSeq(b[..k] + b[k + 1..], f))
    ensures multiset(MapSeq(a, f)) == multiset(MapSeq(b, f))
  {
    var x := a[0];
    assert a == [x] + a[1..];
    assert b == b[..k] + [x] + b[k + 1..];
    MapSeqAppend([x], a[1..], f);
    MapSeqAppend(b[..k], [x], f);
    MapSeqAppend(b[..k] + [x], b[k + 1..], f);
    MapSeqAppend(b[..k], b[k + 1..], f);
  }
}
