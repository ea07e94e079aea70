/**
 The contract of Go's `sort.Slice`: some permutation that is ascending in the key.
 It is not stable, so nothing is promised about the order of equal keys.
 */
module Sorting {

  ghost predicate Ascending<T>(xs: seq<T>, key: T -> int) {
    forall i, j :: 0 <= i < j < |xs| ==> key(xs[i]) <= key(xs[j])
  }

  function InsertAt<T>(ys: seq<T>, k: nat, x: T): seq<T>
    requires k <= |ys|
  {
    ys[..k] + [x] + ys[k..]
  }

  lemma InsertKeepsElements<T>(ys: seq<T>, k: nat, x: T)
    requires k <= |ys|
    ensures multiset(InsertAt(ys, k, x)) == multiset(ys) + multiset{x}
  {
    assert ys == ys[..k] + ys[k..];
  }

  lemma InsertKeepsOrder<T>(ys: seq<T>, k: nat, x: T, key: T -> int)
    requires k <= |ys| && Ascending(ys, key)
    requires k > 0 ==> key(ys[k - 1]) <= key(x)
    requires k < |ys| ==> key(x) <= key(ys[k])
    ensures Ascending(InsertAt(ys, k, x), key)
  {
    var zs := InsertAt(ys, k, x);
    forall i, j | 0 <= i < j < |zs| ensures key(zs[i]) <= key(zs[j]) {
      assert zs[i] == if i < k then ys[i] else if i == k then x else ys[i - 1];
      assert zs[j] == if j < k then ys[j] else if j == k then x else ys[j - 1];
    }
  }

  method Insert<T>(ys: seq<T>, x: T, key: T -> int) returns (zs: seq<T>)
    requires Ascending(ys, key)
    ensures multiset(zs) == multiset(ys) + multiset{x}
    ensures Ascending(zs, key)
  {
    var k := |ys|;
    while k > 0 && key(x) < key(ys[k - 1])
      invariant 0 <= k <= |ys|
      invariant k < |ys| ==> key(x) <= key(ys[k])
    {
      k := k - 1;
    }
    InsertKeepsElements(ys, k, x);
    InsertKeepsOrder(ys, k, x, key);
    zs := InsertAt(ys, k, x);
  }

  method SortBy<T>(xs: seq<T>, key: T -> int) returns (ys: seq<T>)
    ensures multiset(ys) == multiset(xs)
    ensures Ascending(ys, key)
  {
    ys := [];
    for i := 0 to |xs|
      invariant multiset(ys) == multiset(xs[..i])
      invariant Ascending(ys, key)
    {
      assert xs[..i + 1] == xs[..i] + [xs[i]];
      ys := Insert(ys, xs[i], key);
    }
    assert xs[..|xs|] == xs;
  }

  lemma PermutationMember<T>(xs: seq<T>, ys: seq<T>, x: T)
    requires multiset(xs) == multiset(ys)
    ensures x in xs <==> x in ys
  {
    assert x in xs <==> x in multiset(xs);
    assert x in ys <==> x in multiset(ys);
  }

  ghost predicate Distinct<T>(xs: seq<T>) {
    forall i, j :: 0 <= i < j < |xs| ==> xs[i] != xs[j]
  }

  lemma {:induction false} DistinctCounts<T>(xs: seq<T>)
    ensures Distinct(xs) <==> forall x :: multiset(xs)[x] <= 1
  {
    if xs != [] {
      var n := |xs| - 1;
      DistinctCounts(xs[..n]);
      assert xs == xs[..n] + [xs[n]];
      if xs[n] in xs[..n] {
        assert multiset(xs)[xs[n]] >= 2;
      } else if Distinct(xs[..n]) {
        assert forall x :: multiset(xs)[x] <= 1;
      } else {
        var x :| multiset(xs[..n])[x] > 1;
        assert multiset(xs)[x] > 1;
      }
    }
  }

  lemma PermutationDistinct<T>(xs: seq<T>, ys: seq<T>)
    requires multiset(xs) == multiset(ys) && Distinct(xs)
    ensures Distinct(ys)
  {
    DistinctCounts(xs);
    DistinctCounts(ys);
  }
}
