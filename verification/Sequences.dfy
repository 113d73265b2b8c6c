/** Sequences as bags: repetition, permutation, flattening and sums. */
module Sequences {
  import opened Wrappers
  import opened Numbers

  // ----- mapping

  function Map<A, B>(f: A -> B, xs: seq<A>): (ys: seq<B>)
    ensures |ys| == |xs| && forall i :: 0 <= i < |xs| ==> ys[i] == f(xs[i])
  {
    seq(|xs|, i requires 0 <= i < |xs| => f(xs[i]))
  }

  lemma MapSnoc<A, B>(f: A -> B, xs: seq<A>, x: A)
    ensures Map(f, xs + [x]) == Map(f, xs) + [f(x)]
  {
  }

  lemma MapConcat<A, B>(f: A -> B, xs: seq<A>, ys: seq<A>)
    ensures Map(f, xs + ys) == Map(f, xs) + Map(f, ys)
  {
  }

  /** Each tail behind the same prefix. */
  function Prefixed<T>(prefix: seq<T>, tails: seq<seq<T>>): (r: seq<seq<T>>)
    ensures |r| == |tails| && forall i :: 0 <= i < |r| ==> r[i] == prefix + tails[i]
  {
    seq(|tails|, i requires 0 <= i < |tails| => prefix + tails[i])
  }

  /** The results for all elements, one behind the other. */
  function FlatMap<A, B>(f: A -> seq<B>, xs: seq<A>): seq<B> {
    if xs == [] then [] else FlatMap(f, xs[..|xs| - 1]) + f(xs[|xs| - 1])
  }

  function Filter<A(!new)>(p: A -> bool, xs: seq<A>): (ys: seq<A>)
    ensures forall x :: x in ys <==> x in xs && p(x)
  {
    if xs == [] then []
    else Filter(p, xs[..|xs| - 1]) + (if p(xs[|xs| - 1]) then [xs[|xs| - 1]] else [])
  }

  lemma FilterNone<A(!new)>(p: A -> bool)
    ensures Filter(p, []) == []
  {
  }

  lemma FilterSnoc<A(!new)>(p: A -> bool, xs: seq<A>, x: A)
    ensures Filter(p, xs + [x]) == Filter(p, xs) + if p(x) then [x] else []
  {
    assert (xs + [x])[..|xs + [x]| - 1] == xs;
  }

  lemma {:induction false} FilterAll<A(!new)>(p: A -> bool, xs: seq<A>)
    requires forall x :: x in xs ==> p(x)
    ensures Filter(p, xs) == xs
  {
    hide Filter;
    if xs == [] {
      FilterNone(p);
    } else {
      var n := |xs| - 1;
      assert xs[n] in xs;
      assert forall x :: x in xs[..n] ==> x in xs;
      FilterAll(p, xs[..n]);
      FilterSnoc(p, xs[..n], xs[n]);
      assert xs == xs[..n] + [xs[n]];
    }
  }

  lemma {:induction false} FilterSame<A(!new)>(p: A -> bool, q: A -> bool, xs: seq<A>)
    requires forall x :: x in xs ==> p(x) == q(x)
    ensures Filter(p, xs) == Filter(q, xs)
  {
    if xs != [] {
      FilterSame(p, q, xs[..|xs| - 1]);
    }
  }

  lemma {:induction false} FlatMapIn<A, B>(f: A -> seq<B>, xs: seq<A>, y: B)
    ensures y in FlatMap(f, xs) <==> exists x :: x in xs && y in f(x)
  {
    if xs != [] {
      FlatMapIn(f, xs[..|xs| - 1], y);
      assert xs == xs[..|xs| - 1] + [xs[|xs| - 1]];
    }
  }

  lemma InConcat<T>(xs: seq<T>, ys: seq<T>, x: T)
    ensures x in xs + ys <==> x in xs || x in ys
  {
  }

  /** The set of the elements of a sequence. */
  function Elements<T>(xs: seq<T>): (s: set<T>) {
    set x | x in xs
  }

  lemma ElementsConcat<T>(xs: seq<T>, ys: seq<T>)
    ensures Elements(xs + ys) == Elements(xs) + Elements(ys)
  {
  }

  /** Permutations have the same elements. */
  lemma ElementsPermuted<T>(xs: seq<T>, ys: seq<T>)
    requires multiset(xs) == multiset(ys)
    ensures Elements(xs) == Elements(ys)
  {
    assert forall x :: x in xs <==> x in multiset(xs);
    assert forall x :: x in ys <==> x in multiset(ys);
  }

  // ----- repetition

  ghost predicate NoDup<T>(xs: seq<T>) {
    forall i, j :: 0 <= i < j < |xs| ==> xs[i] != xs[j]
  }

  lemma {:induction false} NoDupCounts<T>(xs: seq<T>)
    ensures NoDup(xs) <==> forall x :: multiset(xs)[x] <= 1
  {
    if xs != [] {
      var n := |xs| - 1;
      var ys := xs[..n];
      assert xs == ys + [xs[n]];
      NoDupCounts(ys);
      assert forall x :: multiset(xs)[x] == multiset(ys)[x] + if x == xs[n] then 1 else 0;
      assert xs[n] in ys <==> multiset(ys)[xs[n]] >= 1;
      if NoDup(xs) {
        assert xs[n] !in ys;
      }
      if forall x :: multiset(xs)[x] <= 1 {
        assert forall x :: multiset(ys)[x] <= multiset(xs)[x];
        assert multiset(xs)[xs[n]] <= 1;
      }
    }
  }

  /** Whether elements repeat does not depend on their order. */
  lemma NoDupPermuted<T>(xs: seq<T>, ys: seq<T>)
    requires multiset(xs) == multiset(ys)
    ensures NoDup(xs) <==> NoDup(ys)
  {
    NoDupCounts(xs);
    NoDupCounts(ys);
  }

  lemma NoDupConcat<T>(xs: seq<T>, ys: seq<T>)
    ensures NoDup(xs + ys) <==> NoDup(xs) && NoDup(ys) && (forall x :: x in xs ==> x !in ys)
    ensures NoDup(xs + ys) <==> NoDup(xs) && NoDup(ys) && Elements(xs) !! Elements(ys)
  {
    NoDupCounts(xs);
    NoDupCounts(ys);
    NoDupCounts(xs + ys);
    assert forall x :: multiset(xs + ys)[x] == multiset(xs)[x] + multiset(ys)[x];
    assert forall x :: x in xs <==> multiset(xs)[x] >= 1;
    assert forall x :: x in ys <==> multiset(ys)[x] >= 1;
    assert forall x :: x in Elements(xs) <==> x in xs;
    assert forall x :: x in Elements(ys) <==> x in ys;
  }

  lemma NoDupSnoc<T>(xs: seq<T>, x: T)
    ensures NoDup(xs + [x]) <==> NoDup(xs) && x !in xs
  {
    NoDupConcat(xs, [x]);
  }

  /** Two lists without repetition and with the same members are permutations of each other. */
  lemma {:induction false} SameMembers<T>(xs: seq<T>, ys: seq<T>)
    requires NoDup(xs) && NoDup(ys) && (forall x :: x in xs <==> x in ys)
    ensures multiset(xs) == multiset(ys)
  {
    NoDupCounts(xs);
    NoDupCounts(ys);
    forall x ensures multiset(xs)[x] == multiset(ys)[x] {
      assert x in multiset(xs) <==> x in xs;
      assert x in multiset(ys) <==> x in ys;
    }
  }

  /** The list without its element number `k`. */
  function Without<T>(xs: seq<T>, k: nat): seq<T>
    requires k < |xs|
  {
    xs[..k] + xs[k + 1..]
  }

  lemma WithoutCounts<T>(xs: seq<T>, k: nat)
    requires k < |xs|
    ensures multiset(xs) == multiset(Without(xs, k)) + multiset{xs[k]}
  {
    assert xs == xs[..k] + [xs[k]] + xs[k + 1..];
  }

  /** Takes one occurrence of the last element of `xs` out of a permutation of `xs`. */
  lemma PickLast<T>(xs: seq<T>, ys: seq<T>) returns (k: nat)
    requires xs != [] && multiset(xs) == multiset(ys)
    ensures k < |ys| && ys[k] == xs[|xs| - 1]
    ensures multiset(xs[..|xs| - 1]) == multiset(Without(ys, k))
  {
    hide Without;
    var last := xs[|xs| - 1];
    assert last in multiset(ys);
    k :| 0 <= k < |ys| && ys[k] == last;
    WithoutCounts(ys, k);
    WithoutCounts(xs, |xs| - 1);
    assert Without(xs, |xs| - 1) == xs[..|xs| - 1] by {
      WithoutLast(xs);
    }
    CancelOne(multiset(xs[..|xs| - 1]), multiset(Without(ys, k)), last);
  }

  lemma WithoutLast<T>(xs: seq<T>)
    requires xs != []
    ensures Without(xs, |xs| - 1) == xs[..|xs| - 1]
  {
  }

  lemma CancelOne<T>(a: multiset<T>, b: multiset<T>, x: T)
    requires a + multiset{x} == b + multiset{x}
    ensures a == b
  {
    assert a == a + multiset{x} - multiset{x};
    assert b == b + multiset{x} - multiset{x};
  }

  lemma {:induction false} FlatMapConcat<A, B>(f: A -> seq<B>, xs: seq<A>, ys: seq<A>)
    ensures FlatMap(f, xs + ys) == FlatMap(f, xs) + FlatMap(f, ys)
  {
    if ys == [] {
      assert xs + ys == xs;
    } else {
      var n := |ys| - 1;
      FlatMapConcat(f, xs, ys[..n]);
      assert (xs + ys)[..|xs + ys| - 1] == xs + ys[..n];
    }
  }

  lemma FlatMapOne<A, B>(f: A -> seq<B>, x: A)
    ensures FlatMap(f, [x]) == f(x)
  {
    assert FlatMap(f, []) == [];
  }

  lemma FlatMapWithout<A, B>(f: A -> seq<B>, xs: seq<A>, k: nat)
    requires k < |xs|
    ensures multiset(FlatMap(f, xs)) == multiset(FlatMap(f, Without(xs, k))) + multiset(f(xs[k]))
  {
    hide FlatMap;
    FlatMapConcat(f, xs[..k], xs[k + 1..]);
    FlatMapConcat(f, xs[..k], [xs[k]]);
    FlatMapConcat(f, xs[..k] + [xs[k]], xs[k + 1..]);
    assert xs == xs[..k] + [xs[k]] + xs[k + 1..];
    FlatMapOne(f, xs[k]);
  }

  /** Flattening a permutation permutes the flattened list. */
  lemma {:induction false} FlatMapPermuted<A, B>(f: A -> seq<B>, xs: seq<A>, ys: seq<A>)
    requires multiset(xs) == multiset(ys)
    ensures multiset(FlatMap(f, xs)) == multiset(FlatMap(f, ys))
    decreases |xs|
  {
    if xs == [] {
      assert |multiset(ys)| == 0;
    } else {
      var k := PickLast(xs, ys);
      FlatMapPermuted(f, xs[..|xs| - 1], Without(ys, k));
      FlatMapWithout(f, ys, k);
    }
  }

  lemma SameElements<T>(xs: seq<T>, ys: seq<T>)
    requires NoDup(xs) && NoDup(ys) && Elements(xs) == Elements(ys)
    ensures multiset(xs) == multiset(ys)
  {
    assert forall x :: x in Elements(xs) <==> x in xs;
    assert forall x :: x in Elements(ys) <==> x in ys;
    SameMembers(xs, ys);
  }

  lemma PermutedMembers<T>(xs: seq<T>, ys: seq<T>)
    requires multiset(xs) == multiset(ys)
    ensures forall x :: x in xs <==> x in ys
  {
    assert forall x :: x in xs <==> x in multiset(xs);
    assert forall x :: x in ys <==> x in multiset(ys);
  }

  lemma {:induction false} MapPermuted<A, B>(g: A -> B, xs: seq<A>, ys: seq<A>)
    requires multiset(xs) == multiset(ys)
    ensures multiset(Map(g, xs)) == multiset(Map(g, ys))
    decreases |xs|
  {
    if xs == [] {
      assert |multiset(ys)| == 0;
    } else {
      var n := |xs| - 1;
      var k := PickLast(xs, ys);
      MapPermuted(g, xs[..n], Without(ys, k));
      assert Map(g, xs) == Map(g, xs[..n]) + [g(xs[n])];
      assert Map(g, Without(ys, k)) == Without(Map(g, ys), k);
      WithoutCounts(Map(g, ys), k);
    }
  }

  // ----- sums

  function Sum(xs: seq<int>): int {
    if xs == [] then 0 else Sum(xs[..|xs| - 1]) + xs[|xs| - 1]
  }

  lemma {:induction false} SumConcat(xs: seq<int>, ys: seq<int>)
    ensures Sum(xs + ys) == Sum(xs) + Sum(ys)
  {
    if ys == [] {
      assert xs + ys == xs;
    } else {
      SumConcat(xs, ys[..|ys| - 1]);
      assert (xs + ys)[..|xs + ys| - 1] == xs + ys[..|ys| - 1];
    }
  }

  function SumOf<T>(f: T -> int, xs: seq<T>): int {
    Sum(Map(f, xs))
  }

  lemma SumOfNothing<T>(f: T -> int)
    ensures SumOf(f, []) == 0
  {
  }

  lemma SumOfSnoc<T>(f: T -> int, xs: seq<T>, x: T)
    ensures SumOf(f, xs + [x]) == SumOf(f, xs) + f(x)
  {
    MapSnoc(f, xs, x);
    var ys := Map(f, xs) + [f(x)];
    assert ys[..|ys| - 1] == Map(f, xs);
  }

  lemma SumOfConcat<T>(f: T -> int, xs: seq<T>, ys: seq<T>)
    ensures SumOf(f, xs + ys) == SumOf(f, xs) + SumOf(f, ys)
  {
    MapConcat(f, xs, ys);
    SumConcat(Map(f, xs), Map(f, ys));
  }

  lemma SumOfWithout<T>(f: T -> int, xs: seq<T>, k: nat)
    requires k < |xs|
    ensures SumOf(f, xs) == SumOf(f, Without(xs, k)) + f(xs[k])
  {
    SumOfConcat(f, xs[..k], xs[k + 1..]);
    SumOfSnoc(f, xs[..k], xs[k]);
    SumOfConcat(f, xs[..k] + [xs[k]], xs[k + 1..]);
    assert xs == xs[..k] + [xs[k]] + xs[k + 1..];
  }

  /** A sum does not depend on the order of its terms. */
  lemma {:induction false} SumOfPermuted<T>(f: T -> int, xs: seq<T>, ys: seq<T>)
    requires multiset(xs) == multiset(ys)
    ensures SumOf(f, xs) == SumOf(f, ys)
    decreases |xs|
  {
    if xs == [] {
      assert |multiset(ys)| == 0;
    } else {
      var n := |xs| - 1;
      var k := PickLast(xs, ys);
      SumOfPermuted(f, xs[..n], Without(ys, k));
      SumOfWithout(f, ys, k);
      SumOfWithout(f, xs, n);
      assert Without(xs, n) == xs[..n];
    }
  }

  /** Functions that agree on the terms have the same sum. */
  lemma {:induction false} SumOfSame<T>(f: T -> int, g: T -> int, xs: seq<T>)
    requires forall x :: x in xs ==> f(x) == g(x)
    ensures SumOf(f, xs) == SumOf(g, xs)
  {
    assert Map(f, xs) == Map(g, xs);
  }

  // ----- checked sums

  /** The left-to-right sum; absent when a partial sum leaves `i64`. */
  function CheckedSum(xs: seq<int>): (r: Option<int>)
    ensures r.Some? ==> r.value == Sum(xs) && IsI64(r.value)
  {
    if xs == [] then Some(0) else
    var partial :- CheckedSum(xs[..|xs| - 1]);
    if IsI64(partial + xs[|xs| - 1]) then Some(partial + xs[|xs| - 1]) else None
  }

  /** A checked sum exists just when every partial sum fits. */
  lemma {:induction false} CheckedSumExact(xs: seq<int>)
    ensures CheckedSum(xs).Some? <==> forall k :: 0 <= k <= |xs| ==> IsI64(Sum(xs[..k]))
  {
    assert xs[..|xs|] == xs;
    if xs != [] {
      var ys := xs[..|xs| - 1];
      CheckedSumExact(ys);
      assert forall k :: 0 <= k <= |ys| ==> ys[..k] == xs[..k];
    }
  }
}
