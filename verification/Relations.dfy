/** The relational operators of the ledger's queries, and sums by group. */
module Relations {
  import opened Wrappers
  import opened Sequences
  import opened Sorting

  // ----- joins

  function Paired<A, B>(x: A): B -> (A, B) {
    (y: B) => (x, y)
  }

  function PairedSome<A, B>(x: A): B -> (A, Option<B>) {
    (y: B) => (x, Some(y))
  }

  function Matching<A, B>(on: (A, B) -> bool, x: A): B -> bool {
    (y: B) => on(x, y)
  }

  function Partners<A, B(!new)>(on: (A, B) -> bool, x: A, ys: seq<B>): seq<B> {
    Filter(Matching(on, x), ys)
  }

  function InnerRows<A, B(!new)>(on: (A, B) -> bool, ys: seq<B>): A -> seq<(A, B)> {
    (x: A) => Map(Paired(x), Partners(on, x, ys))
  }

  function InnerJoin<A, B(!new)>(on: (A, B) -> bool, xs: seq<A>, ys: seq<B>): seq<(A, B)> {
    FlatMap(InnerRows(on, ys), xs)
  }

  /** The partners of a row, or a null partner when there is none. */
  function LeftRows<A, B(!new)>(on: (A, B) -> bool, ys: seq<B>): A -> seq<(A, Option<B>)> {
    (x: A) => if Partners(on, x, ys) == [] then [(x, None)] else Map(PairedSome(x), Partners(on, x, ys))
  }

  function LeftJoin<A, B(!new)>(on: (A, B) -> bool, xs: seq<A>, ys: seq<B>): seq<(A, Option<B>)> {
    FlatMap(LeftRows(on, ys), xs)
  }

  // ----- groups

  /** Each key once, in the order of first appearance. */
  function Distinct<K(==)>(ks: seq<K>): seq<K> {
    if ks == [] then [] else
    var before := Distinct(ks[..|ks| - 1]);
    if ks[|ks| - 1] in before then before else before + [ks[|ks| - 1]]
  }

  lemma {:induction false} DistinctExact<K>(ks: seq<K>)
    ensures NoDup(Distinct(ks)) && Elements(Distinct(ks)) == Elements(ks)
  {
    if ks != [] {
      var n := |ks| - 1;
      DistinctExact(ks[..n]);
      assert ks == ks[..n] + [ks[n]];
      ElementsConcat(ks[..n], [ks[n]]);
      ElementsConcat(Distinct(ks[..n]), [ks[n]]);
      NoDupSnoc(Distinct(ks[..n]), ks[n]);
      assert ks[n] in Distinct(ks[..n]) <==> ks[n] in Elements(Distinct(ks[..n]));
    }
  }

  function OnlyKey<R, K(==)>(key: R -> K, f: R -> int, k: K): R -> int {
    (r: R) => if key(r) == k then f(r) else 0
  }

  /** `SUM(f)` over the rows whose key is `k`. */
  function GroupSum<R, K(==)>(key: R -> K, f: R -> int, k: K, rows: seq<R>): int {
    SumOf(OnlyKey(key, f, k), rows)
  }

  function GroupSums<R, K(==)>(key: R -> K, f: R -> int, rows: seq<R>): K -> int {
    (k: K) => GroupSum(key, f, k, rows)
  }

  // ----- sums over sums

  lemma {:induction false} SumOfPlus<T>(f: T -> int, g: T -> int, h: T -> int, xs: seq<T>)
    requires forall x :: x in xs ==> h(x) == f(x) + g(x)
    ensures SumOf(h, xs) == SumOf(f, xs) + SumOf(g, xs)
  {
    if xs != [] {
      var n := |xs| - 1;
      SumOfPlus(f, g, h, xs[..n]);
      assert xs == xs[..n] + [xs[n]];
      SumOfSnoc(f, xs[..n], xs[n]);
      SumOfSnoc(g, xs[..n], xs[n]);
      SumOfSnoc(h, xs[..n], xs[n]);
    }
  }

  lemma {:induction false} SumOfZero<T>(f: T -> int, xs: seq<T>)
    requires forall x :: x in xs ==> f(x) == 0
    ensures SumOf(f, xs) == 0
  {
    if xs != [] {
      var n := |xs| - 1;
      SumOfZero(f, xs[..n]);
      assert xs == xs[..n] + [xs[n]];
      SumOfSnoc(f, xs[..n], xs[n]);
    }
  }

  /** A function that is zero everywhere but at one element sums to its value there. */
  lemma SumOfSpike<T>(f: T -> int, xs: seq<T>, x: T)
    requires NoDup(xs) && x in xs && forall y :: y in xs && y != x ==> f(y) == 0
    ensures SumOf(f, xs) == f(x)
  {
    var k :| 0 <= k < |xs| && xs[k] == x;
    SumOfWithout(f, xs, k);
    assert forall y :: y in Without(xs, k) ==> y in xs && y != x;
    SumOfZero(f, Without(xs, k));
  }

  function Spike<R, K(==)>(key: R -> K, f: R -> int, r: R): K -> int {
    (k: K) => if key(r) == k then f(r) else 0
  }

  lemma NoRows<R, K>(key: R -> K, f: R -> int, k: K)
    ensures GroupSum(key, f, k, []) == 0
  {
  }

  lemma GroupSumSnoc<R, K>(key: R -> K, f: R -> int, k: K, rows: seq<R>, r: R)
    ensures GroupSum(key, f, k, rows + [r]) == GroupSum(key, f, k, rows) + OnlyKey(key, f, k)(r)
  {
    SumOfSnoc(OnlyKey(key, f, k), rows, r);
  }

  /** Summing the sums of all groups sums all rows. */
  lemma {:induction false} SumOfGroups<R(!new), K(!new)>(key: R -> K, f: R -> int, rows: seq<R>, ks: seq<K>)
    requires NoDup(ks) && forall r :: r in rows ==> key(r) in ks
    ensures SumOf(GroupSums(key, f, rows), ks) == SumOf(f, rows)
  {
    hide GroupSum;
    if rows == [] {
      forall k | k in ks ensures GroupSums(key, f, rows)(k) == 0 {
        NoRows(key, f, k);
      }
      SumOfZero(GroupSums(key, f, rows), ks);
    } else {
      var n := |rows| - 1;
      var init, r := rows[..n], rows[n];
      assert rows == init + [r];
      SumOfGroups(key, f, init, ks);
      var spike := Spike(key, f, r);
      forall k | k in ks ensures GroupSums(key, f, rows)(k) == GroupSums(key, f, init)(k) + spike(k) {
        GroupSumSnoc(key, f, k, init, r);
      }
      SumOfPlus(GroupSums(key, f, init), spike, GroupSums(key, f, rows), ks);
      assert r in rows;
      assert forall k :: k in ks && k != key(r) ==> spike(k) == 0;
      SumOfSpike(spike, ks, key(r));
      SumOfSnoc(f, init, r);
    }
  }

  function SumsOf<A, B>(f: B -> int, g: A -> seq<B>): A -> int {
    (x: A) => SumOf(f, g(x))
  }

  lemma {:induction false} SumOfFlatMap<A, B>(f: B -> int, g: A -> seq<B>, xs: seq<A>)
    ensures SumOf(f, FlatMap(g, xs)) == SumOf(SumsOf(f, g), xs)
  {
    if xs != [] {
      var n := |xs| - 1;
      SumOfFlatMap(f, g, xs[..n]);
      SumOfConcat(f, FlatMap(g, xs[..n]), g(xs[n]));
      assert xs == xs[..n] + [xs[n]];
      SumOfSnoc(SumsOf(f, g), xs[..n], xs[n]);
    }
  }

  lemma {:induction false} SumOfMap<A, B>(f: B -> int, g: A -> B, h: A -> int, xs: seq<A>)
    requires forall x :: x in xs ==> h(x) == f(g(x))
    ensures SumOf(f, Map(g, xs)) == SumOf(h, xs)
  {
    assert Map(f, Map(g, xs)) == Map(h, xs);
  }

  lemma {:induction false} SumOfFilter<T(!new)>(f: T -> int, p: T -> bool, h: T -> int, xs: seq<T>)
    requires forall x :: x in xs ==> h(x) == if p(x) then f(x) else 0
    ensures SumOf(f, Filter(p, xs)) == SumOf(h, xs)
  {
    if xs != [] {
      var n := |xs| - 1;
      SumOfFilter(f, p, h, xs[..n]);
      assert xs == xs[..n] + [xs[n]];
      SumOfSnoc(h, xs[..n], xs[n]);
      if p(xs[n]) {
        SumOfSnoc(f, Filter(p, xs[..n]), xs[n]);
      } else {
        assert Filter(p, xs) == Filter(p, xs[..n]);
      }
    }
  }

  lemma {:induction false} FilterKeepsDistinct<T(!new)>(key: T -> int, p: T -> bool, xs: seq<T>)
    requires NoDup(Map(key, xs))
    ensures NoDup(Map(key, Filter(p, xs)))
  {
    if xs != [] {
      var n := |xs| - 1;
      assert xs == xs[..n] + [xs[n]];
      MapSnoc(key, xs[..n], xs[n]);
      NoDupSnoc(Map(key, xs[..n]), key(xs[n]));
      FilterKeepsDistinct(key, p, xs[..n]);
      var kept := Filter(p, xs[..n]);
      if p(xs[n]) {
        MapSnoc(key, kept, xs[n]);
        NoDupSnoc(Map(key, kept), key(xs[n]));
        forall i | 0 <= i < |kept| ensures Map(key, kept)[i] in Map(key, xs[..n]) {
          assert kept[i] in xs[..n];
          var j :| 0 <= j < n && xs[j] == kept[i];
          assert Map(key, xs[..n])[j] == key(xs[j]);
        }
      } else {
        assert Filter(p, xs) == kept;
      }
    }
  }

  // ----- order

  /** Rows compared by an integer key. */
  function ByKey<R>(key: R -> int): Less<R> {
    (a: R, b: R) => key(a) < key(b)
  }

  lemma {:induction false} InsertMapped<R>(key: R -> int, x: R, xs: seq<R>)
    ensures Map(key, Insert(ByKey(key), x, xs)) == Insert(IntLess, key(x), Map(key, xs))
  {
    var ys := Map(key, xs);
    if xs == [] {
    } else if key(x) < key(xs[0]) {
      MapConcat(key, [x], xs);
      assert Insert(IntLess, key(x), ys) == [key(x)] + ys;
    } else {
      InsertMapped(key, x, xs[1..]);
      assert ys[1..] == Map(key, xs[1..]);
      MapConcat(key, [xs[0]], Insert(ByKey(key), x, xs[1..]));
      assert Insert(IntLess, key(x), ys) == [ys[0]] + Insert(IntLess, key(x), ys[1..]);
    }
  }

  /** Ordering rows by a key orders the keys. */
  lemma {:induction false} SortMapped<R>(key: R -> int, xs: seq<R>)
    ensures Map(key, Sort(ByKey(key), xs)) == Sort(IntLess, Map(key, xs))
  {
    if xs != [] {
      var n := |xs| - 1;
      SortMapped(key, xs[..n]);
      assert Map(key, xs)[..n] == Map(key, xs[..n]);
      InsertMapped(key, xs[n], Sort(ByKey(key), xs[..n]));
    }
  }

  /** Rows with distinct keys come out in strictly ascending key order. */
  lemma SortByKey<R>(key: R -> int, xs: seq<R>)
    requires NoDup(Map(key, xs))
    ensures Ascending(IntLess, Map(key, Sort(ByKey(key), xs)))
  {
    SortMapped(key, xs);
    SortAscending(IntLess, Map(key, xs));
  }
}
