/** Strict total orders and sorting by them. */
module Sorting {
  import opened Sequences

  type Less<!T> = (T, T) -> bool

  ghost predicate StrictTotal<T(!new)>(lt: Less<T>) {
    && (forall x :: !lt(x, x))
    && (forall x, y, z :: lt(x, y) && lt(y, z) ==> lt(x, z))
    && (forall x, y :: x == y || lt(x, y) || lt(y, x))
  }

  /** A strict order that may leave elements side by side. */
  ghost predicate StrictWeak<T(!new)>(lt: Less<T>) {
    && (forall x, y :: lt(x, y) ==> !lt(y, x))
    && (forall x, y, z :: !lt(x, y) && !lt(y, z) ==> !lt(x, z))
  }

  lemma TotalIsWeak<T(!new)>(lt: Less<T>)
    requires StrictTotal(lt)
    ensures StrictWeak(lt)
  {
    forall x, y, z | !lt(x, y) && !lt(y, z) ensures !lt(x, z) {
      assert x == y || lt(y, x);
      assert y == z || lt(z, y);
    }
  }

  ghost predicate Ascending<T>(lt: Less<T>, xs: seq<T>) {
    forall i, j :: 0 <= i < j < |xs| ==> lt(xs[i], xs[j])
  }

  /** Ascending, but equal elements may stand side by side. */
  ghost predicate Sorted<T(!new)>(lt: Less<T>, xs: seq<T>) {
    forall i, j :: 0 <= i < j < |xs| ==> !lt(xs[j], xs[i])
  }

  // ----- sorting

  function Insert<T>(lt: Less<T>, x: T, xs: seq<T>): (ys: seq<T>)
    ensures multiset(ys) == multiset(xs) + multiset{x}
  {
    if xs == [] then [x]
    else if lt(x, xs[0]) then [x] + xs
    else
      assert xs == [xs[0]] + xs[1..];
      [xs[0]] + Insert(lt, x, xs[1..])
  }

  function Sort<T>(lt: Less<T>, xs: seq<T>): (ys: seq<T>)
    ensures multiset(ys) == multiset(xs)
  {
    if xs == [] then [] else
    assert xs == xs[..|xs| - 1] + [xs[|xs| - 1]];
    Insert(lt, xs[|xs| - 1], Sort(lt, xs[..|xs| - 1]))
  }

  lemma {:induction false} InsertSorted<T(!new)>(lt: Less<T>, x: T, xs: seq<T>)
    requires StrictWeak(lt) && Sorted(lt, xs)
    ensures Sorted(lt, Insert(lt, x, xs))
  {
    if xs != [] && !lt(x, xs[0]) {
      var rest := Insert(lt, x, xs[1..]);
      InsertSorted(lt, x, xs[1..]);
      forall j | 0 <= j < |rest| ensures !lt(rest[j], xs[0]) {
        assert rest[j] in multiset(rest);
        assert rest[j] == x || rest[j] in xs[1..];
      }
    }
  }

  lemma {:induction false} SortSorted<T(!new)>(lt: Less<T>, xs: seq<T>)
    requires StrictWeak(lt)
    ensures Sorted(lt, Sort(lt, xs))
  {
    if xs != [] {
      SortSorted(lt, xs[..|xs| - 1]);
      InsertSorted(lt, xs[|xs| - 1], Sort(lt, xs[..|xs| - 1]));
    }
  }

  /** Without repetition, the sorted list is strictly ascending. */
  lemma SortAscending<T(!new)>(lt: Less<T>, xs: seq<T>)
    requires StrictTotal(lt) && NoDup(xs)
    ensures Ascending(lt, Sort(lt, xs)) && NoDup(Sort(lt, xs))
    ensures forall x :: x in Sort(lt, xs) <==> x in xs
  {
    TotalIsWeak(lt);
    SortSorted(lt, xs);
    NoDupPermuted(xs, Sort(lt, xs));
    forall x ensures x in Sort(lt, xs) <==> x in xs {
      assert x in multiset(xs) <==> x in xs;
      assert x in multiset(Sort(lt, xs)) <==> x in Sort(lt, xs);
    }
  }

  /** There is only one ascending list with given members. */
  lemma {:induction false} AscendingUnique<T(!new)>(lt: Less<T>, xs: seq<T>, ys: seq<T>)
    requires StrictTotal(lt) && Ascending(lt, xs) && Ascending(lt, ys)
    requires forall x :: x in xs <==> x in ys
    ensures xs == ys
  {
    if xs != [] {
      assert xs[0] in ys;
    }
    if ys != [] {
      assert ys[0] in xs;
    }
    if xs != [] {
      assert xs[0] == ys[0];
      forall x ensures x in xs[1..] <==> x in ys[1..] {
        assert x in xs <==> x == xs[0] || x in xs[1..];
        assert x in ys <==> x == ys[0] || x in ys[1..];
      }
      AscendingUnique(lt, xs[1..], ys[1..]);
      assert xs == [xs[0]] + xs[1..] && ys == [ys[0]] + ys[1..];
    }
  }

  // ----- the keys of an ordered map

  /** Inserts a key into an ascending list, unless it is there. */
  function InsertKey<T(==)>(lt: Less<T>, x: T, xs: seq<T>): (ys: seq<T>)
    ensures forall i :: 0 <= i < |ys| ==> ys[i] == x || ys[i] in xs
    ensures x in ys && forall i :: 0 <= i < |xs| ==> xs[i] in ys
  {
    if xs == [] then [x]
    else if x == xs[0] then xs
    else if lt(x, xs[0]) then
      var ys := [x] + xs;
      assert forall i :: 0 <= i < |xs| ==> ys[i + 1] == xs[i];
      ys
    else
      var rest := InsertKey(lt, x, xs[1..]);
      assert forall i :: 0 < i < |xs| ==> xs[i] == xs[1..][i - 1];
      var ys := [xs[0]] + rest;
      assert forall i :: 0 <= i < |rest| ==> ys[i + 1] == rest[i];
      ys
  }

  /** The distinct elements in ascending order, as an ordered map or set iterates them. */
  function Keys<T(==)>(lt: Less<T>, xs: seq<T>): (ys: seq<T>)
    ensures Elements(ys) == Elements(xs)
  {
    if xs == [] then [] else
    var before := Keys(lt, xs[..|xs| - 1]);
    assert xs == xs[..|xs| - 1] + [xs[|xs| - 1]];
    ElementsConcat(xs[..|xs| - 1], [xs[|xs| - 1]]);
    var ys := InsertKey(lt, xs[|xs| - 1], before);
    InsertKeyElements(lt, xs[|xs| - 1], before);
    ys
  }

  lemma InsertKeyElements<T>(lt: Less<T>, x: T, xs: seq<T>)
    ensures Elements(InsertKey(lt, x, xs)) == Elements(xs) + Elements([x])
  {
    var ys := InsertKey(lt, x, xs);
    assert forall y :: y in Elements(ys) <==> y in ys;
    assert forall y :: y in ys ==> y == x || y in xs;
    assert forall y :: y in xs ==> y in ys;
  }

  lemma {:induction false} InsertKeyAscending<T(!new)>(lt: Less<T>, x: T, xs: seq<T>)
    requires StrictTotal(lt) && Ascending(lt, xs)
    ensures Ascending(lt, InsertKey(lt, x, xs))
  {
    if xs != [] && x != xs[0] && !lt(x, xs[0]) {
      InsertKeyAscending(lt, x, xs[1..]);
      var rest := InsertKey(lt, x, xs[1..]);
      forall i | 0 <= i < |rest| ensures lt(xs[0], rest[i]) {
        assert rest[i] == x || rest[i] in xs[1..];
      }
    }
  }

  lemma {:induction false} KeysAscending<T(!new)>(lt: Less<T>, xs: seq<T>)
    requires StrictTotal(lt)
    ensures Ascending(lt, Keys(lt, xs)) && NoDup(Keys(lt, xs))
  {
    if xs != [] {
      KeysAscending(lt, xs[..|xs| - 1]);
      InsertKeyAscending(lt, xs[|xs| - 1], Keys(lt, xs[..|xs| - 1]));
    }
  }

  // ----- lexicographic order

  /** Dictionary order of sequences. */
  predicate Lex<T(==)>(lt: Less<T>, a: seq<T>, b: seq<T>) {
    if b == [] then false
    else if a == [] then true
    else lt(a[0], b[0]) || (a[0] == b[0] && Lex(lt, a[1..], b[1..]))
  }

  lemma {:induction false} LexTransitive<T(!new)>(lt: Less<T>, a: seq<T>, b: seq<T>, c: seq<T>)
    requires StrictTotal(lt) && Lex(lt, a, b) && Lex(lt, b, c)
    ensures Lex(lt, a, c)
  {
    if a != [] && a[0] == b[0] == c[0] {
      LexTransitive(lt, a[1..], b[1..], c[1..]);
    }
  }

  lemma {:induction false} LexConnected<T(!new)>(lt: Less<T>, a: seq<T>, b: seq<T>)
    requires StrictTotal(lt)
    ensures a == b || Lex(lt, a, b) || Lex(lt, b, a)
  {
    if a != [] && b != [] && a[0] == b[0] {
      LexConnected(lt, a[1..], b[1..]);
      assert a == [a[0]] + a[1..] && b == [b[0]] + b[1..];
    }
  }

  lemma {:induction false} LexIrreflexive<T(!new)>(lt: Less<T>, a: seq<T>)
    requires StrictTotal(lt)
    ensures !Lex(lt, a, a)
  {
    if a != [] {
      LexIrreflexive(lt, a[1..]);
    }
  }

  /** The dictionary order over a strict total order is one. */
  lemma LexStrictTotal<T(!new)>(lt: Less<T>)
    requires StrictTotal(lt)
    ensures StrictTotal((a: seq<T>, b: seq<T>) => Lex(lt, a, b))
  {
    forall a: seq<T> ensures !Lex(lt, a, a) {
      LexIrreflexive(lt, a);
    }
    forall a: seq<T>, b, c | Lex(lt, a, b) && Lex(lt, b, c) ensures Lex(lt, a, c) {
      LexTransitive(lt, a, b, c);
    }
    forall a: seq<T>, b ensures a == b || Lex(lt, a, b) || Lex(lt, b, a) {
      LexConnected(lt, a, b);
    }
  }

  // ----- the orders in use

  const IntLess: Less<int> := (a: int, b: int) => a < b
  const CharLess: Less<char> := (a: char, b: char) => a < b
  const StringLess: Less<string> := (a: string, b: string) => Lex(CharLess, a, b)

  lemma StringsOrdered()
    ensures StrictTotal(StringLess)
  {
    LexStrictTotal(CharLess);
  }

  // ----- the orders written out

  /** The first place where two sequences differ, or the end of the shorter one. */
  ghost predicate PartAt<T>(a: seq<T>, b: seq<T>, k: nat) {
    k <= |a| && k < |b| && a[..k] == b[..k]
  }

  lemma PartBehind<T>(a: seq<T>, b: seq<T>, k: nat)
    requires a != [] && b != []
    ensures PartAt(a, b, k + 1) <==> a[0] == b[0] && PartAt(a[1..], b[1..], k)
  {
    if k + 1 <= |a| && k + 1 < |b| {
      assert a[..k + 1] == [a[0]] + a[1..][..k] && b[..k + 1] == [b[0]] + b[1..][..k];
      assert a[..k + 1][0] == a[0] && b[..k + 1][0] == b[0];
      assert a[1..][..k] == a[..k + 1][1..] && b[1..][..k] == b[..k + 1][1..];
    }
  }

  lemma PartAtStart<T>(a: seq<T>, b: seq<T>)
    requires b != []
    ensures PartAt(a, b, 0)
  {
  }

  lemma {:induction false} LexExact<T>(lt: Less<T>, a: seq<T>, b: seq<T>)
    ensures Lex(lt, a, b) <==> exists k: nat :: PartAt(a, b, k) && (k == |a| || lt(a[k], b[k]))
  {
    if a != [] && b != [] {
      LexExact(lt, a[1..], b[1..]);
      PartAtStart(a, b);
      if Lex(lt, a, b) && !lt(a[0], b[0]) {
        var k: nat :| PartAt(a[1..], b[1..], k) && (k == |a[1..]| || lt(a[1..][k], b[1..][k]));
        PartBehind(a, b, k);
      }
      if k: nat :| PartAt(a, b, k) && (k == |a| || lt(a[k], b[k])) {
        if k > 0 {
          PartBehind(a, b, k - 1);
        }
      }
    } else if b != [] {
      PartAtStart(a, b);
    }
  }

  /** Code point by code point, a prefix before what it begins. */
  ghost predicate TextBefore(s: string, t: string) {
    exists k: nat :: PartAt(s, t, k) && (k == |s| || s[k] < t[k])
  }

  lemma StringLessExact(s: string, t: string)
    ensures StringLess(s, t) <==> TextBefore(s, t)
  {
    LexExact(CharLess, s, t);
  }

  lemma TextsAscend(xs: seq<string>)
    ensures Ascending(StringLess, xs) <==> forall i, j :: 0 <= i < j < |xs| ==> TextBefore(xs[i], xs[j])
  {
    hide TextBefore;
    forall i, j | 0 <= i < j < |xs| ensures StringLess(xs[i], xs[j]) <==> TextBefore(xs[i], xs[j]) {
      StringLessExact(xs[i], xs[j]);
    }
  }

  lemma IntsAscend(xs: seq<int>)
    ensures Ascending(IntLess, xs) <==> forall i, j :: 0 <= i < j < |xs| ==> xs[i] < xs[j]
  {
  }
}
