/** All index combinations of a given size, in lexicographic order. */
module Subsets {
  import opened Sequences
  import opened Sorting

  type Indices = seq<nat>

  predicate Increasing(c: Indices) {
    forall i, j :: 0 <= i < j < |c| ==> c[i] < c[j]
  }

  /** Combinations of `left` indices from `start` to below `len`. */
  function From(start: nat, len: nat, left: nat): seq<Indices>
    decreases len + 1 - start, left
  {
    if left == 0 then [[]]
    else if start + left > len then []
    else Prefixed([start], From(start + 1, len, left - 1)) + From(start + 1, len, left)
  }

  function Combos(len: nat, size: nat): seq<Indices> {
    if size == 0 then [] else From(0, len, size)
  }

  /** The number of ways to choose `k` of `n` things. */
  function Choose(n: nat, k: nat): nat {
    if k == 0 then 1 else if n == 0 then 0 else Choose(n - 1, k - 1) + Choose(n - 1, k)
  }

  lemma {:induction false} ChooseTooMany(n: nat, k: nat)
    requires k > n
    ensures Choose(n, k) == 0
  {
    if n > 0 {
      ChooseTooMany(n - 1, k - 1);
      ChooseTooMany(n - 1, k);
    }
  }

  /** There are as many combinations as ways to choose. */
  lemma {:induction false} FromCount(start: nat, len: nat, left: nat)
    requires start <= len
    ensures |From(start, len, left)| == Choose(len - start, left)
    decreases len + 1 - start, left
  {
    if left > 0 {
      if start + left > len {
        ChooseTooMany(len - start, left);
      } else {
        FromCount(start + 1, len, left - 1);
        FromCount(start + 1, len, left);
      }
    }
  }

  predicate Choice(c: Indices, start: nat, len: nat, left: nat) {
    |c| == left && Increasing(c) && forall i :: 0 <= i < |c| ==> start <= c[i] < len
  }

  lemma ChoiceTail(c: Indices, start: nat, len: nat, left: nat)
    requires left > 0 && c != []
    ensures Choice(c, start, len, left) && c[0] == start <==>
      c[0] == start < len && Choice(c[1..], start + 1, len, left - 1)
    ensures Choice(c, start, len, left) && c[0] != start <==> Choice(c, start + 1, len, left)
  {
    if c[0] == start && Choice(c[1..], start + 1, len, left - 1) {
      forall i, j | 0 <= i < j < |c| ensures c[i] < c[j] {
        assert c[j] == c[1..][j - 1];
        assert i > 0 ==> c[i] == c[1..][i - 1];
      }
      assert forall i :: 0 < i < |c| ==> c[i] == c[1..][i - 1];
    }
  }

  lemma ChoiceFits(c: Indices, start: nat, len: nat, left: nat)
    requires Choice(c, start, len, left) && left > 0
    ensures start + left <= len
    decreases left
  {
    if left > 1 {
      assert Choice(c[1..], c[0] + 1, len, left - 1);
      ChoiceFits(c[1..], c[0] + 1, len, left - 1);
    }
  }

  lemma PrefixedIn(x: nat, tails: seq<Indices>, c: Indices)
    ensures c in Prefixed([x], tails) <==> c != [] && c[0] == x && c[1..] in tails
  {
    if c != [] && c[0] == x && c[1..] in tails {
      var i :| 0 <= i < |tails| && tails[i] == c[1..];
      assert Prefixed([x], tails)[i] == c;
    }
  }

  lemma NoChoice(start: nat, len: nat, left: nat)
    ensures !Choice([], start, len, left + 1)
    ensures forall c :: Choice(c, start, len, 0) <==> c == []
  {
  }

  lemma FromSplit(start: nat, len: nat, left: nat)
    requires left > 0
    ensures From(start, len, left) ==
      if start + left > len then [] else Prefixed([start], From(start + 1, len, left - 1)) + From(start + 1, len, left)
  {
  }

  lemma FromNothing(start: nat, len: nat)
    ensures From(start, len, 0) == [[]]
  {
  }

  /** Exactly the increasing index lists of the given size are enumerated. */
  lemma {:induction false} FromExact(start: nat, len: nat, left: nat, c: Indices)
    ensures c in From(start, len, left) <==> Choice(c, start, len, left)
    decreases len + 1 - start, left
  {
    hide Choice;
    hide From;
    hide Prefixed;
    if left == 0 {
      FromNothing(start, len);
      NoChoice(start, len, 0);
    } else {
      FromSplit(start, len, left);
      if Choice(c, start, len, left) {
        ChoiceFits(c, start, len, left);
      }
      if start + left <= len {
        FromExact(start + 1, len, left, c);
        PrefixedIn(start, From(start + 1, len, left - 1), c);
        if c == [] {
          NoChoice(start, len, left - 1);
          NoChoice(start + 1, len, left - 1);
        } else {
          ChoiceTail(c, start, len, left);
          FromExact(start + 1, len, left - 1, c[1..]);
        }
      }
    }
  }

  /** Combinations come in dictionary order, so none comes twice. */
  lemma {:induction false} FromAscending(start: nat, len: nat, left: nat)
    ensures Ascending(LexLess, From(start, len, left))
    decreases len + 1 - start, left
  {
    if left > 0 && start + left <= len {
      var tails, rest := From(start + 1, len, left - 1), From(start + 1, len, left);
      FromAscending(start + 1, len, left - 1);
      FromAscending(start + 1, len, left);
      var heads := Prefixed([start], tails);
      forall i, j | 0 <= i < j < |heads| ensures LexLess(heads[i], heads[j]) {
        assert heads[i][1..] == tails[i] && heads[j][1..] == tails[j];
      }
      forall i, j | 0 <= i < |heads| && 0 <= j < |rest| ensures LexLess(heads[i], rest[j]) {
        FromExact(start + 1, len, left, rest[j]);
      }
    }
  }

  const NatLess: Less<nat> := (a: nat, b: nat) => a < b
  const LexLess: Less<Indices> := (a: Indices, b: Indices) => Lex(NatLess, a, b)

  lemma CombosExact(len: nat, size: nat)
    ensures forall c :: c in Combos(len, size) <==> size > 0 && Choice(c, 0, len, size)
    ensures NoDup(Combos(len, size))
    ensures |Combos(len, size)| == if size == 0 then 0 else Choose(len, size)
  {
    forall c ensures c in Combos(len, size) <==> size > 0 && Choice(c, 0, len, size) {
      if size > 0 {
        FromExact(0, len, size, c);
      }
    }
    FromAscending(0, len, size);
    FromCount(0, len, size);
    LexStrictTotal(NatLess);
    assert StrictTotal(LexLess);
  }

  // ----- the recursive generator

  class Generator {
    var current: Indices
    var out: seq<Indices>

    constructor ()
      ensures current == [] && out == []
    {
      current, out := [], [];
    }

    /** Extends `current` by every combination in turn and emits the results. */
    method Visit(start: nat, len: nat, left: nat)
      requires start + left <= len
      modifies this
      ensures current == old(current)
      ensures out == old(out) + Prefixed(current, From(start, len, left))
      decreases left
    {
      hide From;
      hide Prefixed;
      if left == 0 {
        out := out + [current];
        FromNothing(start, len);
        assert current + [] == current;
        assert Prefixed(current, [[]]) == [current];
        return;
      }
      ghost var before := out;
      var index := start;
      while index <= len - left
        invariant start <= index <= len - left + 1
        invariant current == old(current)
        invariant out + Prefixed(current, From(index, len, left)) == before + Prefixed(current, From(start, len, left))
      {
        ghost var emitted := out;
        current := current + [index];
        Visit(index + 1, len, left - 1);
        current := current[..|current| - 1];
        EmittedStep(before + Prefixed(current, From(start, len, left)), emitted, current, index, len, left);
        index := index + 1;
      }
      FromSplit(index, len, left);
      assert out + [] == out;
    }
  }

  lemma PrefixedSplit(prefix: Indices, x: nat, tails: seq<Indices>, rest: seq<Indices>)
    ensures Prefixed(prefix, Prefixed([x], tails) + rest) == Prefixed(prefix + [x], tails) + Prefixed(prefix, rest)
  {
    forall i | 0 <= i < |tails| ensures prefix + ([x] + tails[i]) == prefix + [x] + tails[i] {
    }
  }

  /** One turn of the loop: the combinations that begin with `index` move from the rest to the output. */
  lemma EmittedStep(total: seq<Indices>, emitted: seq<Indices>, prefix: Indices, index: nat, len: nat, left: nat)
    requires left > 0 && index + left <= len
    requires emitted + Prefixed(prefix, From(index, len, left)) == total
    ensures emitted + Prefixed(prefix + [index], From(index + 1, len, left - 1)) +
      Prefixed(prefix, From(index + 1, len, left)) == total
  {
    hide Prefixed;
    hide From;
    FromSplit(index, len, left);
    PrefixedSplit(prefix, index, From(index + 1, len, left - 1), From(index + 1, len, left));
  }

  method Combinations(len: nat, size: nat) returns (out: seq<Indices>)
    ensures out == Combos(len, size)
  {
    if size == 0 || size > len {
      return [];
    }
    var generator := new Generator();
    generator.Visit(0, len, size);
    forall i | 0 <= i < |From(0, len, size)| ensures [] + From(0, len, size)[i] == From(0, len, size)[i] {
    }
    assert Prefixed([], From(0, len, size)) == From(0, len, size);
    out := generator.out;
  }
}
