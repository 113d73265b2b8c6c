/** Deterministic enumeration of candidates under explicit bounds. */
module CandidateSearch {
  import opened Wrappers
  import opened Numbers
  import opened Sorting
  import opened Subsets
  import opened StatementData
  import opened Evidence
  import opened Candidates

  datatype Problem = Problem(words: Words, rows: seq<StatementRow>, movements: seq<Movement>, bounds: Bounds)

  predicate Applies(q: Problem, p: Pair) {
    p.ri != [] && InRange(p.ri, |q.rows|) && InRange(p.mi, |q.movements|)
  }

  function JudgePair(q: Problem, p: Pair): Result<Option<Candidate>, Error>
    requires Applies(q, p)
  {
    Judge(q.words, Pick(q.rows, p.ri), Pick(q.movements, p.mi), q.bounds.maxDistance)
  }

  // ----- review order

  function KindRank(k: Kind): nat {
    match k
    case OneToOne => 0
    case OneToMany => 1
    case ManyToOne => 2
  }

  const IdsLess: Less<seq<string>> := (a: seq<string>, b: seq<string>) => Lex(StringLess, a, b)
  const VouchersLess: Less<seq<int>> := (a: seq<int>, b: seq<int>) => Lex(IntLess, a, b)

  /** Rank first, then kind, then the identities. */
  predicate ReviewedBefore(a: Candidate, b: Candidate) {
    || a.rank < b.rank
    || (a.rank == b.rank
        && (|| KindRank(a.kind) < KindRank(b.kind)
            || (a.kind == b.kind
                && (|| IdsLess(a.rowIds, b.rowIds)
                    || (a.rowIds == b.rowIds && VouchersLess(a.voucherIds, b.voucherIds))))))
  }

  const ReviewOrder: Less<Candidate> := (a: Candidate, b: Candidate) => ReviewedBefore(a, b)

  lemma ReviewOrderTotal()
    ensures StrictTotal(ReviewOrder)
  {
    StringsOrdered();
    LexStrictTotal(StringLess);
    LexStrictTotal(IntLess);
    assert StrictTotal(IdsLess) && StrictTotal(VouchersLess);
    hide Lex;
    forall a, b, c | ReviewedBefore(a, b) && ReviewedBefore(b, c) ensures ReviewedBefore(a, c) {
    }
    forall a, b ensures a == b || ReviewedBefore(a, b) || ReviewedBefore(b, a) {
    }
    forall a ensures !ReviewedBefore(a, a) {
    }
  }

  // ----- the search

  /** The candidates among `pairs`, or the first refusal met. */
  function Scan(q: Problem, pairs: seq<Pair>): Result<seq<Candidate>, Error>
    requires forall p :: p in pairs ==> Applies(q, p)
  {
    if pairs == [] then Ok([]) else
    var found :- Scan(q, pairs[..|pairs| - 1]);
    if |pairs| > USIZE_MAX then Err(ArithmeticOverflow)
    else if |pairs| > q.bounds.maxWork then Err(WorkBoundExceeded)
    else
      var judged :- JudgePair(q, pairs[|pairs| - 1]);
      Ok(found + if judged.Some? then [judged.value] else [])
  }

  lemma PairsApply(q: Problem)
    ensures forall p :: p in Examined(q) ==> Applies(q, p)
  {
    forall p | p in Examined(q) ensures Applies(q, p) {
      PairsExact(|q.rows|, |q.movements|, q.bounds.maxCardinality, Min(q.bounds.maxCardinality, |q.rows|), p);
    }
  }

  /** All pairs, in the order they are examined. */
  function Examined(q: Problem): seq<Pair> {
    AllPairs(|q.rows|, |q.movements|, q.bounds.maxCardinality)
  }

  function Generate(inputs: Inputs, bounds: Bounds, words: Words): Result<seq<Candidate>, Error> {
    var _ :- ValidateInputs(inputs);
    if bounds.maxWork == 0 || bounds.maxResults == 0 || bounds.maxCardinality == 0 then Err(InvalidBounds) else
    var q := Problem(words, inputs.statement.rows, inputs.movements, bounds);
    PairsApply(q);
    var found :- Scan(q, Examined(q));
    Ok(Truncate(Sort(ReviewOrder, found), bounds.maxResults))
  }

  function Truncate<T>(xs: seq<T>, n: nat): seq<T> {
    xs[..Min(n, |xs|)]
  }

  lemma {:induction false} ScanPrefix(q: Problem, some: seq<Pair>, all: seq<Pair>)
    requires forall p :: p in all ==> Applies(q, p)
    requires some <= all
    requires forall p :: p in some ==> Applies(q, p)
    requires Scan(q, some).Err?
    ensures Scan(q, all) == Scan(q, some)
  {
    if some != all {
      ScanPrefix(q, some, all[..|all| - 1]);
    }
  }

  /** The running state of one search. */
  lemma ScanSnoc(q: Problem, pairs: seq<Pair>, p: Pair)
    requires (forall x :: x in pairs ==> Applies(q, x)) && Applies(q, p)
    ensures forall x :: x in pairs + [p] ==> Applies(q, x)
    ensures Scan(q, pairs + [p]) ==
      if Scan(q, pairs).Err? then Scan(q, pairs)
      else if |pairs| + 1 > USIZE_MAX then Err(ArithmeticOverflow)
      else if |pairs| + 1 > q.bounds.maxWork then Err(WorkBoundExceeded)
      else if JudgePair(q, p).Err? then Err(JudgePair(q, p).error)
      else Ok(Scan(q, pairs).value + if JudgePair(q, p).value.Some? then [JudgePair(q, p).value.value] else [])
  {
    hide JudgePair;
    hide Applies;
    assert (pairs + [p])[..|pairs + [p]| - 1] == pairs;
  }

  lemma JudgePairParts(q: Problem, p: Pair)
    requires Applies(q, p)
    ensures JudgePair(q, p) == Judge(q.words, Pick(q.rows, p.ri), Pick(q.movements, p.mi), q.bounds.maxDistance)
  {
  }

  class Search {
    var work: nat
    var candidates: seq<Candidate>
    ghost var done: seq<Pair>

    ghost predicate Valid(q: Problem)
      reads this
    {
      (forall p :: p in done ==> Applies(q, p)) && Scan(q, done) == Ok(candidates) && work == |done|
    }

    constructor (q: Problem)
      ensures Valid(q) && done == []
    {
      work, candidates, done := 0, [], [];
    }

    /** Counts one pair and judges it. */
    method Examine(q: Problem, p: Pair) returns (r: Result<(), Error>)
      requires Valid(q) && Applies(q, p)
      modifies this
      ensures done == old(done) + [p]
      ensures r.Ok? ==> Valid(q)
      ensures r.Err? ==> (forall p :: p in done ==> Applies(q, p)) && Scan(q, done) == Err(r.error)
    {
      ScanSnoc(q, done, p);
      hide Scan;
      hide JudgePair;
      hide Judge;
      hide Pick;
      done := done + [p];
      if work + 1 > USIZE_MAX {
        return Err(ArithmeticOverflow);
      }
      work := work + 1;
      if work > q.bounds.maxWork {
        return Err(WorkBoundExceeded);
      }
      JudgePairParts(q, p);
      var judged :- JudgeRows(q.words, Pick(q.rows, p.ri), Pick(q.movements, p.mi), q.bounds.maxDistance);
      if judged.Some? {
        candidates := candidates + [judged.value];
      } else {
        assert candidates + [] == candidates;
      }
      r := Ok(());
    }
  }

  lemma {:induction false} MovementSetsPrefix(rowSize: nat, m: nat, a: nat, b: nat)
    requires a <= b
    ensures MovementSets(rowSize, m, a) <= MovementSets(rowSize, m, b)
  {
    if a < b {
      MovementSetsPrefix(rowSize, m, a, b - 1);
    }
  }

  lemma {:induction false} RowPairsPrefix(rows: seq<Indices>, sets: seq<Indices>, i: nat)
    requires i <= |rows|
    ensures RowPairs(rows[..i], sets) <= RowPairs(rows, sets)
  {
    if i < |rows| {
      RowPairsPrefix(rows[..|rows| - 1], sets, i);
      assert rows[..|rows| - 1][..i] == rows[..i];
    } else {
      assert rows[..i] == rows;
    }
  }

  lemma {:induction false} PairsUpToPrefix(n: nat, m: nat, cap: nat, a: nat, b: nat)
    requires a <= b
    ensures PairsUpTo(n, m, cap, a) <= PairsUpTo(n, m, cap, b)
  {
    hide PairsUpTo;
    hide RowPairs;
    if a < b {
      PairsUpToPrefix(n, m, cap, a, b - 1);
      PairsSplit(n, m, cap, b);
    }
  }

  lemma PrefixWithin<T>(a: seq<T>, b: seq<T>, longer: seq<T>, c: seq<T>)
    requires b <= longer && a + longer <= c
    ensures a + b <= c
  {
    assert a + b <= a + longer;
  }

  lemma PairsForPrefix(ri: Indices, some: seq<Indices>, sets: seq<Indices>)
    requires some <= sets
    ensures PairsFor(ri, some) <= PairsFor(ri, sets)
  {
  }

  lemma PairsForSnoc(ri: Indices, some: seq<Indices>, mi: Indices)
    ensures PairsFor(ri, some + [mi]) == PairsFor(ri, some) + [Pair(ri, mi)]
  {
  }

  lemma RowPairsStep(rows: seq<Indices>, sets: seq<Indices>, i: nat)
    requires i < |rows|
    ensures RowPairs(rows[..i + 1], sets) == RowPairs(rows[..i], sets) + PairsFor(rows[i], sets)
  {
    assert rows[..i + 1][..i] == rows[..i];
  }

  /** The row combinations of one size, and the movement combinations tried with each of them. */
  function RowSets(q: Problem, rowSize: nat): seq<Indices> {
    Combos(|q.rows|, rowSize)
  }

  function SetsFor(q: Problem, rowSize: nat): seq<Indices> {
    MovementSets(rowSize, |q.movements|, Min(q.bounds.maxCardinality, |q.movements|))
  }

  /** All pairs with row combinations below a size. */
  function PairsBelow(q: Problem, rowSize: nat): seq<Pair>
    requires rowSize >= 1
  {
    PairsUpTo(|q.rows|, |q.movements|, q.bounds.maxCardinality, rowSize - 1)
  }

  lemma SizePrefix(q: Problem, rowSize: nat)
    requires 1 <= rowSize <= Min(q.bounds.maxCardinality, |q.rows|)
    ensures PairsBelow(q, rowSize) + RowPairs(RowSets(q, rowSize), SetsFor(q, rowSize)) <= Examined(q)
  {
    hide RowPairs;
    hide PairsUpTo;
    PairsUpToPrefix(|q.rows|, |q.movements|, q.bounds.maxCardinality, rowSize, Min(q.bounds.maxCardinality, |q.rows|));
    PairsSplit(|q.rows|, |q.movements|, q.bounds.maxCardinality, rowSize);
  }

  /** What is examined in the midst of the nested loops is a prefix of what is examined in all. */
  lemma ExaminedPrefix(q: Problem, rowSize: nat, i: nat, some: seq<Indices>)
    requires 1 <= rowSize <= Min(q.bounds.maxCardinality, |q.rows|)
    requires i < |RowSets(q, rowSize)| && some <= SetsFor(q, rowSize)
    ensures PairsBelow(q, rowSize) + RowPairs(RowSets(q, rowSize)[..i], SetsFor(q, rowSize))
      + PairsFor(RowSets(q, rowSize)[i], some) <= Examined(q)
  {
    hide PairsBelow;
    hide RowSets;
    hide SetsFor;
    hide Examined;
    hide RowPairs;
    hide PairsFor;
    var base, rows, sets := PairsBelow(q, rowSize), RowSets(q, rowSize), SetsFor(q, rowSize);
    SizePrefix(q, rowSize);
    RowPairsStep(rows, sets, i);
    RowPairsPrefix(rows, sets, i + 1);
    PrefixWithin(base, RowPairs(rows[..i + 1], sets), RowPairs(rows, sets), Examined(q));
    assert base + RowPairs(rows[..i], sets) + PairsFor(rows[i], sets) == base + RowPairs(rows[..i + 1], sets);
    PairsForPrefix(rows[i], some, sets);
    PrefixWithin(base + RowPairs(rows[..i], sets), PairsFor(rows[i], some), PairsFor(rows[i], sets), Examined(q));
  }

  lemma PairsBelowStep(q: Problem, rowSize: nat)
    requires rowSize >= 1
    ensures PairsBelow(q, rowSize + 1) == PairsBelow(q, rowSize) + RowPairs(RowSets(q, rowSize), SetsFor(q, rowSize))
  {
  }

  method GenerateCandidates(inputs: Inputs, bounds: Bounds, words: Words) returns (r: Result<seq<Candidate>, Error>)
    ensures r == Generate(inputs, bounds, words)
  {
    hide Scan;
    hide ValidateInputs;
    var _ :- Validate(inputs);
    if bounds.maxWork == 0 || bounds.maxResults == 0 || bounds.maxCardinality == 0 {
      return Err(InvalidBounds);
    }
    var q := Problem(words, inputs.statement.rows, inputs.movements, bounds);
    var found :- SearchAll(q);
    r := Ok(Truncate(Sort(ReviewOrder, found), bounds.maxResults));
  }

  /** The outer loops: all row combinations of all sizes. */
  method SearchAll(q: Problem) returns (r: Result<seq<Candidate>, Error>)
    ensures forall p :: p in Examined(q) ==> Applies(q, p)
    ensures r == Scan(q, Examined(q))
  {
    hide Scan;
    hide PairsUpTo;
    hide RowPairs;
    hide SetsFor;
    hide Applies;
    PairsApply(q);
    var search := new Search(q);
    NoPairs(|q.rows|, |q.movements|, q.bounds.maxCardinality);
    assert search.done == PairsBelow(q, 1);
    for rowSize := 1 to Min(q.bounds.maxCardinality, |q.rows|) + 1
      invariant search.Valid(q) && search.done == PairsBelow(q, rowSize)
    {
      var _ :- SearchRows(search, q, rowSize);
    }
    r := Ok(search.candidates);
  }

  /** What is examined before row combination `i` of a size. */
  function PairsBefore(q: Problem, rowSize: nat, i: nat): seq<Pair>
    requires rowSize >= 1 && i <= |RowSets(q, rowSize)|
  {
    PairsBelow(q, rowSize) + RowPairs(RowSets(q, rowSize)[..i], SetsFor(q, rowSize))
  }

  lemma PairsBeforeSteps(q: Problem, rowSize: nat)
    requires rowSize >= 1
    ensures PairsBefore(q, rowSize, 0) == PairsBelow(q, rowSize)
    ensures PairsBefore(q, rowSize, |RowSets(q, rowSize)|) == PairsBelow(q, rowSize + 1)
  {
    hide PairsUpTo;
    hide RowPairs;
    hide RowSets;
    var rowSets := RowSets(q, rowSize);
    NoRowPairs(SetsFor(q, rowSize));
    assert rowSets[..0] == [] && rowSets[..|rowSets|] == rowSets;
    PairsBelowStep(q, rowSize);
  }

  lemma PairsBeforeNext(q: Problem, rowSize: nat, i: nat)
    requires rowSize >= 1 && i < |RowSets(q, rowSize)|
    ensures PairsBefore(q, rowSize, i + 1) ==
      PairsBefore(q, rowSize, i) + PairsFor(RowSets(q, rowSize)[i], SetsFor(q, rowSize))
  {
    hide PairsBelow;
    hide RowPairs;
    hide RowSets;
    RowPairsStep(RowSets(q, rowSize), SetsFor(q, rowSize), i);
  }

  /** The loop over row combinations of one size. */
  method SearchRows(search: Search, q: Problem, rowSize: nat) returns (r: Result<(), Error>)
    requires 1 <= rowSize <= Min(q.bounds.maxCardinality, |q.rows|)
    requires search.Valid(q) && search.done == PairsBelow(q, rowSize)
    requires forall p :: p in Examined(q) ==> Applies(q, p)
    modifies search
    ensures r.Ok? ==> search.Valid(q) && search.done == PairsBelow(q, rowSize + 1)
    ensures r.Err? ==> Scan(q, Examined(q)) == Err(r.error)
  {
    hide PairsBelow;
    hide SetsFor;
    hide Search.Valid;
    var rowSets := Combinations(|q.rows|, rowSize);
    assert rowSets == RowSets(q, rowSize);
    PairsBeforeSteps(q, rowSize);
    for i := 0 to |rowSets|
      invariant search.Valid(q) && search.done == PairsBefore(q, rowSize, i)
    {
      PairsBeforeNext(q, rowSize, i);
      var _ :- SearchMovements(search, q, rowSize, rowSets, i);
    }
    r := Ok(());
  }

  /** The inner loops: one row combination against the movement combinations. */
  method SearchMovements(search: Search, q: Problem, rowSize: nat, rowSets: seq<Indices>, i: nat)
    returns (r: Result<(), Error>)
    requires 1 <= rowSize <= Min(q.bounds.maxCardinality, |q.rows|)
    requires rowSets == RowSets(q, rowSize) && i < |rowSets|
    requires search.Valid(q)
    requires search.done == PairsBelow(q, rowSize) + RowPairs(rowSets[..i], SetsFor(q, rowSize))
    modifies search
    ensures r.Ok? ==> search.Valid(q)
    ensures r.Ok? ==> search.done == old(search.done) + PairsFor(rowSets[i], SetsFor(q, rowSize))
    ensures r.Err? ==> (forall p :: p in Examined(q) ==> Applies(q, p)) && Scan(q, Examined(q)) == Err(r.error)
  {
    hide Scan;
    hide PairsBelow;
    hide RowPairs;
    hide RowSets;
    hide Examined;
    var ri := rowSets[i];
    var m, top := |q.movements|, Min(q.bounds.maxCardinality, |q.movements|);
    ghost var before := search.done;
    PairsApply(q);
    for movementSize := 1 to top + 1
      invariant search.Valid(q)
      invariant search.done == before + PairsFor(ri, MovementSets(rowSize, m, movementSize - 1))
    {
      if rowSize > 1 && movementSize > 1 {
        assert MovementSets(rowSize, m, movementSize) == MovementSets(rowSize, m, movementSize - 1);
        continue;
      }
      var sets := Combinations(m, movementSize);
      ghost var earlier := MovementSets(rowSize, m, movementSize - 1);
      assert earlier + sets == MovementSets(rowSize, m, movementSize);
      MovementSetsPrefix(rowSize, m, movementSize, top);
      var _ :- SearchSets(search, q, rowSize, rowSets, i, sets, before, earlier);
    }
    r := Ok(());
  }

  /** The innermost loop: one row combination against the movement combinations of one size. */
  method SearchSets(search: Search, q: Problem, rowSize: nat, rowSets: seq<Indices>, i: nat, sets: seq<Indices>,
                    ghost before: seq<Pair>, ghost earlier: seq<Indices>)
    returns (r: Result<(), Error>)
    requires 1 <= rowSize <= Min(q.bounds.maxCardinality, |q.rows|)
    requires rowSets == RowSets(q, rowSize) && i < |rowSets| && earlier + sets <= SetsFor(q, rowSize)
    requires before == PairsBelow(q, rowSize) + RowPairs(rowSets[..i], SetsFor(q, rowSize))
    requires search.Valid(q) && search.done == before + PairsFor(rowSets[i], earlier)
    requires forall p :: p in Examined(q) ==> Applies(q, p)
    modifies search
    ensures r.Ok? ==> search.Valid(q) && search.done == before + PairsFor(rowSets[i], earlier + sets)
    ensures r.Err? ==> Scan(q, Examined(q)) == Err(r.error)
  {
    hide Scan;
    hide PairsBelow;
    hide RowPairs;
    hide RowSets;
    hide SetsFor;
    hide Examined;
    hide Applies;
    var ri := rowSets[i];
    assert earlier + sets[..0] == earlier;
    for j := 0 to |sets|
      invariant search.Valid(q)
      invariant search.done == before + PairsFor(ri, earlier + sets[..j])
    {
      ghost var reached := search.done;
      var p := Pair(ri, sets[j]);
      assert earlier + sets[..j + 1] == earlier + sets[..j] + [sets[j]];
      PairsForSnoc(ri, earlier + sets[..j], sets[j]);
      assert earlier + sets[..j + 1] <= SetsFor(q, rowSize);
      ExaminedPrefix(q, rowSize, i, earlier + sets[..j + 1]);
      assert before + PairsFor(ri, earlier + sets[..j + 1]) == reached + [p];
      assert (reached + [p])[|reached|] == p;
      assert Examined(q)[|reached|] == p;
      var examined := search.Examine(q, p);
      if examined.Err? {
        ScanPrefix(q, search.done, Examined(q));
        return examined;
      }
    }
    assert sets[..|sets|] == sets;
    r := Ok(());
  }
}
