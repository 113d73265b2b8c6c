/** Candidate enumeration is sound, complete, ordered and bounded. */
module CandidateProperties {
  import opened Wrappers
  import opened Sequences
  import opened Sorting
  import opened Subsets
  import opened StatementData
  import opened Evidence
  import opened Candidates
  import opened CandidateSearch

  /** The rows and movements of an eligible pair match, within the bounds of the problem. */
  ghost predicate MatchingPair(q: Problem, p: Pair) {
    && Eligible(p, |q.rows|, |q.movements|, q.bounds.maxCardinality)
    && Applies(q, p)
    && Matches(Pick(q.rows, p.ri), Pick(q.movements, p.mi), q.bounds.maxDistance)
  }

  /** The review record of a pair; its rank is twice the largest distance plus the text penalty. */
  function PairCandidate(q: Problem, p: Pair): Candidate
    requires Applies(q, p)
    requires MaxDistance(Map(RowDate, Pick(q.rows, p.ri)), Map(MovementDate, Pick(q.movements, p.mi))).Ok?
  {
    var rows, movements := Pick(q.rows, p.ri), Pick(q.movements, p.mi);
    CandidateOf(q.words, rows, movements, MaxDistance(Map(RowDate, rows), Map(MovementDate, movements)).value)
  }

  /** A candidate is the record of some matching pair. */
  ghost predicate IsCandidate(q: Problem, c: Candidate) {
    exists p :: RecordOf(q, p, c)
  }

  ghost predicate RecordOf(q: Problem, p: Pair, c: Candidate) {
    && MatchingPair(q, p)
    && MaxDistance(Map(RowDate, Pick(q.rows, p.ri)), Map(MovementDate, Pick(q.movements, p.mi))).Ok?
    && c == PairCandidate(q, p)
  }

  lemma ExaminedExact(q: Problem, p: Pair)
    ensures p in Examined(q) <==> Eligible(p, |q.rows|, |q.movements|, q.bounds.maxCardinality)
    ensures p in Examined(q) ==> Applies(q, p)
    ensures NoDup(Examined(q))
  {
    var n, m, cap := |q.rows|, |q.movements|, q.bounds.maxCardinality;
    PairsApply(q);
    PairsExact(n, m, cap, Min(cap, n), p);
    PairsNoDup(n, m, cap, Min(cap, n));
    if Eligible(p, n, m, cap) {
      ChoiceFits(p.ri, 0, n, |p.ri|);
    }
  }

  lemma JudgePairExact(q: Problem, p: Pair)
    requires Applies(q, p) && Eligible(p, |q.rows|, |q.movements|, q.bounds.maxCardinality)
    requires JudgePair(q, p).Ok?
    ensures JudgePair(q, p).value.Some? <==> MatchingPair(q, p)
    ensures JudgePair(q, p).value.Some? ==> RecordOf(q, p, JudgePair(q, p).value.value)
  {
    hide Judge;
    hide Matches;
    hide Eligible;
    hide MaxDistance;
    hide CandidateOf;
    JudgeExact(q.words, Pick(q.rows, p.ri), Pick(q.movements, p.mi), q.bounds.maxDistance);
  }

  // ----- a pair can be told from its record

  lemma {:induction false} PickInjective<T>(xs: seq<T>, c: Indices, d: Indices)
    requires NoDup(xs) && InRange(c, |xs|) && InRange(d, |xs|) && Pick(xs, c) == Pick(xs, d)
    ensures c == d
  {
    assert |c| == |Pick(xs, c)| == |d|;
    forall i | 0 <= i < |c| ensures c[i] == d[i] {
      assert Pick(xs, c)[i] == xs[c[i]] && Pick(xs, d)[i] == xs[d[i]];
    }
  }

  lemma PickMap<A, B>(f: A -> B, xs: seq<A>, c: Indices)
    requires InRange(c, |xs|)
    ensures Map(f, Pick(xs, c)) == Pick(Map(f, xs), c)
  {
  }

  lemma RecordIds(q: Problem, p: Pair, c: Candidate)
    ensures RecordOf(q, p, c) ==>
      && Applies(q, p)
      && c.rowIds == Pick(Map(Identity, q.rows), p.ri)
      && c.voucherIds == Pick(Map(VoucherId, q.movements), p.mi)
  {
    hide Matches;
    hide Eligible;
    hide MaxDistance;
    if RecordOf(q, p, c) {
      PickMap(Identity, q.rows, p.ri);
      PickMap(VoucherId, q.movements, p.mi);
    }
  }

  lemma RecordInjective(q: Problem, p: Pair, o: Pair, c: Candidate)
    requires NoDup(Map(Identity, q.rows)) && NoDup(Map(VoucherId, q.movements))
    ensures RecordOf(q, p, c) && RecordOf(q, o, c) ==> p == o
  {
    hide RecordOf;
    hide NoDup;
    RecordIds(q, p, c);
    RecordIds(q, o, c);
    if RecordOf(q, p, c) && RecordOf(q, o, c) {
      PickInjective(Map(Identity, q.rows), p.ri, o.ri);
      PickInjective(Map(VoucherId, q.movements), p.mi, o.mi);
    }
  }

  // ----- what a scan finds

  lemma {:induction false} ScanExact(q: Problem, pairs: seq<Pair>, c: Candidate)
    requires forall p :: p in pairs ==> Applies(q, p)
    requires forall p :: p in pairs ==> Eligible(p, |q.rows|, |q.movements|, q.bounds.maxCardinality)
    requires Scan(q, pairs).Ok?
    ensures c in Scan(q, pairs).value <==> exists p :: p in pairs && RecordOf(q, p, c)
    ensures |pairs| <= q.bounds.maxWork || pairs == []
  {
    hide JudgePair;
    hide Applies;
    hide Eligible;
    hide RecordOf;
    if pairs != [] {
      hide Scan;
      var before, last := pairs[..|pairs| - 1], pairs[|pairs| - 1];
      assert pairs == before + [last];
      ScanSnoc(q, before, last);
      ScanExact(q, before, c);
      JudgePairRecord(q, last, c);
      InConcat(Scan(q, before).value,
               if JudgePair(q, last).value.Some? then [JudgePair(q, last).value.value] else [], c);
    }
  }

  /** The candidate a judged pair yields, if any, is its record. */
  lemma JudgePairRecord(q: Problem, p: Pair, c: Candidate)
    requires Applies(q, p) && Eligible(p, |q.rows|, |q.movements|, q.bounds.maxCardinality)
    ensures JudgePair(q, p).Ok? ==> (JudgePair(q, p).value == Some(c) <==> RecordOf(q, p, c))
  {
    hide JudgePair;
    hide Applies;
    hide Eligible;
    if JudgePair(q, p).Ok? {
      JudgePairExact(q, p);
      hide RecordOf;
      if RecordOf(q, p, c) {
        RecordMatches(q, p, c);
        RecordUnique(q, p, c, JudgePair(q, p).value.value);
      }
    }
  }

  lemma RecordMatches(q: Problem, p: Pair, c: Candidate)
    ensures RecordOf(q, p, c) ==> MatchingPair(q, p)
  {
  }

  lemma RecordUnique(q: Problem, p: Pair, c: Candidate, d: Candidate)
    ensures RecordOf(q, p, c) && RecordOf(q, p, d) ==> c == d
  {
  }

  lemma {:induction false} ScanNoDup(q: Problem, pairs: seq<Pair>)
    requires forall p :: p in pairs ==> Applies(q, p)
    requires forall p :: p in pairs ==> Eligible(p, |q.rows|, |q.movements|, q.bounds.maxCardinality)
    requires Scan(q, pairs).Ok? && NoDup(pairs)
    requires NoDup(Map(Identity, q.rows)) && NoDup(Map(VoucherId, q.movements))
    ensures NoDup(Scan(q, pairs).value)
  {
    if pairs != [] {
      hide JudgePair;
      hide Applies;
      hide Eligible;
      hide RecordOf;
      var before, last := pairs[..|pairs| - 1], pairs[|pairs| - 1];
      assert pairs == before + [last];
      NoDupSnoc(before, last);
      ScanNoDup(q, before);
      JudgePairExact(q, last);
      var found, judged := Scan(q, before).value, JudgePair(q, last).value;
      if judged.Some? {
        ScanExact(q, before, judged.value);
        if judged.value in found {
          var p :| p in before && RecordOf(q, p, judged.value);
          RecordInjective(q, p, last, judged.value);
        }
        NoDupSnoc(found, judged.value);
      } else {
        assert found + [] == found;
      }
    }
  }

  // ----- the main result

  /** `all` are the candidates of `q`, each once, in review order. */
  ghost predicate AllCandidates(q: Problem, all: seq<Candidate>) {
    Ascending(ReviewOrder, all) && forall c :: c in all <==> IsCandidate(q, c)
  }

  /** The number of pairs that enumeration examines. */
  function WorkCount(n: nat, m: nat, cap: nat): int {
    if n == 0 || cap == 0 then 0
    else n * ChooseSum(m, 1, Min(cap, m)) + m * ChooseSum(n, 2, Min(cap, n))
  }

  /**
   Enumeration that succeeds returns the first `maxResults`, in strict review order,
   of exactly the matching pairs; and the pairs examined are within `maxWork`.
   */
  lemma GenerateExact(inputs: Inputs, bounds: Bounds, words: Words) returns (all: seq<Candidate>)
    requires Generate(inputs, bounds, words).Ok?
    ensures AllCandidates(Problem(words, inputs.statement.rows, inputs.movements, bounds), all)
    ensures Generate(inputs, bounds, words).value == Truncate(all, bounds.maxResults)
    ensures WorkCount(|inputs.statement.rows|, |inputs.movements|, bounds.maxCardinality) <= bounds.maxWork
  {
    var q := Problem(words, inputs.statement.rows, inputs.movements, bounds);
    ValidateExact(inputs);
    PairsApply(q);
    hide Scan;
    hide IsCandidate;
    hide Applies;
    hide Eligible;
    var found := Scan(q, Examined(q)).value;
    all := Sort(ReviewOrder, found);
    forall p ensures p in Examined(q) <==> Eligible(p, |q.rows|, |q.movements|, bounds.maxCardinality) {
      ExaminedExact(q, p);
    }
    ExaminedExact(q, Pair([], []));
    ScanNoDup(q, Examined(q));
    hide NoDup;
    hide WorkCount;
    hide Lex;
    ReviewOrderTotal();
    SortAscending(ReviewOrder, found);
    forall c ensures c in all <==> IsCandidate(q, c) {
      CandidateIff(q, found, c);
    }
    ScanExact(q, Examined(q), Candidate(OneToOne, [], [], 0));
    ExaminedCount(q);
  }

  /** The rows and movements of the pair can be judged. */
  ghost predicate JudgeablePair(q: Problem, p: Pair) {
    Applies(q, p) && Judgeable(Pick(q.rows, p.ri), Pick(q.movements, p.mi))
  }

  lemma {:induction false} ScanOk(q: Problem, pairs: seq<Pair>)
    requires forall p :: p in pairs ==> Applies(q, p)
    ensures Scan(q, pairs).Ok? <==> |pairs| <= q.bounds.maxWork && forall p :: p in pairs ==> JudgeablePair(q, p)
  {
    if pairs != [] {
      hide Scan;
      hide JudgePair;
      hide Applies;
      hide JudgeablePair;
      var before, last := pairs[..|pairs| - 1], pairs[|pairs| - 1];
      assert pairs == before + [last];
      ScanSnoc(q, before, last);
      ScanOk(q, before);
      JudgePairOk(q, last);
    } else {
      NothingScanned(q);
    }
  }

  lemma NothingScanned(q: Problem)
    ensures Scan(q, []) == Ok([])
  {
  }

  lemma JudgePairOk(q: Problem, p: Pair)
    requires Applies(q, p)
    ensures JudgePair(q, p).Ok? <==> JudgeablePair(q, p)
  {
    hide Judge;
    hide Judgeable;
    JudgeOk(q.words, Pick(q.rows, p.ri), Pick(q.movements, p.mi), q.bounds.maxDistance);
  }

  /**
   Enumeration succeeds exactly for valid inputs and nonzero bounds, when there is no
   more work than allowed and every eligible pair can be judged.
   */
  lemma GenerateSucceeds(inputs: Inputs, bounds: Bounds, words: Words)
    ensures Generate(inputs, bounds, words).Ok? <==>
      && ValidInputs(inputs)
      && bounds.maxWork > 0 && bounds.maxResults > 0 && bounds.maxCardinality > 0
      && WorkCount(|inputs.statement.rows|, |inputs.movements|, bounds.maxCardinality) <= bounds.maxWork
      && forall p :: Eligible(p, |inputs.statement.rows|, |inputs.movements|, bounds.maxCardinality) ==>
           JudgeablePair(Problem(words, inputs.statement.rows, inputs.movements, bounds), p)
  {
    hide ValidInputs;
    hide ValidateInputs;
    hide Scan;
    hide Applies;
    hide Eligible;
    hide JudgeablePair;
    hide WorkCount;
    var q := Problem(words, inputs.statement.rows, inputs.movements, bounds);
    ValidateExact(inputs);
    PairsApply(q);
    forall p ensures p in Examined(q) <==> Eligible(p, |q.rows|, |q.movements|, bounds.maxCardinality) {
      ExaminedExact(q, p);
    }
    ScanOk(q, Examined(q));
    ExaminedCount(q);
  }

  lemma ExaminedCount(q: Problem)
    ensures |Examined(q)| == WorkCount(|q.rows|, |q.movements|, q.bounds.maxCardinality)
  {
    PairsCount(|q.rows|, |q.movements|, q.bounds.maxCardinality, Min(q.bounds.maxCardinality, |q.rows|));
  }

  lemma CandidateIff(q: Problem, found: seq<Candidate>, c: Candidate)
    requires forall p :: p in Examined(q) ==> Applies(q, p)
    requires forall p :: p in Examined(q) <==> Eligible(p, |q.rows|, |q.movements|, q.bounds.maxCardinality)
    requires Scan(q, Examined(q)) == Ok(found)
    ensures c in found <==> IsCandidate(q, c)
  {
    ScanExact(q, Examined(q), c);
    if IsCandidate(q, c) {
      var p :| RecordOf(q, p, c);
      RecordMatches(q, p, c);
    }
  }

  /** The returned list is determined by the inputs: there is one complete review order. */
  lemma AllCandidatesUnique(q: Problem, a: seq<Candidate>, b: seq<Candidate>)
    requires AllCandidates(q, a) && AllCandidates(q, b)
    ensures a == b
  {
    hide IsCandidate;
    ReviewOrderTotal();
    AscendingUnique(ReviewOrder, a, b);
  }
}
