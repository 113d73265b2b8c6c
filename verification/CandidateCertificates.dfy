/** Disjoint candidates, accepted by the authority of the inputs, always make a certificate. */
module CandidateCertificates {
  import opened Wrappers
  import opened Numbers
  import opened Sequences
  import opened Subsets
  import opened StatementData
  import opened Evidence
  import opened Candidates
  import opened CandidateSearch
  import opened CandidateProperties
  import opened Certificates
  import opened CertificateProperties

  // ----- what a successful scan has judged

  lemma {:induction false} ScanJudged(q: Problem, pairs: seq<Pair>, p: Pair)
    requires forall p :: p in pairs ==> Applies(q, p)
    requires Scan(q, pairs).Ok? && p in pairs
    ensures JudgePair(q, p).Ok?
  {
    hide JudgePair;
    hide Applies;
    var before, last := pairs[..|pairs| - 1], pairs[|pairs| - 1];
    assert pairs == before + [last];
    if p != last {
      ScanJudged(q, before, p);
    }
  }

  lemma JudgedSums(q: Problem, p: Pair)
    requires Applies(q, p)
    ensures JudgePair(q, p).Ok? && MatchingPair(q, p) ==>
      var rows, movements := Pick(q.rows, p.ri), Pick(q.movements, p.mi);
      && CheckedSum(Map(RowAmount, rows)).Some? && CheckedSum(Map(MovementAmount, movements)).Some?
      && SumOf(RowAmount, rows) == SumOf(MovementAmount, movements)
  {
    hide WithinDays;
    hide MaxDistance;
    hide CandidateOf;
    hide Eligible;
  }

  /** A candidate names a pair that was judged. */
  lemma CandidatePair(inputs: Inputs, bounds: Bounds, words: Words, c: Candidate) returns (q: Problem, p: Pair)
    requires Generate(inputs, bounds, words).Ok? && c in Generate(inputs, bounds, words).value
    ensures q == Problem(words, inputs.statement.rows, inputs.movements, bounds)
    ensures RecordOf(q, p, c) && MatchingPair(q, p) && Applies(q, p) && JudgePair(q, p).Ok?
  {
    hide Scan;
    hide JudgePair;
    hide RecordOf;
    hide Applies;
    q := Problem(words, inputs.statement.rows, inputs.movements, bounds);
    var all := GenerateExact(inputs, bounds, words);
    assert c in all;
    p :| RecordOf(q, p, c);
    RecordMatches(q, p, c);
    PairsApply(q);
    ExaminedExact(q, p);
    ScanJudged(q, Examined(q), p);
  }

  // ----- looking picked elements up by their keys

  lemma {:induction false} AmountsAt<T, K>(key: T -> K, amount: T -> int, xs: seq<T>, i: nat)
    requires NoDup(Map(key, xs)) && i < |xs|
    ensures Lookup(Amounts(key, amount, xs))(key(xs[i])) == amount(xs[i])
  {
    var n := |xs| - 1;
    AmountsKeys(key, amount, xs[..n]);
    if i < n {
      var keys := Map(key, xs);
      assert keys[i] != keys[n];
      assert Map(key, xs[..n]) == keys[..n];
      AmountsAt(key, amount, xs[..n], i);
    }
  }

  lemma PickedKeys<T, K>(key: T -> K, amount: T -> int, xs: seq<T>, c: Indices)
    requires InRange(c, |xs|)
    ensures Elements(Map(key, Pick(xs, c))) <= Amounts(key, amount, xs).Keys
  {
    hide Amounts;
    AmountsKeys(key, amount, xs);
    var keys := Map(key, Pick(xs, c));
    forall i | 0 <= i < |keys| ensures keys[i] in Elements(Map(key, xs)) {
      assert Map(key, xs)[c[i]] == keys[i];
    }
  }

  lemma PickedAmounts<T, K>(key: T -> K, amount: T -> int, xs: seq<T>, c: Indices)
    requires NoDup(Map(key, xs)) && InRange(c, |xs|)
    ensures Map(Lookup(Amounts(key, amount, xs)), Map(key, Pick(xs, c))) == Map(amount, Pick(xs, c))
    ensures Elements(Map(key, Pick(xs, c))) <= Amounts(key, amount, xs).Keys
  {
    hide Amounts;
    hide NoDup;
    hide Lookup;
    PickedKeys(key, amount, xs, c);
    hide Elements;
    var picked, lookup := Pick(xs, c), Lookup(Amounts(key, amount, xs));
    forall i | 0 <= i < |picked| ensures lookup(key(picked[i])) == amount(picked[i]) {
      AmountsAt(key, amount, xs, c[i]);
    }
    MapComposed(lookup, key, amount, picked);
  }

  lemma MapComposed<A, B, C>(f: B -> C, g: A -> B, h: A -> C, xs: seq<A>)
    requires forall i :: 0 <= i < |xs| ==> f(g(xs[i])) == h(xs[i])
    ensures Map(f, Map(g, xs)) == Map(h, xs)
  {
  }

  lemma PickNoDup<T>(xs: seq<T>, c: Indices)
    requires NoDup(xs) && InRange(c, |xs|) && Increasing(c)
    ensures NoDup(Pick(xs, c))
  {
  }

  // ----- decisions that accept candidates

  function Recorded(reviewer: string, c: Candidate, ref: string): Decision {
    Decision(ref, reviewer, Accept, References(c.rowIds, c.voucherIds))
  }

  function Recordings(reviewer: string, chosen: seq<Candidate>, refs: seq<string>): (ds: seq<Decision>)
    requires |refs| == |chosen|
    ensures |ds| == |chosen| && forall i :: 0 <= i < |ds| ==> ds[i] == Recorded(reviewer, chosen[i], refs[i])
  {
    seq(|chosen|, i requires 0 <= i < |chosen| => Recorded(reviewer, chosen[i], refs[i]))
  }

  /** No two of the chosen candidates share a row or a voucher. */
  ghost predicate Disjoint(chosen: seq<Candidate>) {
    forall i, j :: 0 <= i < j < |chosen| ==>
      Elements(chosen[i].rowIds) !! Elements(chosen[j].rowIds)
      && Elements(chosen[i].voucherIds) !! Elements(chosen[j].voucherIds)
  }

  lemma CandidateSound(inputs: Inputs, bounds: Bounds, words: Words, c: Candidate, ref: string)
    requires Generate(inputs, bounds, words).Ok? && c in Generate(inputs, bounds, words).value
    ensures Sound(TablesOf(inputs), Recorded(inputs.reviewerRef, c, ref))
    ensures NoDup(c.rowIds) && NoDup(c.voucherIds)
  {
    hide JudgePair;
    hide Scan;
    hide NoDup;
    hide Amounts;
    hide RecordOf;
    hide MatchingPair;
    ValidateExact(inputs);
    hide ValidateInputs;
    hide OneCurrency;
    var q, p := CandidatePair(inputs, bounds, words, c);
    RecordShape(q, p, c);
    JudgedSums(q, p);
    PickedAmounts(Identity, RowAmount, q.rows, p.ri);
    PickedAmounts(VoucherId, MovementAmount, q.movements, p.mi);
    PickMap(Identity, q.rows, p.ri);
    PickMap(VoucherId, q.movements, p.mi);
    PickNoDup(RowIds(inputs), p.ri);
    PickNoDup(VoucherIds(inputs), p.mi);
  }

  lemma RecordShape(q: Problem, p: Pair, c: Candidate)
    ensures RecordOf(q, p, c) ==>
      && Applies(q, p) && Increasing(p.ri) && Increasing(p.mi) && p.ri != [] && p.mi != []
      && c.rowIds == Map(Identity, Pick(q.rows, p.ri))
      && c.voucherIds == Map(VoucherId, Pick(q.movements, p.mi))
  {
    hide Matches;
    hide MaxDistance;
  }

  /** Flattening pairwise disjoint lists without repetition gives one without repetition. */
  lemma {:induction false} FlatMapDisjoint<A, B>(f: A -> seq<B>, xs: seq<A>)
    requires forall i :: 0 <= i < |xs| ==> NoDup(f(xs[i]))
    requires forall i, j :: 0 <= i < j < |xs| ==> Elements(f(xs[i])) !! Elements(f(xs[j]))
    ensures NoDup(FlatMap(f, xs))
  {
    if xs != [] {
      hide NoDup;
      var n := |xs| - 1;
      var init := xs[..n];
      assert xs == init + [xs[n]];
      FlatMapDisjoint(f, init);
      FlatMapSnoc(f, init, xs[n]);
      forall y | y in FlatMap(f, init) ensures y !in f(xs[n]) {
        FlatMapIn(f, init, y);
        var x :| x in init && y in f(x);
        var i :| 0 <= i < n && init[i] == x;
        assert y in Elements(f(xs[i]));
      }
      NoDupConcat(FlatMap(f, init), f(xs[n]));
    }
  }

  lemma RecordingsDisjoint(reviewer: string, chosen: seq<Candidate>, refs: seq<string>)
    requires |refs| == |chosen| && Disjoint(chosen)
    requires forall c :: c in chosen ==> NoDup(c.rowIds) && NoDup(c.voucherIds)
    ensures
      var ds := Recordings(reviewer, chosen, refs);
      NoDup(FlatMap(AcceptedRows, ds)) && NoDup(FlatMap(AcceptedVouchers, ds))
  {
    hide NoDup;
    hide FlatMap;
    var ds := Recordings(reviewer, chosen, refs);
    forall i | 0 <= i < |ds|
      ensures AcceptedRows(ds[i]) == chosen[i].rowIds && AcceptedVouchers(ds[i]) == chosen[i].voucherIds
    {
    }
    FlatMapDisjoint(AcceptedRows, ds);
    FlatMapDisjoint(AcceptedVouchers, ds);
  }

  /**
   Pairwise disjoint candidates of one enumeration, each accepted by `reviewerRef` under
   a fresh reference, are accepted by the certificate builder, whenever the ledger total
   and the residual fit.
   */
  lemma DisjointCandidatesAccepted(inputs: Inputs, bounds: Bounds, words: Words, chosen: seq<Candidate>,
                                   refs: seq<string>)
    requires Generate(inputs, bounds, words).Ok?
    requires forall c :: c in chosen ==> c in Generate(inputs, bounds, words).value
    requires Disjoint(chosen) && |refs| == |chosen| && NoDup(refs) && "" !in refs
    requires CheckedSum(Map(MovementAmount, inputs.movements)).Some?
    requires IsI64(inputs.statement.total - SumOf(MovementAmount, inputs.movements))
    ensures BuildCertificate(inputs, Recordings(inputs.reviewerRef, chosen, refs), false).Ok?
  {
    hide Generate;
    hide Sound;
    hide NoDup;
    hide FlatMap;
    hide TablesOf;
    hide Fold;
    hide Uncovered;
    hide CheckedSum;
    var t, ds := TablesOf(inputs), Recordings(inputs.reviewerRef, chosen, refs);
    forall c | c in chosen ensures NoDup(c.rowIds) && NoDup(c.voucherIds) {
      CandidateSound(inputs, bounds, words, c, "");
    }
    forall d | d in ds ensures Proper(t, d) {
      var i :| 0 <= i < |ds| && ds[i] == d;
      assert chosen[i] in chosen;
      CandidateSound(inputs, bounds, words, chosen[i], refs[i]);
      TablesReviewer(inputs);
    }
    RecordingsDisjoint(inputs.reviewerRef, chosen, refs);
    assert Map(Ref, ds) == refs;
    FoldExact(t, ds);
    GeneratedValid(inputs, bounds, words);
  }

  lemma TablesReviewer(inputs: Inputs)
    ensures TablesOf(inputs).reviewer == inputs.reviewerRef
  {
  }

  lemma GeneratedValid(inputs: Inputs, bounds: Bounds, words: Words)
    requires Generate(inputs, bounds, words).Ok?
    ensures ValidateInputs(inputs).Ok?
  {
  }
}
