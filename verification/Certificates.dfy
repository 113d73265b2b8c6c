/** Certificates folded from human decisions, and their independent verification. */
module Certificates {
  import opened Wrappers
  import opened Numbers
  import opened Sequences
  import opened Sorting
  import opened StatementData
  import opened Evidence

  datatype Disposition = Accept | Reject | Split | Merge | Defer

  datatype References = References(rowIds: seq<string>, voucherIds: seq<int>)

  datatype Decision = Decision(ref: string, decidedBy: string, disposition: Disposition, evidence: References)

  datatype Accepted = Accepted(
    ref: string,
    disposition: Disposition,
    evidence: References,
    rowTotal: int,
    movementTotal: int,
    reviewerRef: string
  )

  datatype Certificate = Certificate(
    snapshotRef: string,
    cutoff: string,
    sourceInputs: Inputs,
    decisions: seq<Decision>,
    accepted: seq<Accepted>,
    uncoveredRows: seq<string>,
    uncoveredVouchers: seq<int>,
    statementTotal: int,
    ledgerTotal: int,
    residual: int,
    closed: bool
  )

  // ----- look-up tables

  /** The amount under each key; a later element replaces an earlier one. */
  function Amounts<T, K>(key: T -> K, amount: T -> int, xs: seq<T>): map<K, int> {
    if xs == [] then map[]
    else Amounts(key, amount, xs[..|xs| - 1])[key(xs[|xs| - 1]) := amount(xs[|xs| - 1])]
  }

  function Lookup<K>(amounts: map<K, int>): K -> int {
    k => if k in amounts then amounts[k] else 0
  }

  datatype Tables = Tables(reviewer: string, rows: map<string, int>, vouchers: map<int, int>)

  function TablesOf(inputs: Inputs): Tables {
    Tables(
      inputs.reviewerRef,
      Amounts(Identity, RowAmount, inputs.statement.rows),
      Amounts(VoucherId, MovementAmount, inputs.movements))
  }

  lemma {:induction false} AmountsKeys<T, K>(key: T -> K, amount: T -> int, xs: seq<T>)
    ensures Amounts(key, amount, xs).Keys == Elements(Map(key, xs))
  {
    if xs != [] {
      AmountsKeys(key, amount, xs[..|xs| - 1]);
      assert xs == xs[..|xs| - 1] + [xs[|xs| - 1]];
      MapSnoc(key, xs[..|xs| - 1], xs[|xs| - 1]);
      ElementsConcat(Map(key, xs[..|xs| - 1]), [key(xs[|xs| - 1])]);
    }
  }

  /** Without repeated keys, summing by key is summing by element. */
  lemma {:induction false} AmountsSum<T, K>(key: T -> K, amount: T -> int, xs: seq<T>)
    requires NoDup(Map(key, xs))
    ensures SumOf(Lookup(Amounts(key, amount, xs)), Map(key, xs)) == SumOf(amount, xs)
  {
    if xs != [] {
      var init, last := xs[..|xs| - 1], xs[|xs| - 1];
      assert xs == init + [last];
      MapSnoc(key, init, last);
      NoDupSnoc(Map(key, init), key(last));
      AmountsSum(key, amount, init);
      var all, before := Lookup(Amounts(key, amount, xs)), Lookup(Amounts(key, amount, init));
      SumOfSnoc(all, Map(key, init), key(last));
      SumOfSame(all, before, Map(key, init));
      SumOfSnoc(amount, init, last);
    }
  }

  // ----- covering the evidence of one decision

  function Cover<K>(amounts: map<K, int>, covered: set<K>, ids: seq<K>): Result<(set<K>, int), Error> {
    if ids == [] then Ok((covered, 0)) else
    var (before, total) :- Cover(amounts, covered, ids[..|ids| - 1]);
    var id := ids[|ids| - 1];
    if id !in amounts then Err(UnknownEvidence)
    else if id in before then Err(DuplicateCoverage)
    else if !IsI64(total + amounts[id]) then Err(ArithmeticOverflow)
    else Ok((before + {id}, total + amounts[id]))
  }

  lemma {:induction false} CoverPrefix<K>(amounts: map<K, int>, covered: set<K>, ids: seq<K>, k: nat)
    requires k <= |ids| && Cover(amounts, covered, ids[..k]).Err?
    ensures Cover(amounts, covered, ids) == Cover(amounts, covered, ids[..k])
  {
    if k < |ids| {
      assert ids[..|ids| - 1][..k] == ids[..k];
      CoverPrefix(amounts, covered, ids[..|ids| - 1], k);
    } else {
      assert ids[..k] == ids;
    }
  }

  method CoverEach<K(==)>(amounts: map<K, int>, covered: set<K>, ids: seq<K>) returns (r: Result<(set<K>, int), Error>)
    ensures r == Cover(amounts, covered, ids)
  {
    var now, total := covered, 0;
    for i := 0 to |ids|
      invariant Cover(amounts, covered, ids[..i]) == Ok((now, total))
    {
      var id := ids[i];
      assert ids[..i + 1][..i] == ids[..i];
      if id !in amounts {
        CoverPrefix(amounts, covered, ids, i + 1);
        return Err(UnknownEvidence);
      }
      if id in now {
        CoverPrefix(amounts, covered, ids, i + 1);
        return Err(DuplicateCoverage);
      }
      if !IsI64(total + amounts[id]) {
        CoverPrefix(amounts, covered, ids, i + 1);
        return Err(ArithmeticOverflow);
      }
      now, total := now + {id}, total + amounts[id];
    }
    assert ids[..|ids|] == ids;
    r := Ok((now, total));
  }

  /** Evidence can be covered just when it is known, fresh, unrepeated and its sum does not overflow. */
  lemma {:induction false} CoverExact<K>(amounts: map<K, int>, covered: set<K>, ids: seq<K>)
    ensures Cover(amounts, covered, ids).Ok? <==>
      && Elements(ids) <= amounts.Keys && Elements(ids) !! covered
      && NoDup(ids) && CheckedSum(Map(Lookup(amounts), ids)).Some?
    ensures Cover(amounts, covered, ids).Ok? ==>
      && Cover(amounts, covered, ids).value.1 == SumOf(Lookup(amounts), ids)
      && Cover(amounts, covered, ids).value.0 == covered + Elements(ids)
  {
    if ids != [] {
      var init, last := ids[..|ids| - 1], ids[|ids| - 1];
      assert ids == init + [last];
      CoverExact(amounts, covered, init);
      ElementsConcat(init, [last]);
      assert Elements([last]) == {last};
      NoDupSnoc(init, last);
      MapSnoc(Lookup(amounts), init, last);
      var sums := Map(Lookup(amounts), ids);
      assert sums[..|sums| - 1] == Map(Lookup(amounts), init);
      SumOfSnoc(Lookup(amounts), init, last);
    }
  }

  // ----- folding the decisions

  predicate Accepts(d: Decision) {
    d.disposition == Accept || d.disposition == Split || d.disposition == Merge
  }

  datatype Folded = Folded(refs: set<string>, rows: set<string>, vouchers: set<int>, accepted: seq<Accepted>)

  /** Admits one decision behind those already folded. */
  function Admit(t: Tables, f: Folded, d: Decision): Result<Folded, Error> {
    if d.ref == "" || d.ref in f.refs then Err(InvalidDecisionRef)
    else if d.decidedBy != t.reviewer then Err(WrongReviewer)
    else if !Accepts(d) then Ok(f.(refs := f.refs + {d.ref}))
    else if d.evidence.rowIds == [] || d.evidence.voucherIds == [] then Err(EmptyAcceptedSet)
    else
      var (rows, rowTotal) :- Cover(t.rows, f.rows, d.evidence.rowIds);
      var (vouchers, movementTotal) :- Cover(t.vouchers, f.vouchers, d.evidence.voucherIds);
      if rowTotal != movementTotal then Err(UnknownEvidence) else
      Ok(Folded(f.refs + {d.ref}, rows, vouchers,
                f.accepted + [Accepted(d.ref, d.disposition, d.evidence, rowTotal, movementTotal, t.reviewer)]))
  }

  function Fold(t: Tables, ds: seq<Decision>): Result<Folded, Error> {
    if ds == [] then Ok(Folded({}, {}, {}, [])) else
    var before :- Fold(t, ds[..|ds| - 1]);
    Admit(t, before, ds[|ds| - 1])
  }

  lemma {:induction false} FoldPrefix(t: Tables, ds: seq<Decision>, k: nat)
    requires k <= |ds| && Fold(t, ds[..k]).Err?
    ensures Fold(t, ds) == Fold(t, ds[..k])
  {
    if k < |ds| {
      assert ds[..|ds| - 1][..k] == ds[..k];
      FoldPrefix(t, ds[..|ds| - 1], k);
    } else {
      assert ds[..k] == ds;
    }
  }

  method AdmitDecision(t: Tables, f: Folded, d: Decision) returns (r: Result<Folded, Error>)
    ensures r == Admit(t, f, d)
  {
    if d.ref == "" || d.ref in f.refs {
      return Err(InvalidDecisionRef);
    }
    var refs := f.refs + {d.ref};
    if d.decidedBy != t.reviewer {
      return Err(WrongReviewer);
    }
    if !Accepts(d) {
      return Ok(f.(refs := refs));
    }
    if d.evidence.rowIds == [] || d.evidence.voucherIds == [] {
      return Err(EmptyAcceptedSet);
    }
    var rows :- CoverEach(t.rows, f.rows, d.evidence.rowIds);
    var vouchers :- CoverEach(t.vouchers, f.vouchers, d.evidence.voucherIds);
    if rows.1 != vouchers.1 {
      return Err(UnknownEvidence);
    }
    var entry := Accepted(d.ref, d.disposition, d.evidence, rows.1, vouchers.1, t.reviewer);
    r := Ok(Folded(refs, rows.0, vouchers.0, f.accepted + [entry]));
  }

  method FoldDecisions(t: Tables, ds: seq<Decision>) returns (r: Result<Folded, Error>)
    ensures r == Fold(t, ds)
  {
    hide Admit;
    var folded := Folded({}, {}, {}, []);
    for i := 0 to |ds|
      invariant Fold(t, ds[..i]) == Ok(folded)
    {
      assert ds[..i + 1][..i] == ds[..i];
      var next := AdmitDecision(t, folded, ds[i]);
      if next.Err? {
        FoldPrefix(t, ds, i + 1);
        return next;
      }
      folded := next.value;
    }
    assert ds[..|ds|] == ds;
    r := Ok(folded);
  }

  // ----- the certificate

  /** The keys not covered, in ascending order. */
  function Uncovered<K(!new)>(lt: Less<K>, keys: seq<K>, covered: set<K>): seq<K> {
    Filter(k => k !in covered, Sort(lt, keys))
  }

  function BuildCertificate(inputs: Inputs, ds: seq<Decision>, requestClose: bool): Result<Certificate, Error> {
    var _ :- ValidateInputs(inputs);
    var folded :- Fold(TablesOf(inputs), ds);
    var uncoveredRows := Uncovered(StringLess, RowIds(inputs), folded.rows);
    var uncoveredVouchers := Uncovered(IntLess, VoucherIds(inputs), folded.vouchers);
    var ledgerTotal :- CheckedTotal(Map(MovementAmount, inputs.movements));
    var residual := inputs.statement.total - ledgerTotal;
    if !IsI64(residual) then Err(ArithmeticOverflow) else
    var closed := uncoveredRows == [] && uncoveredVouchers == [] && residual == 0;
    if requestClose && !closed then Err(IncompleteClose) else
    Ok(Certificate(
         inputs.snapshotRef, inputs.statement.cutoff, inputs, ds, folded.accepted,
         uncoveredRows, uncoveredVouchers, inputs.statement.total, ledgerTotal, residual, closed))
  }

  method Build(inputs: Inputs, ds: seq<Decision>, requestClose: bool) returns (r: Result<Certificate, Error>)
    ensures r == BuildCertificate(inputs, ds, requestClose)
  {
    hide ValidateInputs;
    hide Fold;
    hide TablesOf;
    hide Uncovered;
    hide CheckedTotal;
    var _ :- Validate(inputs);
    var folded :- FoldDecisions(TablesOf(inputs), ds);
    var uncoveredRows := Uncovered(StringLess, RowIds(inputs), folded.rows);
    var uncoveredVouchers := Uncovered(IntLess, VoucherIds(inputs), folded.vouchers);
    var ledgerTotal :- CheckedTotal(Map(MovementAmount, inputs.movements));
    var residual := inputs.statement.total - ledgerTotal;
    if !IsI64(residual) {
      return Err(ArithmeticOverflow);
    }
    var closed := uncoveredRows == [] && uncoveredVouchers == [] && residual == 0;
    if requestClose && !closed {
      return Err(IncompleteClose);
    }
    r := Ok(Certificate(
              inputs.snapshotRef, inputs.statement.cutoff, inputs, ds, folded.accepted,
              uncoveredRows, uncoveredVouchers, inputs.statement.total, ledgerTotal, residual, closed));
  }

  function VerifyCertificate(inputs: Inputs, ds: seq<Decision>, certificate: Certificate): Result<Certificate, Error> {
    if certificate.sourceInputs != inputs || certificate.decisions != ds then Err(CertificateMismatch) else
    var recomputed :- BuildCertificate(inputs, ds, certificate.closed);
    if recomputed != certificate then Err(CertificateMismatch) else Ok(recomputed)
  }

  /** A certificate verifies exactly when it is what the same inputs and decisions give. */
  lemma VerifyExact(inputs: Inputs, ds: seq<Decision>, certificate: Certificate)
    ensures VerifyCertificate(inputs, ds, certificate).Ok? <==> BuildCertificate(inputs, ds, false) == Ok(certificate)
    ensures VerifyCertificate(inputs, ds, certificate).Ok? ==>
      VerifyCertificate(inputs, ds, certificate).value == certificate
  {
    hide ValidateInputs;
    hide Fold;
    hide Uncovered;
    hide CheckedTotal;
  }

  /** Why one decision is refused, in the order of the checks. */
  lemma AdmitRefusals(t: Tables, f: Folded, d: Decision)
    ensures
      var r := Admit(t, f, d);
      var named := d.ref != "" && d.ref !in f.refs;
      && (r == Err(InvalidDecisionRef) <==> !named)
      && (r == Err(WrongReviewer) <==> named && d.decidedBy != t.reviewer)
      && (r == Err(EmptyAcceptedSet) <==>
            && named && d.decidedBy == t.reviewer && d.disposition in {Accept, Split, Merge}
            && (d.evidence.rowIds == [] || d.evidence.voucherIds == []))
  {
    CoverErrors(t.rows, f.rows, d.evidence.rowIds);
    CoverErrors(t.vouchers, f.vouchers, d.evidence.voucherIds);
    hide Cover;
  }

  lemma {:induction false} CoverErrors<K>(amounts: map<K, int>, covered: set<K>, ids: seq<K>)
    ensures Cover(amounts, covered, ids).Err? ==>
      Cover(amounts, covered, ids).error in {UnknownEvidence, DuplicateCoverage, ArithmeticOverflow}
  {
    if ids != [] {
      CoverErrors(amounts, covered, ids[..|ids| - 1]);
    }
  }

  /** Covering fails at id number `k`: it is unknown, already covered, or takes the sum beyond 64 bits. */
  ghost predicate CoverFailsAt<K>(amounts: map<K, int>, covered: set<K>, ids: seq<K>, k: nat, error: Error) {
    && k < |ids| && Elements(ids[..k]) <= amounts.Keys && Elements(ids[..k]) !! covered && NoDup(ids[..k])
    && (error == UnknownEvidence <==> ids[k] !in amounts)
    && (error == DuplicateCoverage <==> ids[k] in amounts && (ids[k] in covered || ids[k] in ids[..k]))
    && (error == ArithmeticOverflow <==> ids[k] in amounts && ids[k] !in covered && ids[k] !in ids[..k])
    && (error == ArithmeticOverflow ==> !IsI64(SumOf(Lookup(amounts), ids[..k]) + amounts[ids[k]]))
  }

  lemma CoverFailsLater<K>(amounts: map<K, int>, covered: set<K>, ids: seq<K>, k: nat, error: Error)
    requires ids != [] && CoverFailsAt(amounts, covered, ids[..|ids| - 1], k, error)
    ensures CoverFailsAt(amounts, covered, ids, k, error)
  {
    assert ids[..|ids| - 1][..k] == ids[..k];
  }

  lemma CoverFailsLast<K>(amounts: map<K, int>, covered: set<K>, ids: seq<K>)
    requires ids != [] && Cover(amounts, covered, ids[..|ids| - 1]).Ok? && Cover(amounts, covered, ids).Err?
    ensures CoverFailsAt(amounts, covered, ids, |ids| - 1, Cover(amounts, covered, ids).error)
  {
    var init, id := ids[..|ids| - 1], ids[|ids| - 1];
    CoverExact(amounts, covered, init);
    assert id in Elements(init) <==> id in init;
    hide SumOf;
    hide NoDup;
  }

  /** Evidence is refused at its first bad id, for that id. */
  lemma {:induction false} CoverRefusals<K>(amounts: map<K, int>, covered: set<K>, ids: seq<K>) returns (k: nat)
    requires Cover(amounts, covered, ids).Err?
    ensures CoverFailsAt(amounts, covered, ids, k, Cover(amounts, covered, ids).error)
  {
    hide CoverFailsAt;
    if Cover(amounts, covered, ids[..|ids| - 1]).Err? {
      k := CoverRefusals(amounts, covered, ids[..|ids| - 1]);
      CoverFailsLater(amounts, covered, ids, k, Cover(amounts, covered, ids).error);
    } else {
      k := |ids| - 1;
      CoverFailsLast(amounts, covered, ids);
    }
  }
}
