/** What stands in a certificate, in the terms of the decisions and the inputs. */
module CertificateContents {
  import opened Wrappers
  import opened Numbers
  import opened Sequences
  import opened Sorting
  import opened StatementData
  import opened Evidence
  import opened Candidates
  import opened Certificates
  import opened CertificateProperties

  /** The dispositions that cover evidence. */
  predicate Accepting(d: Decision) {
    match d.disposition
    case Accept => true
    case Reject => false
    case Split => true
    case Merge => true
    case Defer => false
  }

  /** The entry repeats what the decision says, under the reviewer of the inputs. */
  predicate Repeats(inputs: Inputs, a: Accepted, d: Decision) {
    a.ref == d.ref && a.disposition == d.disposition && a.evidence == d.evidence && a.reviewerRef == inputs.reviewerRef
  }

  ghost predicate AllRepeated(t: Tables, entries: seq<Accepted>, ds: seq<Decision>) {
    && |entries| == |ds|
    && forall i :: 0 <= i < |ds| ==>
         && entries[i].ref == ds[i].ref && entries[i].disposition == ds[i].disposition
         && entries[i].evidence == ds[i].evidence && entries[i].reviewerRef == t.reviewer
  }

  lemma AllRepeatedSnoc(t: Tables, entries: seq<Accepted>, ds: seq<Decision>, a: Accepted, d: Decision)
    requires AllRepeated(t, entries, ds)
    requires a.ref == d.ref && a.disposition == d.disposition && a.evidence == d.evidence && a.reviewerRef == t.reviewer
    ensures AllRepeated(t, entries + [a], ds + [d])
  {
  }

  lemma AdmitAdds(t: Tables, f: Folded, d: Decision)
    requires Admit(t, f, d).Ok?
    ensures
      var after := Admit(t, f, d).value.accepted;
      if Accepting(d) then
        && |after| == |f.accepted| + 1 && after[..|f.accepted|] == f.accepted
        && var a := after[|f.accepted|];
           a.ref == d.ref && a.disposition == d.disposition && a.evidence == d.evidence && a.reviewerRef == t.reviewer
      else after == f.accepted
  {
    hide Cover;
  }

  lemma FoldSnoc(t: Tables, ds: seq<Decision>, d: Decision)
    ensures Fold(t, ds + [d]) == if Fold(t, ds).Err? then Fold(t, ds) else Admit(t, Fold(t, ds).value, d)
  {
    hide Admit;
    assert (ds + [d])[..|ds|] == ds;
  }

  lemma NothingFolded(t: Tables)
    ensures Fold(t, []) == Ok(Folded({}, {}, {}, [])) && AllRepeated(t, [], Filter(Accepting, []))
  {
  }

  lemma FilterKept(ds: seq<Decision>, d: Decision)
    ensures Filter(Accepting, ds + [d]) == if Accepting(d) then Filter(Accepting, ds) + [d] else Filter(Accepting, ds)
  {
    FilterSnoc(Accepting, ds, d);
    assert Filter(Accepting, ds) + [] == Filter(Accepting, ds);
  }

  lemma {:induction false} FoldRepeats(t: Tables, ds: seq<Decision>)
    requires Fold(t, ds).Ok?
    ensures AllRepeated(t, Fold(t, ds).value.accepted, Filter(Accepting, ds))
  {
    hide Fold;
    hide Filter;
    hide Admit;
    hide AllRepeated;
    hide Accepting;
    if ds == [] {
      NothingFolded(t);
    } else {
      var init, last := ds[..|ds| - 1], ds[|ds| - 1];
      assert ds == init + [last];
      FoldSnoc(t, init, last);
      FoldRepeats(t, init);
      FilterKept(init, last);
      var before, after := Fold(t, init).value.accepted, Fold(t, ds).value.accepted;
      AdmitAdds(t, Fold(t, init).value, last);
      if Accepting(last) {
        assert after == before + [after[|before|]];
        AllRepeatedSnoc(t, before, Filter(Accepting, init), after[|before|], last);
      }
    }
  }

  /** Some decision that covers evidence names the row. */
  ghost predicate RowNamed(ds: seq<Decision>, id: string) {
    exists d :: d in ds && Accepting(d) && id in d.evidence.rowIds
  }

  ghost predicate VoucherNamed(ds: seq<Decision>, id: int) {
    exists d :: d in ds && Accepting(d) && id in d.evidence.voucherIds
  }

  lemma NamedCovered(ds: seq<Decision>)
    ensures forall id :: id in FlatMap(AcceptedRows, ds) <==> RowNamed(ds, id)
    ensures forall id :: id in FlatMap(AcceptedVouchers, ds) <==> VoucherNamed(ds, id)
  {
    forall id ensures id in FlatMap(AcceptedRows, ds) <==> RowNamed(ds, id) {
      FlatMapIn(AcceptedRows, ds, id);
    }
    forall id ensures id in FlatMap(AcceptedVouchers, ds) <==> VoucherNamed(ds, id) {
      FlatMapIn(AcceptedVouchers, ds, id);
    }
  }

  lemma UncoveredRowsExact(keys: seq<string>, covered: set<string>)
    requires NoDup(keys)
    ensures forall id :: id in Uncovered(StringLess, keys, covered) <==> id in keys && id !in covered
    ensures
      var ids := Uncovered(StringLess, keys, covered);
      forall i, j :: 0 <= i < j < |ids| ==> TextBefore(ids[i], ids[j])
  {
    hide TextBefore;
    hide Lex;
    StringsOrdered();
    SortAscending(StringLess, keys);
    PermutedMembers(Sort(StringLess, keys), keys);
    FilterAscending(StringLess, k => k !in covered, Sort(StringLess, keys));
    TextsAscend(Uncovered(StringLess, keys, covered));
  }

  lemma UncoveredVouchersExact(keys: seq<int>, covered: set<int>)
    requires NoDup(keys)
    ensures forall id :: id in Uncovered(IntLess, keys, covered) <==> id in keys && id !in covered
    ensures
      var ids := Uncovered(IntLess, keys, covered);
      forall i, j :: 0 <= i < j < |ids| ==> ids[i] < ids[j]
  {
    SortAscending(IntLess, keys);
    PermutedMembers(Sort(IntLess, keys), keys);
    FilterAscending(IntLess, k => k !in covered, Sort(IntLess, keys));
    IntsAscend(Uncovered(IntLess, keys, covered));
  }

  lemma AscendingSnoc<T>(lt: Less<T>, xs: seq<T>, x: T)
    ensures Ascending(lt, xs + [x]) <==> Ascending(lt, xs) && forall i :: 0 <= i < |xs| ==> lt(xs[i], x)
  {
    var all := xs + [x];
    assert all[|xs|] == x;
    assert forall i :: 0 <= i < |xs| ==> all[i] == xs[i];
  }

  lemma {:induction false} FilterAscending<T(!new)>(lt: Less<T>, p: T -> bool, xs: seq<T>)
    requires Ascending(lt, xs)
    ensures Ascending(lt, Filter(p, xs))
  {
    hide Filter;
    if xs == [] {
      FilterNone(p);
    } else {
      hide Ascending;
      var init, last := xs[..|xs| - 1], xs[|xs| - 1];
      assert xs == init + [last];
      AscendingSnoc(lt, init, last);
      FilterAscending(lt, p, init);
      FilterSnoc(p, init, last);
      var kept := Filter(p, init);
      assert kept + [] == kept;
      AscendingSnoc(lt, kept, last);
      forall i | 0 <= i < |kept| ensures lt(kept[i], last) {
        assert kept[i] in kept;
        var k :| 0 <= k < |init| && init[k] == kept[i];
      }
    }
  }

  /**
   A certificate lists, in order, exactly the decisions whose disposition is accept, split
   or merge. Uncovered are, in ascending order, exactly the rows and vouchers that no such
   decision names. Everything else it says is taken from the inputs.
   */
  lemma ContentsExact(inputs: Inputs, ds: seq<Decision>, requestClose: bool)
    requires BuildCertificate(inputs, ds, requestClose).Ok?
    ensures
      var c, kept := BuildCertificate(inputs, ds, requestClose).value, Filter(Accepting, ds);
      && |c.accepted| == |kept| && (forall i :: 0 <= i < |kept| ==> Repeats(inputs, c.accepted[i], kept[i]))
      && (forall id :: id in c.uncoveredRows <==> id in Map(Identity, inputs.statement.rows) && !RowNamed(ds, id))
      && (forall id :: id in c.uncoveredVouchers <==> id in Map(VoucherId, inputs.movements) && !VoucherNamed(ds, id))
      && (forall i, j :: 0 <= i < j < |c.uncoveredRows| ==> TextBefore(c.uncoveredRows[i], c.uncoveredRows[j]))
      && (forall i, j :: 0 <= i < j < |c.uncoveredVouchers| ==> c.uncoveredVouchers[i] < c.uncoveredVouchers[j])
      && c.snapshotRef == inputs.snapshotRef && c.cutoff == inputs.statement.cutoff
      && c.sourceInputs == inputs && c.decisions == ds
      && c.statementTotal == SumOf(RowAmount, inputs.statement.rows)
      && c.ledgerTotal == SumOf(MovementAmount, inputs.movements)
      && c.residual == c.statementTotal - c.ledgerTotal
      && (c.closed <==> c.uncoveredRows == [] && c.uncoveredVouchers == [] && c.residual == 0)
  {
    hide Fold;
    hide Uncovered;
    hide ValidateInputs;
    hide TablesOf;
    hide CheckedTotal;
    hide SumOf;
    hide RowNamed;
    hide VoucherNamed;
    hide TextBefore;
    hide Accepting;
    hide NoDup;
    ReviewerOf(inputs);
    ValidateExact(inputs);
    ValidDistinct(inputs);
    hide ValidInputs;
    var t := TablesOf(inputs);
    FoldExact(t, ds);
    FoldRepeats(t, ds);
    NamedCovered(ds);
    var f := Fold(t, ds).value;
    CoveredSets(t, ds, f);
    hide FoldOf;
    hide Admissible;
    hide FlatMap;
    hide Filter;
    UncoveredRowsExact(RowIds(inputs), f.rows);
    UncoveredVouchersExact(VoucherIds(inputs), f.vouchers);
    TotalsExact(inputs);
  }

  lemma ReviewerOf(inputs: Inputs)
    ensures TablesOf(inputs).reviewer == inputs.reviewerRef
  {
  }

  lemma ValidDistinct(inputs: Inputs)
    requires ValidInputs(inputs)
    ensures NoDup(RowIds(inputs)) && NoDup(VoucherIds(inputs))
  {
  }

  lemma CoveredSets(t: Tables, ds: seq<Decision>, f: Folded)
    requires FoldOf(t, ds, f)
    ensures forall id :: id in f.rows <==> id in FlatMap(AcceptedRows, ds)
    ensures forall id :: id in f.vouchers <==> id in FlatMap(AcceptedVouchers, ds)
  {
    hide FlatMap;
    hide SumOf;
    hide Exact;
  }

  /**
   A certificate is built exactly for valid inputs and admissible decisions, where the
   movements' sums and the residual fit and, when closing is asked for, every row and
   voucher is named and the residual is zero.
   */
  lemma BuildSucceeds(inputs: Inputs, ds: seq<Decision>, requestClose: bool)
    ensures BuildCertificate(inputs, ds, requestClose).Ok? <==>
      && ValidInputs(inputs) && Admissible(TablesOf(inputs), ds)
      && SumsFit(Map(MovementAmount, inputs.movements))
      && IsI64(SumOf(RowAmount, inputs.statement.rows) - SumOf(MovementAmount, inputs.movements))
      && (requestClose ==>
            && (forall id :: id in Map(Identity, inputs.statement.rows) ==> RowNamed(ds, id))
            && (forall id :: id in Map(VoucherId, inputs.movements) ==> VoucherNamed(ds, id))
            && SumOf(RowAmount, inputs.statement.rows) == SumOf(MovementAmount, inputs.movements))
  {
    hide Fold;
    hide Uncovered;
    hide ValidateInputs;
    hide TablesOf;
    hide CheckedSum;
    hide SumOf;
    hide SumsFit;
    hide RowNamed;
    hide VoucherNamed;
    hide TextBefore;
    hide NoDup;
    hide Admissible;
    ValidateExact(inputs);
    var t := TablesOf(inputs);
    FoldExact(t, ds);
    hide FoldOf;
    LedgerTotalOk(inputs);
    if ValidInputs(inputs) && Admissible(t, ds) {
      ValidDistinct(inputs);
      hide ValidInputs;
      NamedCovered(ds);
      var f := Fold(t, ds).value;
      CoveredSets(t, ds, f);
      hide FlatMap;
      UncoveredRowsExact(RowIds(inputs), f.rows);
      UncoveredVouchersExact(VoucherIds(inputs), f.vouchers);
      NoRowsLeft(RowIds(inputs), f.rows, Uncovered(StringLess, RowIds(inputs), f.rows));
      NoVouchersLeft(VoucherIds(inputs), f.vouchers, Uncovered(IntLess, VoucherIds(inputs), f.vouchers));
      TotalsExact(inputs);
    }
  }

  lemma NoRowsLeft(keys: seq<string>, covered: set<string>, left: seq<string>)
    requires forall x :: x in left <==> x in keys && x !in covered
    ensures left == [] <==> forall x :: x in keys ==> x in covered
  {
    if left == [] {
      forall x | x in keys ensures x in covered {
        assert x !in left;
      }
    } else {
      var x := left[0];
      assert x in left;
      assert x in keys && x !in covered;
    }
  }

  lemma NoVouchersLeft(keys: seq<int>, covered: set<int>, left: seq<int>)
    requires forall x :: x in left <==> x in keys && x !in covered
    ensures left == [] <==> forall x :: x in keys ==> x in covered
  {
    if left == [] {
      forall x | x in keys ensures x in covered {
        assert x !in left;
      }
    } else {
      var x := left[0];
      assert x in left;
      assert x in keys && x !in covered;
    }
  }

  lemma LedgerTotalOk(inputs: Inputs)
    ensures CheckedTotal(Map(MovementAmount, inputs.movements)).Ok? <==> SumsFit(Map(MovementAmount, inputs.movements))
  {
    CheckedSumExact(Map(MovementAmount, inputs.movements));
  }
}
