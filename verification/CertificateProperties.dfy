/** Conservation of the bridge, and independence of the order of decisions. */
module CertificateProperties {
  import opened Wrappers
  import opened Sequences
  import opened Sorting
  import opened StatementData
  import opened Evidence
  import opened Certificates

  function Ref(d: Decision): string { d.ref }

  function AcceptedRows(d: Decision): seq<string> {
    if Accepts(d) then d.evidence.rowIds else []
  }

  function AcceptedVouchers(d: Decision): seq<int> {
    if Accepts(d) then d.evidence.voucherIds else []
  }

  /** Known evidence on both sides, with equal sums that do not overflow. */
  ghost predicate Sound(t: Tables, d: Decision) {
    && d.evidence.rowIds != [] && d.evidence.voucherIds != []
    && Elements(d.evidence.rowIds) <= t.rows.Keys
    && Elements(d.evidence.voucherIds) <= t.vouchers.Keys
    && CheckedSum(Map(Lookup(t.rows), d.evidence.rowIds)).Some?
    && CheckedSum(Map(Lookup(t.vouchers), d.evidence.voucherIds)).Some?
    && SumOf(Lookup(t.rows), d.evidence.rowIds) == SumOf(Lookup(t.vouchers), d.evidence.voucherIds)
  }

  ghost predicate Proper(t: Tables, d: Decision) {
    d.ref != "" && d.decidedBy == t.reviewer && (Accepts(d) ==> Sound(t, d))
  }

  /** When a list of decisions is admissible; none of this depends on their order. */
  ghost predicate Admissible(t: Tables, ds: seq<Decision>) {
    && (forall d :: d in ds ==> Proper(t, d))
    && NoDup(Map(Ref, ds))
    && NoDup(FlatMap(AcceptedRows, ds)) && NoDup(FlatMap(AcceptedVouchers, ds))
  }

  /** What the fold of admissible decisions holds. */
  ghost predicate FoldOf(t: Tables, ds: seq<Decision>, f: Folded) {
    && f.refs == Elements(Map(Ref, ds))
    && f.rows == Elements(FlatMap(AcceptedRows, ds))
    && f.vouchers == Elements(FlatMap(AcceptedVouchers, ds))
    && SumOf(Lookup(t.rows), FlatMap(AcceptedRows, ds)) == SumOf(Lookup(t.vouchers), FlatMap(AcceptedVouchers, ds))
    && FlatMap(EntryRows, f.accepted) == FlatMap(AcceptedRows, ds)
    && FlatMap(EntryVouchers, f.accepted) == FlatMap(AcceptedVouchers, ds)
    && (forall a :: a in f.accepted ==> Exact(t, a))
  }

  function EntryRows(a: Accepted): seq<string> { a.evidence.rowIds }
  function EntryVouchers(a: Accepted): seq<int> { a.evidence.voucherIds }

  /** The totals of an accepted entry are the equal sums of its two sides. */
  ghost predicate Exact(t: Tables, a: Accepted) {
    a.rowTotal == a.movementTotal
    == SumOf(Lookup(t.rows), a.evidence.rowIds) == SumOf(Lookup(t.vouchers), a.evidence.voucherIds)
  }

  lemma FlatMapSnoc<A, B>(f: A -> seq<B>, xs: seq<A>, x: A)
    ensures FlatMap(f, xs + [x]) == FlatMap(f, xs) + f(x)
  {
    assert (xs + [x])[..|xs|] == xs;
  }

  /** The evidence of a decision is neither repeated nor used before. */
  ghost predicate Fresh(ds: seq<Decision>, d: Decision) {
    && NoDup(AcceptedRows(d)) && Elements(FlatMap(AcceptedRows, ds)) !! Elements(AcceptedRows(d))
    && NoDup(AcceptedVouchers(d)) && Elements(FlatMap(AcceptedVouchers, ds)) !! Elements(AcceptedVouchers(d))
  }

  lemma CoverSound(t: Tables, ds: seq<Decision>, f: Folded, d: Decision)
    requires FoldOf(t, ds, f) && Accepts(d)
    ensures
      var rows := Cover(t.rows, f.rows, d.evidence.rowIds);
      var vouchers := Cover(t.vouchers, f.vouchers, d.evidence.voucherIds);
      (&& d.evidence.rowIds != [] && d.evidence.voucherIds != [] && rows.Ok? && vouchers.Ok?
       && rows.value.1 == vouchers.value.1)
      <==> Sound(t, d) && Fresh(ds, d)
  {
    hide NoDup;
    hide Cover;
    hide FlatMap;
    hide SumOf;
    hide CheckedSum;
    hide Map;
    CoverExact(t.rows, f.rows, d.evidence.rowIds);
    CoverExact(t.vouchers, f.vouchers, d.evidence.voucherIds);
  }

  /** Whether one more decision is admitted, in terms of the lists. */
  lemma AdmitExact(t: Tables, ds: seq<Decision>, f: Folded, d: Decision)
    requires FoldOf(t, ds, f)
    ensures Admit(t, f, d).Ok? <==> Proper(t, d) && d.ref !in Map(Ref, ds) && Fresh(ds, d)
  {
    hide Cover;
    hide FlatMap;
    hide SumOf;
    hide Sound;
    if Accepts(d) {
      hide Fresh;
      CoverSound(t, ds, f, d);
    }
  }

  lemma FoldOfRejected(t: Tables, ds: seq<Decision>, f: Folded, d: Decision)
    requires FoldOf(t, ds, f) && !Accepts(d)
    ensures FoldOf(t, ds + [d], f.(refs := f.refs + {d.ref}))
  {
    MapSnoc(Ref, ds, d);
    FlatMapSnoc(AcceptedRows, ds, d);
    FlatMapSnoc(AcceptedVouchers, ds, d);
    hide FlatMap;
    hide SumOf;
    hide Exact;
    ElementsConcat(Map(Ref, ds), [d.ref]);
    assert FlatMap(AcceptedRows, ds + [d]) == FlatMap(AcceptedRows, ds);
    assert FlatMap(AcceptedVouchers, ds + [d]) == FlatMap(AcceptedVouchers, ds);
  }

  lemma FoldOfAccepted(t: Tables, ds: seq<Decision>, f: Folded, d: Decision, g: Folded, entry: Accepted)
    requires FoldOf(t, ds, f) && Accepts(d)
    requires entry.evidence == d.evidence && Exact(t, entry)
    requires g.refs == f.refs + {d.ref} && g.accepted == f.accepted + [entry]
    requires g.rows == f.rows + Elements(d.evidence.rowIds)
    requires g.vouchers == f.vouchers + Elements(d.evidence.voucherIds)
    ensures FoldOf(t, ds + [d], g)
  {
    MapSnoc(Ref, ds, d);
    FlatMapSnoc(AcceptedRows, ds, d);
    FlatMapSnoc(AcceptedVouchers, ds, d);
    FlatMapSnoc(EntryRows, f.accepted, entry);
    FlatMapSnoc(EntryVouchers, f.accepted, entry);
    hide FlatMap;
    hide SumOf;
    ElementsConcat(Map(Ref, ds), [d.ref]);
    ElementsConcat(FlatMap(AcceptedRows, ds), AcceptedRows(d));
    ElementsConcat(FlatMap(AcceptedVouchers, ds), AcceptedVouchers(d));
    SumOfConcat(Lookup(t.rows), FlatMap(AcceptedRows, ds), AcceptedRows(d));
    SumOfConcat(Lookup(t.vouchers), FlatMap(AcceptedVouchers, ds), AcceptedVouchers(d));
  }

  lemma AdmitFold(t: Tables, ds: seq<Decision>, f: Folded, d: Decision)
    requires FoldOf(t, ds, f) && Admit(t, f, d).Ok?
    ensures FoldOf(t, ds + [d], Admit(t, f, d).value)
  {
    hide Cover;
    hide FoldOf;
    hide SumOf;
    if Accepts(d) {
      CoverExact(t.rows, f.rows, d.evidence.rowIds);
      CoverExact(t.vouchers, f.vouchers, d.evidence.voucherIds);
      var g := Admit(t, f, d).value;
      FoldOfAccepted(t, ds, f, d, g, g.accepted[|f.accepted|]);
    } else {
      FoldOfRejected(t, ds, f, d);
    }
  }

  lemma AdmissibleSnoc(t: Tables, ds: seq<Decision>, d: Decision)
    ensures Admissible(t, ds + [d]) <==>
      Admissible(t, ds) && Proper(t, d) && d.ref !in Map(Ref, ds) && Fresh(ds, d)
  {
    MapSnoc(Ref, ds, d);
    FlatMapSnoc(AcceptedRows, ds, d);
    FlatMapSnoc(AcceptedVouchers, ds, d);
    hide FlatMap;
    hide NoDup;
    hide Proper;
    NoDupSnoc(Map(Ref, ds), d.ref);
    NoDupConcat(FlatMap(AcceptedRows, ds), AcceptedRows(d));
    NoDupConcat(FlatMap(AcceptedVouchers, ds), AcceptedVouchers(d));
    assert forall e :: e in ds + [d] <==> e in ds || e == d;
  }

  /** Folding succeeds exactly on admissible lists. */
  lemma {:induction false} FoldExact(t: Tables, ds: seq<Decision>)
    ensures Fold(t, ds).Ok? <==> Admissible(t, ds)
    ensures Fold(t, ds).Ok? ==> FoldOf(t, ds, Fold(t, ds).value)
  {
    if ds == [] {
      FoldOfNothing(t);
    } else {
      hide Admit;
      hide Admissible;
      hide FoldOf;
      var init, last := ds[..|ds| - 1], ds[|ds| - 1];
      assert ds == init + [last];
      FoldExact(t, init);
      AdmissibleSnoc(t, init, last);
      if Fold(t, init).Ok? {
        AdmitExact(t, init, Fold(t, init).value, last);
        if Fold(t, ds).Ok? {
          AdmitFold(t, init, Fold(t, init).value, last);
        }
      }
    }
  }

  lemma FoldOfNothing(t: Tables)
    ensures FoldOf(t, [], Folded({}, {}, {}, [])) && Admissible(t, [])
  {
  }

  // ----- order of decisions

  lemma AdmissiblePermuted(t: Tables, ds: seq<Decision>, es: seq<Decision>)
    requires multiset(ds) == multiset(es) && Admissible(t, ds)
    ensures Admissible(t, es)
  {
    hide Proper;
    hide NoDup;
    ElementsPermuted(ds, es);
    assert forall d :: d in es <==> d in Elements(es);
    assert forall d :: d in ds <==> d in Elements(ds);
    MapPermuted(Ref, ds, es);
    NoDupPermuted(Map(Ref, ds), Map(Ref, es));
    FlatMapPermuted(AcceptedRows, ds, es);
    NoDupPermuted(FlatMap(AcceptedRows, ds), FlatMap(AcceptedRows, es));
    FlatMapPermuted(AcceptedVouchers, ds, es);
    NoDupPermuted(FlatMap(AcceptedVouchers, ds), FlatMap(AcceptedVouchers, es));
  }

  /** Folding a permutation covers the same rows and vouchers. */
  lemma FoldPermuted(t: Tables, ds: seq<Decision>, es: seq<Decision>)
    requires multiset(ds) == multiset(es) && Fold(t, ds).Ok?
    ensures Fold(t, es).Ok?
    ensures Fold(t, es).value.rows == Fold(t, ds).value.rows
    ensures Fold(t, es).value.vouchers == Fold(t, ds).value.vouchers
  {
    hide Fold;
    hide FlatMap;
    hide Admissible;
    FoldExact(t, ds);
    AdmissiblePermuted(t, ds, es);
    FoldExact(t, es);
    FlatMapPermuted(AcceptedRows, ds, es);
    ElementsPermuted(FlatMap(AcceptedRows, ds), FlatMap(AcceptedRows, es));
    FlatMapPermuted(AcceptedVouchers, ds, es);
    ElementsPermuted(FlatMap(AcceptedVouchers, ds), FlatMap(AcceptedVouchers, es));
  }

  /**
   Permuting the decisions of a certificate changes neither its acceptance nor what is
   left uncovered, nor its totals, nor whether it is closed.
   */
  lemma CertificatePermuted(inputs: Inputs, ds: seq<Decision>, es: seq<Decision>, requestClose: bool)
    requires multiset(ds) == multiset(es) && BuildCertificate(inputs, ds, requestClose).Ok?
    ensures BuildCertificate(inputs, es, requestClose).Ok?
    ensures
      var a := BuildCertificate(inputs, ds, requestClose).value;
      var b := BuildCertificate(inputs, es, requestClose).value;
      && b.uncoveredRows == a.uncoveredRows && b.uncoveredVouchers == a.uncoveredVouchers
      && b.statementTotal == a.statementTotal && b.ledgerTotal == a.ledgerTotal
      && b.residual == a.residual && b.closed == a.closed
  {
    hide ValidateInputs;
    hide Fold;
    hide TablesOf;
    hide Uncovered;
    hide CheckedTotal;
    FoldPermuted(TablesOf(inputs), ds, es);
  }

  // ----- conservation

  lemma {:induction false} FilterNoDup<T(!new)>(p: T -> bool, xs: seq<T>)
    requires NoDup(xs)
    ensures NoDup(Filter(p, xs))
  {
    if xs != [] {
      hide NoDup;
      var init, last := xs[..|xs| - 1], xs[|xs| - 1];
      assert xs == init + [last];
      NoDupSnoc(init, last);
      FilterNoDup(p, init);
      NoDupSnoc(Filter(p, init), last);
      assert Filter(p, init) + [] == Filter(p, init);
    }
  }

  /** Uncovered keys and covered keys together are all keys, each once. */
  lemma UncoveredSplit<K(!new)>(lt: Less<K>, keys: seq<K>, used: seq<K>)
    requires StrictTotal(lt) && NoDup(keys) && NoDup(used) && Elements(used) <= Elements(keys)
    ensures multiset(keys) == multiset(used) + multiset(Uncovered(lt, keys, Elements(used)))
    ensures NoDup(Uncovered(lt, keys, Elements(used)))
  {
    hide StrictTotal;
    hide NoDup;
    hide Sort;
    var sorted, covered := Sort(lt, keys), Elements(used);
    SortAscending(lt, keys);
    var rest := Filter(k => k !in covered, sorted);
    FilterNoDup(k => k !in covered, sorted);
    assert Uncovered(lt, keys, covered) == rest;
    assert forall k :: k in used <==> k in covered;
    assert forall k :: k in keys <==> k in Elements(keys);
    NoDupConcat(used, rest);
    SameMembers(sorted, used + rest);
  }

  lemma SumSplit<T>(f: T -> int, all: seq<T>, a: seq<T>, b: seq<T>)
    requires multiset(all) == multiset(a) + multiset(b)
    ensures SumOf(f, all) == SumOf(f, a) + SumOf(f, b)
  {
    assert multiset(a + b) == multiset(all);
    SumOfPermuted(f, all, a + b);
    SumOfConcat(f, a, b);
  }

  /** Conservation on one side: the total is what is used plus what is uncovered. */
  lemma SideConserved<T, K(!new)>(lt: Less<K>, key: T -> K, amount: T -> int, xs: seq<T>, used: seq<K>)
    requires StrictTotal(lt) && NoDup(Map(key, xs)) && NoDup(used)
    requires Elements(used) <= Amounts(key, amount, xs).Keys
    ensures
      var lookup, rest := Lookup(Amounts(key, amount, xs)), Uncovered(lt, Map(key, xs), Elements(used));
      && multiset(Map(key, xs)) == multiset(used) + multiset(rest) && NoDup(rest)
      && SumOf(amount, xs) == SumOf(lookup, used) + SumOf(lookup, rest)
  {
    hide StrictTotal;
    hide Amounts;
    hide Uncovered;
    hide NoDup;
    AmountsKeys(key, amount, xs);
    AmountsSum(key, amount, xs);
    UncoveredSplit(lt, Map(key, xs), used);
    SumSplit(Lookup(Amounts(key, amount, xs)), Map(key, xs), used, Uncovered(lt, Map(key, xs), Elements(used)));
  }

  lemma UsedKnown(t: Tables, ds: seq<Decision>)
    requires Admissible(t, ds)
    ensures Elements(FlatMap(AcceptedRows, ds)) <= t.rows.Keys
    ensures Elements(FlatMap(AcceptedVouchers, ds)) <= t.vouchers.Keys
  {
    forall id | id in FlatMap(AcceptedRows, ds) ensures id in t.rows {
      FlatMapIn(AcceptedRows, ds, id);
      var d :| d in ds && id in AcceptedRows(d);
      assert id in Elements(d.evidence.rowIds);
    }
    forall id | id in FlatMap(AcceptedVouchers, ds) ensures id in t.vouchers {
      FlatMapIn(AcceptedVouchers, ds, id);
      var d :| d in ds && id in AcceptedVouchers(d);
      assert id in Elements(d.evidence.voucherIds);
    }
  }

  /**
   Conservation of the bridge. Every row and every voucher is either in exactly one
   accepted entry or uncovered, never twice; accepted entries balance; and the residual
   is what the uncovered rows sum to minus what the uncovered movements sum to, so that
   a certificate is closed exactly when nothing is uncovered.
   */
  lemma Conservation(inputs: Inputs, ds: seq<Decision>, requestClose: bool)
    requires BuildCertificate(inputs, ds, requestClose).Ok?
    ensures
      var c := BuildCertificate(inputs, ds, requestClose).value;
      var t := TablesOf(inputs);
      && c.residual == SumOf(Lookup(t.rows), c.uncoveredRows) - SumOf(Lookup(t.vouchers), c.uncoveredVouchers)
      && c.residual == SumOf(RowAmount, inputs.statement.rows) - SumOf(MovementAmount, inputs.movements)
      && multiset(RowIds(inputs)) == multiset(FlatMap(EntryRows, c.accepted)) + multiset(c.uncoveredRows)
      && multiset(VoucherIds(inputs)) == multiset(FlatMap(EntryVouchers, c.accepted)) + multiset(c.uncoveredVouchers)
      && NoDup(FlatMap(EntryRows, c.accepted)) && NoDup(FlatMap(EntryVouchers, c.accepted))
      && NoDup(c.uncoveredRows) && NoDup(c.uncoveredVouchers)
      && (forall a :: a in c.accepted ==> Exact(t, a))
      && (c.closed <==> c.uncoveredRows == [] && c.uncoveredVouchers == [])
  {
    hide NoDup;
    hide Fold;
    hide FlatMap;
    hide Uncovered;
    hide ValidateInputs;
    hide TablesOf;
    hide Exact;
    hide CheckedSum;
    hide SumOf;
    ValidateExact(inputs);
    hide ValidInputs;
    RowsConserved(inputs, ds);
    VouchersConserved(inputs, ds);
    FoldExact(TablesOf(inputs), ds);
    SumOfNothing(Lookup(TablesOf(inputs).rows));
    SumOfNothing(Lookup(TablesOf(inputs).vouchers));
    TotalsExact(inputs);
  }

  lemma TotalsExact(inputs: Inputs)
    requires ValidateInputs(inputs).Ok?
    ensures inputs.statement.total == SumOf(RowAmount, inputs.statement.rows)
    ensures CheckedTotal(Map(MovementAmount, inputs.movements)).Ok? ==>
      CheckedTotal(Map(MovementAmount, inputs.movements)).value == SumOf(MovementAmount, inputs.movements)
  {
    ValidateExact(inputs);
  }

  lemma RowsConserved(inputs: Inputs, ds: seq<Decision>)
    requires ValidInputs(inputs) && Fold(TablesOf(inputs), ds).Ok?
    ensures
      var t, f := TablesOf(inputs), Fold(TablesOf(inputs), ds).value;
      var used, rest := FlatMap(AcceptedRows, ds), Uncovered(StringLess, RowIds(inputs), f.rows);
      && NoDup(used) && NoDup(rest)
      && multiset(RowIds(inputs)) == multiset(used) + multiset(rest)
      && SumOf(RowAmount, inputs.statement.rows) == SumOf(Lookup(t.rows), used) + SumOf(Lookup(t.rows), rest)
  {
    hide NoDup;
    hide Fold;
    hide FlatMap;
    hide Uncovered;
    hide Amounts;
    hide Admissible;
    hide SumOf;
    hide OneCurrency;
    FoldExact(TablesOf(inputs), ds);
    AdmissibleLists(TablesOf(inputs), ds);
    UsedKnown(TablesOf(inputs), ds);
    StringsOrdered();
    SideConserved(StringLess, Identity, RowAmount, inputs.statement.rows, FlatMap(AcceptedRows, ds));
  }

  lemma VouchersConserved(inputs: Inputs, ds: seq<Decision>)
    requires ValidInputs(inputs) && Fold(TablesOf(inputs), ds).Ok?
    ensures
      var t, f := TablesOf(inputs), Fold(TablesOf(inputs), ds).value;
      var used, rest := FlatMap(AcceptedVouchers, ds), Uncovered(IntLess, VoucherIds(inputs), f.vouchers);
      && NoDup(used) && NoDup(rest)
      && multiset(VoucherIds(inputs)) == multiset(used) + multiset(rest)
      && SumOf(MovementAmount, inputs.movements) == SumOf(Lookup(t.vouchers), used) + SumOf(Lookup(t.vouchers), rest)
  {
    hide NoDup;
    hide Fold;
    hide FlatMap;
    hide Uncovered;
    hide Amounts;
    hide Admissible;
    hide SumOf;
    hide OneCurrency;
    FoldExact(TablesOf(inputs), ds);
    AdmissibleLists(TablesOf(inputs), ds);
    UsedKnown(TablesOf(inputs), ds);
    assert StrictTotal(IntLess);
    SideConserved(IntLess, VoucherId, MovementAmount, inputs.movements, FlatMap(AcceptedVouchers, ds));
  }

  lemma AdmissibleLists(t: Tables, ds: seq<Decision>)
    requires Admissible(t, ds)
    ensures NoDup(FlatMap(AcceptedRows, ds)) && NoDup(FlatMap(AcceptedVouchers, ds))
  {
  }
}
