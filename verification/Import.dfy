/** The import of one source year: plan, write the year file step by step, then the manifest. */
module Import {
  import opened Wrappers
  import opened Numbers
  import opened Sequences
  import opened Sorting
  import opened Ledger
  import opened YearFiles
  import opened LedgerSets
  import opened Renumbering

  // ----- the writes of one import

  function AccountWrite(a: Account): Write { InsertAccount(a) }
  function VoucherWrite(v: Voucher): Write { InsertVoucher(v) }
  function PostingWrite(p: Posting): Write { InsertPosting(p) }

  /** `write_rows` up to the manifest. */
  function RowWrites(accounts: seq<Account>, plan: Plan): seq<Write> {
    Map(AccountWrite, accounts) + Map(VoucherWrite, plan.vouchers) + Map(PostingWrite, plan.postings) +
    [SetIdState("voucher", plan.manifest.nextVoucher)] + [SetIdState("posting", plan.manifest.nextPosting)]
  }

  /** The manifest with the new year listed. */
  function Listed(m: Manifest, year: int): Manifest {
    m.(years := Sort(IntLess, m.years + [year]))
  }

  /** The storage part of an import, write by write. */
  function WriteImported(faults: Faults, d: Disk, src: SourceYear, plan: Plan): Attempted {
    var created := CreateYear(faults, d, src.year);
    if created.result.Err? then created else
    var written := PerformAll(faults, created.disk, src.year, RowWrites(src.accounts, plan));
    if written.result.Err? then written else
    Attempt(faults, written.disk, written.disk.(manifest := Some(Listed(plan.manifest, src.year))))
  }

  datatype Imported = Imported(result: Result<(), ImportError>, manifest: Manifest, disk: Disk)

  /** The outcome of `import_year` for the caller's manifest and the mount. */
  function ImportOf(faults: Faults, m: Manifest, d: Disk, src: SourceYear): Imported {
    match Planned(m, src)
    case Err(e) => Imported(Err(e), m, d)
    case Ok(plan) =>
      var a := WriteImported(faults, d, src, plan);
      if a.result.Err? then Imported(Err(Store(a.result.error)), m, a.disk)
      else Imported(Ok(()), Listed(plan.manifest, src.year), a.disk)
  }

  // ----- the methods

  lemma {:induction false} PerformAllStops(faults: Faults, d: Disk, year: int, ws: seq<Write>, k: nat)
    requires year in d.files && k <= |ws| && PerformAll(faults, d, year, ws[..k]).result.Err?
    ensures PerformAll(faults, d, year, ws) == PerformAll(faults, d, year, ws[..k])
  {
    hide Perform;
    if k < |ws| {
      assert ws[..|ws| - 1][..k] == ws[..k];
      PerformAllStops(faults, d, year, ws[..|ws| - 1], k);
    } else {
      assert ws[..k] == ws;
    }
  }

  lemma PerformAllSnoc(faults: Faults, d: Disk, year: int, ws: seq<Write>, w: Write)
    requires year in d.files && PerformAll(faults, d, year, ws).result.Ok?
    ensures PerformAll(faults, d, year, ws + [w]) == Perform(faults, PerformAll(faults, d, year, ws).disk, year, w)
  {
    hide Perform;
    assert (ws + [w])[..|ws + [w]| - 1] == ws;
  }

  /** Performs the inserts `ws[lo..hi]` of a longer list of writes, stopping at the first failure. */
  method WriteTable(store: YearStore, ghost d: Disk, ghost ws: seq<Write>, lo: nat, rows: seq<Write>)
    returns (r: Result<(), StoreError>)
    requires store.Valid() && store.year in d.files
    requires lo + |rows| <= |ws| && rows == ws[lo..lo + |rows|]
    requires forall w :: w in rows ==> !w.SetMeta?
    requires PerformAll(store.mount.faults, d, store.year, ws[..lo]) == Attempted(Ok(()), store.mount.disk)
    modifies store`content, store.mount
    ensures r.Ok? ==>
      && store.Valid()
      && PerformAll(store.mount.faults, d, store.year, ws[..lo + |rows|]) == Attempted(Ok(()), store.mount.disk)
    ensures r.Err? ==> PerformAll(store.mount.faults, d, store.year, ws) == Attempted(r, store.mount.disk)
  {
    hide Perform;
    hide PerformAll;
    for i := 0 to |rows|
      invariant store.Valid()
      invariant PerformAll(store.mount.faults, d, store.year, ws[..lo + i]) == Attempted(Ok(()), store.mount.disk)
    {
      assert ws[..lo + i + 1] == ws[..lo + i] + [rows[i]];
      PerformAllSnoc(store.mount.faults, d, store.year, ws[..lo + i], rows[i]);
      r := store.Guarded(rows[i]);
      if r.Err? {
        PerformAllStops(store.mount.faults, d, store.year, ws, lo + i + 1);
        return;
      }
      assert r.value == ();
    }
    r := Ok(());
  }

  lemma RowWritesParts(accounts: seq<Account>, plan: Plan)
    ensures
      var ws := RowWrites(accounts, plan);
      var a, v, p := |accounts|, |plan.vouchers|, |plan.postings|;
      && |ws| == a + v + p + 2
      && ws[..a] == Map(AccountWrite, accounts)
      && ws[a..a + v] == Map(VoucherWrite, plan.vouchers)
      && ws[a + v..a + v + p] == Map(PostingWrite, plan.postings)
      && ws[a + v + p..a + v + p + 2] ==
           [SetIdState("voucher", plan.manifest.nextVoucher), SetIdState("posting", plan.manifest.nextPosting)]
  {
  }

  /** The row part of `write_rows`: accounts, vouchers, postings, id state. */
  method WriteTables(store: YearStore, accounts: seq<Account>, plan: Plan) returns (r: Result<(), StoreError>)
    requires store.Valid()
    modifies store`content, store.mount
    ensures Attempted(r, store.mount.disk) ==
      PerformAll(store.mount.faults, old(store.mount.disk), store.year, RowWrites(accounts, plan))
    ensures r.Ok? ==> store.Valid()
  {
    hide Perform;
    hide PerformAll;
    ghost var d, ws := store.mount.disk, RowWrites(accounts, plan);
    RowWritesParts(accounts, plan);
    hide RowWrites;
    var n := |accounts|;
    assert PerformAll(store.mount.faults, d, store.year, ws[..0]) == Attempted(Ok(()), d) by {
      NothingPerformed(store.mount.faults, d, store.year, ws[..0]);
    }
    r := WriteTable(store, d, ws, 0, Map(AccountWrite, accounts));
    if r.Err? { return; }
    r := WriteTable(store, d, ws, n, Map(VoucherWrite, plan.vouchers));
    if r.Err? { return; }
    n := n + |plan.vouchers|;
    r := WriteTable(store, d, ws, n, Map(PostingWrite, plan.postings));
    if r.Err? { return; }
    n := n + |plan.postings|;
    r := WriteTable(store, d, ws, n,
      [SetIdState("voucher", plan.manifest.nextVoucher), SetIdState("posting", plan.manifest.nextPosting)]);
    if r.Err? { return; }
    assert ws[..n + 2] == ws && r.value == ();
  }

  /** `write_rows`: the rows, then the manifest that lists the year. */
  method WriteRows(store: YearStore, ledger: LedgerSet, year: int, accounts: seq<Account>, plan: Plan)
    returns (r: Result<(), StoreError>)
    requires store.Valid() && store.year == year && store.mount == ledger.mount && ledger.manifest == plan.manifest
    modifies store`content, store.mount, ledger
    ensures
      var written := PerformAll(store.mount.faults, old(store.mount.disk), year, RowWrites(accounts, plan));
      Attempted(r, store.mount.disk) == (
        if written.result.Err? then written
        else Attempt(store.mount.faults, written.disk, written.disk.(manifest := Some(Listed(plan.manifest, year)))))
    ensures r.Ok? ==> ledger.manifest == Listed(plan.manifest, year)
  {
    hide PerformAll;
    hide Attempt;
    r := WriteTables(store, accounts, plan);
    if r.Ok? {
      ledger.manifest := ledger.manifest.(years := ledger.manifest.years + [year]);
      ledger.manifest := ledger.manifest.(years := Sort(IntLess, ledger.manifest.years));
      r := ledger.Save();
    }
  }

  lemma NothingPerformed(faults: Faults, d: Disk, year: int, ws: seq<Write>)
    requires year in d.files && ws == []
    ensures PerformAll(faults, d, year, ws) == Attempted(Ok(()), d)
  {
  }

  /** All that happens before the first write, on a draft of the set. */
  method Prepare(draft: LedgerSet, src: SourceYear) returns (r: Result<Plan, ImportError>)
    modifies draft
    ensures r == Planned(old(draft.manifest), src)
    ensures r.Ok? ==> draft.manifest == r.value.manifest
  {
    hide NumberVouchers;
    hide NumberPostings;
    hide IdMap;
    hide Violations;
    if src.year in draft.manifest.years {
      return Err(YearAlreadyImported(src.year));
    }
    draft.manifest := draft.manifest.(nextVoucher := Max(draft.manifest.nextVoucher, src.nextVoucher));
    draft.manifest := draft.manifest.(nextPosting := Max(draft.manifest.nextPosting, src.nextPosting));
    if |src.vouchers| > I64_MAX {
      return Err(IdCountOverflow(VoucherRow, |src.vouchers|));
    }
    if |src.postings| > I64_MAX {
      return Err(IdCountOverflow(PostingRow, |src.postings|));
    }
    var voucherStart := draft.AllocVoucherIds(|src.vouchers|);
    if voucherStart.Err? {
      return Err(IdAllocation(voucherStart.error));
    }
    var postingStart := draft.AllocPostingIds(|src.postings|);
    if postingStart.Err? {
      return Err(IdAllocation(postingStart.error));
    }
    var numbered := AssignVouchers(src.vouchers, voucherStart.value);
    if numbered.Err? {
      return Err(numbered.error);
    }
    var (ids, vouchers) := numbered.value;
    var postings := AssignPostings(src.postings, postingStart.value, ids);
    if postings.Err? {
      return Err(postings.error);
    }
    var violations := VoucherBalanceViolations(vouchers, postings.value);
    if violations.Err? {
      return Err(BalanceOverflow(violations.error));
    }
    if violations.value != [] {
      return Err(Unbalanced(violations.value[0]));
    }
    r := Ok(Plan(draft.manifest, vouchers, postings.value));
  }

  /** `import_year`: the caller's set changes last, and only when everything is written. */
  method ImportYear(ledger: LedgerSet, src: SourceYear) returns (r: Result<(), ImportError>)
    modifies ledger, ledger.mount
    ensures Imported(r, ledger.manifest, ledger.mount.disk) ==
      ImportOf(ledger.mount.faults, old(ledger.manifest), old(ledger.mount.disk), src)
  {
    hide Planned;
    hide PerformAll;
    hide Attempt;
    hide CreateYear;
    hide Listed;
    var draft := new LedgerSet(ledger.mount, ledger.manifest);
    var plan := Prepare(draft, src);
    if plan.Err? {
      return Err(plan.error);
    }
    var store := draft.CreateYearStore(src.year);
    if store.Err? {
      return Err(Store(store.error));
    }
    var written := WriteRows(store.value, draft, src.year, src.accounts, plan.value);
    if written.Err? {
      return Err(Store(written.error));
    }
    ledger.manifest := draft.manifest;
    r := Ok(());
  }
}
