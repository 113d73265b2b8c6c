/** What imports leave behind, over any run of them and with any storage write failing. */
module ImportRuns {
  import opened Wrappers
  import opened Numbers
  import opened Sequences
  import opened Sorting
  import opened Text
  import opened Ledger
  import opened YearFiles
  import opened LedgerSets
  import opened Renumbering
  import opened Import
  import Statements

  // ----- the finished year file

  /** The schema's demands on the source: distinct accounts, and an account for every posting. */
  ghost predicate SourceKeyed(src: SourceYear) {
    && NoDup(Map(AccountNumber, src.accounts))
    && Elements(Map(SourcePostingAccount, src.postings)) <= Elements(Map(AccountNumber, src.accounts))
  }

  function ImageFile(src: SourceYear, plan: Plan): YearFile {
    YearFile(src.accounts, plan.vouchers, plan.postings,
             map["voucher" := plan.manifest.nextVoucher, "posting" := plan.manifest.nextPosting],
             map[YEAR_KEY := PrintInt(src.year)])
  }

  lemma ApplyAllSnoc(f: YearFile, ws: seq<Write>, w: Write)
    ensures ApplyAll(f, ws + [w]) ==
      if ApplyAll(f, ws).Ok? then Apply(ApplyAll(f, ws).value, w) else ApplyAll(f, ws)
  {
    hide Apply;
    assert (ws + [w])[..|ws + [w]| - 1] == ws;
  }

  lemma NothingApplied(f: YearFile)
    ensures ApplyAll(f, []) == Ok(f)
  {
  }

  lemma {:induction false} AccountsWritten(f: YearFile, rows: seq<Account>)
    requires f.accounts == [] && !IsClosed(f)
    ensures ApplyAll(f, Map(AccountWrite, rows)).Ok? <==> NoDup(Map(AccountNumber, rows))
    ensures ApplyAll(f, Map(AccountWrite, rows)).Ok? ==>
      ApplyAll(f, Map(AccountWrite, rows)).value == f.(accounts := rows)
  {
    hide ApplyAll;
    if rows == [] {
      NothingApplied(f);
      assert Map(AccountWrite, rows) == [];
    } else {
      var n := |rows| - 1;
      AccountsWritten(f, rows[..n]);
      assert rows == rows[..n] + [rows[n]];
      MapSnoc(AccountWrite, rows[..n], rows[n]);
      MapSnoc(AccountNumber, rows[..n], rows[n]);
      NoDupSnoc(Map(AccountNumber, rows[..n]), AccountNumber(rows[n]));
      ApplyAllSnoc(f, Map(AccountWrite, rows[..n]), AccountWrite(rows[n]));
    }
  }

  lemma {:induction false} VouchersWritten(f: YearFile, rows: seq<Voucher>)
    requires f.vouchers == [] && !IsClosed(f)
    ensures ApplyAll(f, Map(VoucherWrite, rows)).Ok? <==> NoDup(Map(VoucherKey, rows))
    ensures ApplyAll(f, Map(VoucherWrite, rows)).Ok? ==>
      ApplyAll(f, Map(VoucherWrite, rows)).value == f.(vouchers := rows)
  {
    hide ApplyAll;
    if rows == [] {
      NothingApplied(f);
      assert Map(VoucherWrite, rows) == [];
    } else {
      var n := |rows| - 1;
      VouchersWritten(f, rows[..n]);
      assert rows == rows[..n] + [rows[n]];
      MapSnoc(VoucherWrite, rows[..n], rows[n]);
      MapSnoc(VoucherKey, rows[..n], rows[n]);
      NoDupSnoc(Map(VoucherKey, rows[..n]), VoucherKey(rows[n]));
      ApplyAllSnoc(f, Map(VoucherWrite, rows[..n]), VoucherWrite(rows[n]));
    }
  }

  ghost predicate Placeable(f: YearFile, rows: seq<Posting>) {
    && NoDup(Map(PostingKey, rows))
    && (forall p :: p in rows ==> PostingVoucher(p) in Map(VoucherKey, f.vouchers))
    && (forall p :: p in rows ==> PostingAccount(p) in Map(AccountNumber, f.accounts))
  }

  lemma {:induction false} PostingsWritten(f: YearFile, rows: seq<Posting>)
    requires f.postings == [] && !IsClosed(f)
    ensures ApplyAll(f, Map(PostingWrite, rows)).Ok? <==> Placeable(f, rows)
    ensures ApplyAll(f, Map(PostingWrite, rows)).Ok? ==>
      ApplyAll(f, Map(PostingWrite, rows)).value == f.(postings := rows)
  {
    hide ApplyAll;
    if rows == [] {
      NothingApplied(f);
      assert Map(PostingWrite, rows) == [];
    } else {
      var n := |rows| - 1;
      PostingsWritten(f, rows[..n]);
      assert rows == rows[..n] + [rows[n]];
      MapSnoc(PostingWrite, rows[..n], rows[n]);
      MapSnoc(PostingKey, rows[..n], rows[n]);
      NoDupSnoc(Map(PostingKey, rows[..n]), PostingKey(rows[n]));
      ApplyAllSnoc(f, Map(PostingWrite, rows[..n]), PostingWrite(rows[n]));
    }
  }

  lemma StatesWritten(f: YearFile, nextVoucher: i64, nextPosting: i64)
    requires !IsClosed(f)
    ensures ApplyAll(f, [SetIdState("voucher", nextVoucher)] + [SetIdState("posting", nextPosting)]) ==
      Ok(f.(idState := f.idState["voucher" := nextVoucher]["posting" := nextPosting]))
  {
    var first, second := SetIdState("voucher", nextVoucher), SetIdState("posting", nextPosting);
    assert ([first] + [second])[..1] == [first] && [first][..0] == [];
    assert ApplyAll(f, [first]) == Apply(f, first);
  }

  /** Numbered rows have distinct keys, and every posting finds its voucher. */
  lemma FollowsKeyed(vouchers: seq<Voucher>, postings: seq<Posting>, src: SourceYear, a: int, b: int)
    requires Follows(vouchers, postings, src, a, b)
    ensures NoDup(Map(VoucherKey, vouchers)) && NoDup(Map(PostingKey, postings))
    ensures forall p :: p in postings ==> PostingVoucher(p) in Map(VoucherKey, vouchers)
    ensures Map(PostingAccount, postings) == Map(SourcePostingAccount, src.postings)
  {
    forall p | p in postings ensures PostingVoucher(p) in Map(VoucherKey, vouchers) {
      var j :| 0 <= j < |postings| && postings[j] == p;
      var i :| 0 <= i < |src.vouchers| && src.vouchers[i].sourceId == src.postings[j].voucher &&
        postings[j].voucherId == a + i;
      assert Map(VoucherKey, vouchers)[i] == p.voucherId;
    }
  }

  /** The rows of a plan go into a fresh year file exactly when the source keeps the schema's keys. */
  lemma RowsWritten(src: SourceYear, plan: Plan, a: int, b: int)
    requires Follows(plan.vouchers, plan.postings, src, a, b)
    ensures ApplyAll(NamedYear(src.year), RowWrites(src.accounts, plan)).Ok? <==> SourceKeyed(src)
    ensures ApplyAll(NamedYear(src.year), RowWrites(src.accounts, plan)).Ok? ==>
      ApplyAll(NamedYear(src.year), RowWrites(src.accounts, plan)).value == ImageFile(src, plan)
  {
    hide ApplyAll;
    hide Follows;
    hide NoDup;
    FollowsKeyed(plan.vouchers, plan.postings, src, a, b);
    var f := NamedYear(src.year);
    assert !IsClosed(f);
    var accounts, vouchers := Map(AccountWrite, src.accounts), Map(VoucherWrite, plan.vouchers);
    var postings := Map(PostingWrite, plan.postings);
    var states := [SetIdState("voucher", plan.manifest.nextVoucher)] +
      [SetIdState("posting", plan.manifest.nextPosting)];
    assert RowWrites(src.accounts, plan) == ((accounts + vouchers) + postings) + states;
    ApplyAllConcat(f, accounts + vouchers + postings, states);
    ApplyAllConcat(f, accounts + vouchers, postings);
    ApplyAllConcat(f, accounts, vouchers);
    AccountsWritten(f, src.accounts);
    AccountsOfPostings(src, plan.postings);
    if NoDup(Map(AccountNumber, src.accounts)) {
      var g := f.(accounts := src.accounts);
      VouchersWritten(g, plan.vouchers);
      var h := g.(vouchers := plan.vouchers);
      PostingsWritten(h, plan.postings);
      StatesWritten(h.(postings := plan.postings), plan.manifest.nextVoucher, plan.manifest.nextPosting);
    }
  }

  lemma AccountsOfPostings(src: SourceYear, postings: seq<Posting>)
    requires Map(PostingAccount, postings) == Map(SourcePostingAccount, src.postings)
    ensures (forall p :: p in postings ==> PostingAccount(p) in Map(AccountNumber, src.accounts)) <==>
      Elements(Map(SourcePostingAccount, src.postings)) <= Elements(Map(AccountNumber, src.accounts))
  {
    var accounts := Map(PostingAccount, postings);
    if forall p :: p in postings ==> PostingAccount(p) in Map(AccountNumber, src.accounts) {
      forall x | x in Elements(accounts) ensures x in Elements(Map(AccountNumber, src.accounts)) {
        var j :| 0 <= j < |accounts| && accounts[j] == x;
        assert postings[j] in postings;
      }
    }
    if Elements(accounts) <= Elements(Map(AccountNumber, src.accounts)) {
      forall p | p in postings ensures PostingAccount(p) in Map(AccountNumber, src.accounts) {
        var j :| 0 <= j < |postings| && postings[j] == p;
        assert accounts[j] in Elements(accounts);
      }
    }
  }

  // ----- one import

  function WritesOf(src: SourceYear): nat {
    |src.accounts| + |src.vouchers| + |src.postings| + 5
  }

  lemma CreateYearLeaves(faults: Faults, d: Disk, year: int)
    ensures CreateYear(faults, d, year).result.Ok? <==>
      year !in d.files && faults(d.clock).Done? && faults(d.clock + 1).Done?
    ensures CreateYear(faults, d, year).result.Ok? ==>
      CreateYear(faults, d, year).disk == Disk(d.files[year := NamedYear(year)], d.manifest, d.clock + 2)
    ensures CreateYear(faults, d, year).disk.manifest == d.manifest
    ensures forall y :: y != year || y in d.files ==>
      && (y in d.files <==> y in CreateYear(faults, d, year).disk.files)
      && (y in d.files ==> CreateYear(faults, d, year).disk.files[y] == d.files[y])
  {
    var named := SetMeta(YEAR_KEY, PrintInt(year));
    assert Apply(EMPTY_YEAR, named) == Ok(NamedYear(year));
    if year !in d.files {
      assert d.files[year := EMPTY_YEAR][year := NamedYear(year)] == d.files[year := NamedYear(year)];
    }
  }

  /** Only the imported year's file can appear, and no file that was there changes. */
  ghost predicate Extends(files: map<int, YearFile>, later: map<int, YearFile>, year: int) {
    forall y :: y != year || y in files ==>
      && (y in files <==> y in later)
      && (y in files ==> later[y] == files[y])
  }

  /** Writing a planned import touches the new year's file alone; whole and listed only behind every write. */
  lemma WriteLeaves(faults: Faults, m: Manifest, d: Disk, src: SourceYear)
    requires Planned(m, src).Ok?
    ensures Extends(d.files, WriteImported(faults, d, src, Planned(m, src).value).disk.files, src.year)
    ensures
      var plan := Planned(m, src).value;
      var a := WriteImported(faults, d, src, plan);
      a.result.Ok? || a.disk.manifest != d.manifest ==>
        && SourceKeyed(src) && src.year !in d.files
        && a.disk.files == d.files[src.year := ImageFile(src, plan)]
        && a.disk.manifest == Some(Listed(plan.manifest, src.year))
  {
    hide Planned;
    hide CreateYear;
    hide PerformAll;
    hide ApplyAll;
    hide SourceKeyed;
    hide RowWrites;
    hide ImageFile;
    hide Listed;
    hide NamedYear;
    var plan := Planned(m, src).value;
    CreateYearLeaves(faults, d, src.year);
    var created := CreateYear(faults, d, src.year);
    if created.result.Ok? {
      var ws := RowWrites(src.accounts, plan);
      var written := PerformAll(faults, created.disk, src.year, ws);
      var k := PerformAllLeaves(faults, created.disk, src.year, ws);
      if written.result.Ok? {
        assert ws[..|ws|] == ws;
        PlanWritten(m, src);
        assert d.files[src.year := NamedYear(src.year)][src.year := ImageFile(src, plan)] ==
          d.files[src.year := ImageFile(src, plan)];
      }
    }
  }

  /** The rows of an accepted plan go into a fresh year file exactly when the source keeps the schema's keys. */
  lemma PlanWritten(m: Manifest, src: SourceYear)
    requires Planned(m, src).Ok?
    ensures
      var plan := Planned(m, src).value;
      && |RowWrites(src.accounts, plan)| + 3 == WritesOf(src)
      && (ApplyAll(NamedYear(src.year), RowWrites(src.accounts, plan)).Ok? <==> SourceKeyed(src))
      && (SourceKeyed(src) ==>
            ApplyAll(NamedYear(src.year), RowWrites(src.accounts, plan)).value == ImageFile(src, plan))
  {
    hide Planned;
    hide Follows;
    hide ApplyAll;
    hide SourceKeyed;
    hide WellFormed;
    hide RowWrites;
    hide ImageFile;
    hide Balanced;
    hide WritesOf;
    var plan := Planned(m, src).value;
    PlannedExact(m, src);
    RowsWritten(src, plan, Max(m.nextVoucher, src.nextVoucher), Max(m.nextPosting, src.nextPosting));
    WritesCounted(src, plan, Max(m.nextVoucher, src.nextVoucher), Max(m.nextPosting, src.nextPosting));
  }

  /** A failed import leaves the caller's manifest,
    and no import changes a file that was there. A saved manifest changes
    * only to one that lists the year, and only with the complete file in place. */
  lemma ImportLeaves(faults: Faults, m: Manifest, d: Disk, src: SourceYear)
    ensures Extends(d.files, ImportOf(faults, m, d, src).disk.files, src.year)
    ensures ImportOf(faults, m, d, src).result.Err? ==> ImportOf(faults, m, d, src).manifest == m
    ensures
      var i := ImportOf(faults, m, d, src);
      i.result.Ok? || i.disk.manifest != d.manifest ==>
        && Planned(m, src).Ok? && SourceKeyed(src) && src.year !in d.files
        && i.disk.files == d.files[src.year := ImageFile(src, Planned(m, src).value)]
        && i.disk.manifest == Some(Listed(Planned(m, src).value.manifest, src.year))
        && (i.result.Ok? ==> i.manifest == Listed(Planned(m, src).value.manifest, src.year))
  {
    hide Planned;
    hide WriteImported;
    hide SourceKeyed;
    hide ImageFile;
    hide Listed;
    if Planned(m, src).Ok? {
      WriteLeaves(faults, m, d, src);
    }
  }

  /** An import succeeds exactly when it can be planned, the year's file is new, the source keeps the keys
    * and every write is done. */
  lemma ImportSucceeds(faults: Faults, m: Manifest, d: Disk, src: SourceYear)
    ensures ImportOf(faults, m, d, src).result.Ok? <==>
      && src.year !in m.years && src.year !in d.files
      && Room(Max(m.nextVoucher, src.nextVoucher), |src.vouchers|)
      && Room(Max(m.nextPosting, src.nextPosting), |src.postings|)
      && WellFormed(src) && SourceKeyed(src)
      && forall t :: d.clock <= t < d.clock + WritesOf(src) ==> faults(t).Done?
  {
    hide Planned;
    hide SourceKeyed;
    hide WellFormed;
    hide Room;
    hide Max;
    PlannedExact(m, src);
    if Planned(m, src).Ok? {
      WriteSucceeds(faults, m, d, src);
    }
  }

  lemma WriteSucceeds(faults: Faults, m: Manifest, d: Disk, src: SourceYear)
    requires Planned(m, src).Ok?
    ensures WriteImported(faults, d, src, Planned(m, src).value).result.Ok? <==>
      src.year !in d.files && SourceKeyed(src) && forall t :: d.clock <= t < d.clock + WritesOf(src) ==> faults(t).Done?
  {
    hide Planned;
    hide CreateYear;
    hide PerformAll;
    hide ApplyAll;
    hide SourceKeyed;
    hide RowWrites;
    hide ImageFile;
    hide WritesOf;
    hide NamedYear;
    hide Listed;
    var plan := Planned(m, src).value;
    CreateYearLeaves(faults, d, src.year);
    PlanWritten(m, src);
    var created := CreateYear(faults, d, src.year);
    if created.result.Ok? {
      PerformAllSucceeds(faults, created.disk, src.year, RowWrites(src.accounts, plan));
    }
  }

  lemma WritesCounted(src: SourceYear, plan: Plan, a: int, b: int)
    requires Follows(plan.vouchers, plan.postings, src, a, b)
    ensures |RowWrites(src.accounts, plan)| + 3 == WritesOf(src)
  {
  }

  // ----- what a manifest promises

  /** The file holds the image of a source, whole, keyed and balanced in every voucher. */
  ghost predicate IsImage(f: YearFile, src: SourceYear, a: int, b: int) {
    && f.accounts == src.accounts
    && Follows(f.vouchers, f.postings, src, a, b)
    && (forall v :: v in f.vouchers ==> Balanced(v.id, f.postings))
    && Keyed(f)
    && f.meta == map[YEAR_KEY := PrintInt(src.year)]
    && f.idState.Keys == {"voucher", "posting"}
    && f.idState["voucher"] == a + |src.vouchers| && f.idState["posting"] == b + |src.postings|
  }

  ghost predicate Complete(f: YearFile, year: int, sources: seq<SourceYear>) {
    exists src, a, b :: src in sources && src.year == year && IsImage(f, src, a, b)
  }

  /** All canonical ids are natural numbers below the cursors. */
  ghost predicate Below(f: YearFile, m: Manifest) {
    && (forall v :: v in f.vouchers ==> 0 <= v.id < m.nextVoucher)
    && (forall p :: p in f.postings ==> 0 <= p.id < m.nextPosting)
  }

  ghost predicate Apart(f: YearFile, g: YearFile) {
    && Elements(Map(VoucherKey, f.vouchers)) !! Elements(Map(VoucherKey, g.vouchers))
    && Elements(Map(PostingKey, f.postings)) !! Elements(Map(PostingKey, g.postings))
  }

  /** Listed years are fully written images of imported sources with ids of their own below the cursors. */
  ghost predicate Sound(m: Manifest, files: map<int, YearFile>, sources: seq<SourceYear>) {
    && Ascending(IntLess, m.years)
    && (forall y :: y in m.years ==> y in files && Complete(files[y], y, sources) && Below(files[y], m))
    && (forall y, z :: y in m.years && z in m.years && y != z ==> Apart(files[y], files[z]))
  }

  lemma ImageComplete(m: Manifest, src: SourceYear)
    requires Planned(m, src).Ok? && SourceKeyed(src)
    ensures
      var plan := Planned(m, src).value;
      && IsImage(ImageFile(src, plan), src, Max(m.nextVoucher, src.nextVoucher), Max(m.nextPosting, src.nextPosting))
      && Below(ImageFile(src, plan), plan.manifest)
      && (forall v :: v in plan.vouchers ==> v.id >= m.nextVoucher)
      && (forall p :: p in plan.postings ==> p.id >= m.nextPosting)
      && plan.manifest.nextVoucher >= m.nextVoucher && plan.manifest.nextPosting >= m.nextPosting
      && plan.manifest.years == m.years && src.year !in m.years
  {
    hide Planned;
    hide WellFormed;
    hide NoDup;
    hide Balanced;
    PlannedExact(m, src);
    var plan := Planned(m, src).value;
    var a, b := Max(m.nextVoucher, src.nextVoucher), Max(m.nextPosting, src.nextPosting);
    FollowsKeyed(plan.vouchers, plan.postings, src, a, b);
    var f := ImageFile(src, plan);
    assert Elements(Map(PostingVoucher, f.postings)) <= Elements(Map(VoucherKey, f.vouchers)) by {
      forall x | x in Elements(Map(PostingVoucher, f.postings)) ensures x in Elements(Map(VoucherKey, f.vouchers)) {
        var j :| 0 <= j < |f.postings| && Map(PostingVoucher, f.postings)[j] == x;
        assert f.postings[j] in f.postings;
      }
    }
    assert Keyed(f);
    forall v | v in plan.vouchers ensures a <= v.id < a + |plan.vouchers| {
      var i :| 0 <= i < |plan.vouchers| && plan.vouchers[i] == v;
    }
    forall p | p in plan.postings ensures b <= p.id < b + |plan.postings| {
      var j :| 0 <= j < |plan.postings| && plan.postings[j] == p;
    }
  }

  /** Ids from the cursors on are new to a file whose ids are below them. */
  lemma AboveApart(previous: YearFile, m: Manifest, latest: YearFile)
    requires Below(previous, m)
    requires (forall v :: v in latest.vouchers ==> v.id >= m.nextVoucher) &&
      (forall p :: p in latest.postings ==> p.id >= m.nextPosting)
    ensures Apart(previous, latest) && Apart(latest, previous)
  {
    assert forall x :: x in Elements(Map(VoucherKey, previous.vouchers)) ==> x < m.nextVoucher;
    assert forall x :: x in Elements(Map(VoucherKey, latest.vouchers)) ==> x >= m.nextVoucher;
    assert forall x :: x in Elements(Map(PostingKey, previous.postings)) ==> x < m.nextPosting;
    assert forall x :: x in Elements(Map(PostingKey, latest.postings)) ==> x >= m.nextPosting;
  }

  /** Listing a new year keeps the years ascending. */
  lemma ListedYears(m: Manifest, year: int)
    requires Ascending(IntLess, m.years) && year !in m.years
    ensures Ascending(IntLess, Listed(m, year).years)
    ensures forall y :: y in Listed(m, year).years <==> y in m.years || y == year
    ensures Listed(m, year).nextVoucher == m.nextVoucher && Listed(m, year).nextPosting == m.nextPosting
  {
    NoDupSnoc(m.years, year);
    SortAscending(IntLess, m.years + [year]);
  }

  /** More sources and more files keep every promise. */
  lemma SoundExtended(m: Manifest, files: map<int, YearFile>, sources: seq<SourceYear>, later: map<int, YearFile>,
                      year: int, more: seq<SourceYear>)
    requires Sound(m, files, sources) && Extends(files, later, year)
    ensures Sound(m, later, sources + more)
  {
    hide IsImage;
    hide Below;
    hide Apart;
    forall y | y in m.years ensures y in later && later[y] == files[y] && Complete(later[y], y, sources + more) {
      var src, a, b :| src in sources && src.year == y && IsImage(files[y], src, a, b);
      assert src in sources + more;
    }
  }

  /** A new year written from the cursors on makes the advanced manifest sound. */
  lemma SoundListed(m: Manifest, files: map<int, YearFile>, sources: seq<SourceYear>, src: SourceYear)
    requires Sound(m, files, sources) && Planned(m, src).Ok? && SourceKeyed(src) && src.year !in files
    ensures
      var plan := Planned(m, src).value;
      Sound(Listed(plan.manifest, src.year), files[src.year := ImageFile(src, plan)], sources + [src])
  {
    hide Planned;
    hide IsImage;
    hide SourceKeyed;
    hide Apart;
    hide ImageFile;
    hide Listed;
    var plan := Planned(m, src).value;
    var later := files[src.year := ImageFile(src, plan)];
    ImageComplete(m, src);
    assert ImageFile(src, plan).vouchers == plan.vouchers && ImageFile(src, plan).postings == plan.postings by {
      ImageRows(src, plan);
    }
    SoundExtended(m, files, sources, later, src.year, [src]);
    ListedYears(plan.manifest, src.year);
    assert src in sources + [src];
    assert Complete(later[src.year], src.year, sources + [src]);
    forall y | y in m.years ensures Apart(later[y], later[src.year]) && Apart(later[src.year], later[y]) {
      AboveApart(files[y], m, later[src.year]);
    }
  }

  lemma ImageRows(src: SourceYear, plan: Plan)
    ensures ImageFile(src, plan).vouchers == plan.vouchers && ImageFile(src, plan).postings == plan.postings
  {
  }

  /** One import keeps its own manifest, the saved one and every other manifest sound. */
  lemma ImportKeepsSound(faults: Faults, m: Manifest, d: Disk, src: SourceYear, sources: seq<SourceYear>)
    requires Sound(m, d.files, sources)
    requires d.manifest.Some? ==> Sound(d.manifest.value, d.files, sources)
    ensures
      var i := ImportOf(faults, m, d, src);
      && Sound(i.manifest, i.disk.files, sources + [src])
      && (i.disk.manifest.Some? ==> Sound(i.disk.manifest.value, i.disk.files, sources + [src]))
  {
    hide ImportOf;
    hide Planned;
    hide Sound;
    hide SourceKeyed;
    hide ImageFile;
    hide Listed;
    var i := ImportOf(faults, m, d, src);
    ImportLeaves(faults, m, d, src);
    hide Extends;
    SoundExtended(m, d.files, sources, i.disk.files, src.year, [src]);
    if d.manifest.Some? {
      SoundExtended(d.manifest.value, d.files, sources, i.disk.files, src.year, [src]);
    }
    if i.result.Ok? || i.disk.manifest != d.manifest {
      SoundListed(m, d.files, sources, src);
    }
  }

  /** Every listed year opens under its own name. */
  lemma ListedYearOpens(m: Manifest, d: Disk, sources: seq<SourceYear>, year: int)
    requires Sound(m, d.files, sources) && year in m.years
    ensures OpenYear(d, year) == Ok(d.files[year])
  {
    hide Follows;
    hide Keyed;
    hide Balanced;
    var src, a, b :| src in sources && src.year == year && IsImage(d.files[year], src, a, b);
    ParsePrintInt(src.year);
  }

  /** The close of a listed year never finds an unbalanced voucher or an unbalanced trial balance. */
  lemma ListedYearBalances(m: Manifest, files: map<int, YearFile>, sources: seq<SourceYear>, year: int)
    requires Sound(m, files, sources) && year in m.years
    ensures Statements.EnsureVouchersBalanced(files[year]).Ok?
    ensures Statements.StatementsOf(files[year], year).Err? ==>
      && !Statements.StatementsOf(files[year], year).error.UnbalancedVoucher?
      && !Statements.StatementsOf(files[year], year).error.UnbalancedTrialBalance?
  {
    hide Follows;
    hide Keyed;
    hide Balanced;
    hide Statements.EnsureVouchersBalanced;
    hide Statements.TrialBalanceOf;
    hide Statements.Table;
    var src, a, b :| src in sources && src.year == year && IsImage(files[year], src, a, b);
    Statements.VouchersBalancedExact(files[year]);
    Statements.StatementsBalance(files[year], year);
    Statements.OtherErrors(files[year], year);
  }

  // ----- runs

  /** The mount and the manifests of all sets opened on it. */
  datatype World = World(disk: Disk, sets: seq<Manifest>)

  datatype Action = Create(name: string) | Open | ImportInto(index: nat, src: SourceYear)

  function Step(faults: Faults, w: World, action: Action): World {
    match action
    case Create(name) =>
      var a := CreateSet(faults, w.disk, name);
      World(a.disk, if a.result.Ok? then w.sets + [FreshManifest(name)] else w.sets)
    case Open =>
      if w.disk.manifest.Some? then w.(sets := w.sets + [w.disk.manifest.value]) else w
    case ImportInto(k, src) =>
      if k >= |w.sets| then w else
      var i := ImportOf(faults, w.sets[k], w.disk, src);
      World(i.disk, w.sets[k := i.manifest])
  }

  function Run(faults: Faults, w: World, actions: seq<Action>): World {
    if actions == [] then w
    else Step(faults, Run(faults, w, actions[..|actions| - 1]), actions[|actions| - 1])
  }

  function SourcesOf(actions: seq<Action>): seq<SourceYear> {
    if actions == [] then [] else
    var last := actions[|actions| - 1];
    SourcesOf(actions[..|actions| - 1]) + (if last.ImportInto? then [last.src] else [])
  }

  ghost predicate AllSound(w: World, sources: seq<SourceYear>) {
    && (w.disk.manifest.Some? ==> Sound(w.disk.manifest.value, w.disk.files, sources))
    && forall k :: 0 <= k < |w.sets| ==> Sound(w.sets[k], w.disk.files, sources)
  }

  lemma FreshSound(name: string, files: map<int, YearFile>, sources: seq<SourceYear>)
    ensures Sound(FreshManifest(name), files, sources)
  {
  }

  lemma StepSound(faults: Faults, w: World, action: Action, sources: seq<SourceYear>)
    requires AllSound(w, sources)
    ensures AllSound(Step(faults, w, action), sources + if action.ImportInto? then [action.src] else [])
  {
    hide ImportOf;
    hide Sound;
    assert sources + [] == sources;
    match action
    case Create(name) =>
      FreshSound(name, w.disk.files, sources);
    case Open =>
    case ImportInto(k, src) =>
      var next := Step(faults, w, action);
      if k < |w.sets| {
        ImportKeepsSound(faults, w.sets[k], w.disk, src, sources);
        ImportLeaves(faults, w.sets[k], w.disk, src);
      } else {
        assert Extends(w.disk.files, w.disk.files, src.year);
      }
      forall m | Sound(m, w.disk.files, sources) ensures Sound(m, next.disk.files, sources + [src]) {
        SoundExtended(m, w.disk.files, sources, next.disk.files, src.year, [src]);
      }
  }

  /** Whatever is created, opened and imported, and whichever writes fail: the saved manifest and the manifest
    * of every open set list only whole, balanced, correctly linked years with ids of their own. */
  lemma {:induction false} RunSound(faults: Faults, start: Disk, actions: seq<Action>)
    requires start.manifest.None?
    ensures AllSound(Run(faults, World(start, []), actions), SourcesOf(actions))
  {
    hide Step;
    hide Sound;
    if actions != [] {
      RunSound(faults, start, actions[..|actions| - 1]);
      StepSound(faults, Run(faults, World(start, []), actions[..|actions| - 1]), actions[|actions| - 1],
                SourcesOf(actions[..|actions| - 1]));
    }
  }

  /** A year file, once there, never changes again in a run. */
  lemma {:induction false} FilesStay(faults: Faults, w: World, actions: seq<Action>, year: int)
    requires year in w.disk.files
    ensures year in Run(faults, w, actions).disk.files
    ensures Run(faults, w, actions).disk.files[year] == w.disk.files[year]
  {
    hide ImportOf;
    if actions != [] {
      var before := Run(faults, w, actions[..|actions| - 1]);
      FilesStay(faults, w, actions[..|actions| - 1], year);
      var last := actions[|actions| - 1];
      if last.ImportInto? && last.index < |before.sets| {
        ImportLeaves(faults, before.sets[last.index], before.disk, last.src);
      }
    }
  }
}
