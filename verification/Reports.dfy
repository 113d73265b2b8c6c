/** Balances across years, and the comparison of years by code. */
module Reports {
  import opened Wrappers
  import opened Numbers
  import opened Sequences
  import opened Sorting
  import opened YearFiles
  import opened Relations
  import opened ReportQuery
  import opened Statements

  datatype BalanceRow = SruBalance(code: int, minor: int) | AccountBalance(year: int, account: int, minor: int)

  type Years = seq<(int, YearFile)>

  ghost predicate AllKeyed(files: Years) {
    forall y :: y in files ==> Keyed(y.1)
  }

  // ----- totals by code

  function CodesOf(rows: seq<ReportRow>): seq<int> {
    Keys(IntLess, Map(ReportKey, rows))
  }

  function Moves(rows: seq<ReportRow>): int -> bool {
    (c: int) => CodeSum(rows, c) != 0
  }

  function SruRow(rows: seq<ReportRow>): int -> BalanceRow {
    (c: int) => SruBalance(c, CodeSum(rows, c))
  }

  predicate SruFits(rows: seq<ReportRow>, c: int) {
    IsI32(c) && IsI64(CodeSum(rows, c))
  }

  /** The codes with a nonzero total, in order; refused when a code or a total is out of range. */
  function SruTotals(rows: seq<ReportRow>): Result<seq<BalanceRow>, StoreError> {
    var codes := Filter(Moves(rows), CodesOf(rows));
    if exists c :: c in codes && !SruFits(rows, c) then Err(Malformed) else Ok(Map(SruRow(rows), codes))
  }

  ghost predicate CodeSums(sums: map<int, int>, rows: seq<ReportRow>) {
    && sums.Keys == Elements(Map(ReportKey, rows))
    && forall c :: c in sums ==> sums[c] == CodeSum(rows, c)
  }

  lemma CodeSumsNext(sums: map<int, int>, rows: seq<ReportRow>, r: ReportRow)
    requires CodeSums(sums, rows)
    ensures
      var previous := if r.key in sums then sums[r.key] else 0;
      CodeSums(sums[r.key := previous + r.amount], rows + [r])
  {
    hide GroupSum;
    MapSnoc(ReportKey, rows, r);
    ElementsConcat(Map(ReportKey, rows), [ReportKey(r)]);
    var previous := if r.key in sums then sums[r.key] else 0;
    if r.key !in sums {
      NoRowOfCode(rows, r.key);
    }
    forall c | c in sums[r.key := previous + r.amount]
      ensures sums[r.key := previous + r.amount][c] == CodeSum(rows + [r], c)
    {
      GroupSumSnoc(ReportKey, ReportAmount, c, rows, r);
      assert OnlyKey(ReportKey, ReportAmount, c)(r) == if ReportKey(r) == c then ReportAmount(r) else 0;
    }
  }

  lemma NoRowOfCode(rows: seq<ReportRow>, c: int)
    requires c !in Elements(Map(ReportKey, rows))
    ensures CodeSum(rows, c) == 0
  {
    forall r | r in rows ensures OnlyKey(ReportKey, ReportAmount, c)(r) == 0 {
      var i :| 0 <= i < |rows| && rows[i] == r;
      assert Map(ReportKey, rows)[i] in Elements(Map(ReportKey, rows));
      assert ReportKey(r) != c;
    }
    SumOfZero(OnlyKey(ReportKey, ReportAmount, c), rows);
  }

  method SumByCode(rows: seq<ReportRow>) returns (sums: map<int, int>)
    ensures CodeSums(sums, rows)
  {
    hide CodeSum;
    sums := map[];
    for i := 0 to |rows|
      invariant CodeSums(sums, rows[..i])
    {
      assert rows[..i + 1] == rows[..i] + [rows[i]];
      CodeSumsNext(sums, rows[..i], rows[i]);
      sums := sums[rows[i].key := (if rows[i].key in sums then sums[rows[i].key] else 0) + rows[i].amount];
    }
    assert rows[..|rows|] == rows;
  }

  method CollectTotals(rows: seq<ReportRow>) returns (r: Result<seq<BalanceRow>, StoreError>)
    ensures r == SruTotals(rows)
  {
    hide CodeSum;
    hide Keys;
    hide Filter;
    var sums := SumByCode(rows);
    var codes := CodesOf(rows);
    var balances: seq<BalanceRow> := [];
    ghost var kept: seq<int> := [];
    assert codes[..0] == [] && Filter(Moves(rows), []) == [] by {
      FilterNone(Moves(rows));
    }
    for k := 0 to |codes|
      invariant kept == Filter(Moves(rows), codes[..k])
      invariant balances == Map(SruRow(rows), kept)
      invariant forall c :: c in kept ==> SruFits(rows, c)
    {
      var c := codes[k];
      assert c in Elements(codes);
      assert codes[..k + 1] == codes[..k] + [c];
      FilterSnoc(Moves(rows), codes[..k], c);
      if sums[c] != 0 {
        if !IsI32(c) || !IsI64(sums[c]) {
          assert c in codes && Moves(rows)(c) && !SruFits(rows, c);
          assert c in Filter(Moves(rows), codes);
          return Err(Malformed);
        }
        MapSnoc(SruRow(rows), kept, c);
        kept := kept + [c];
        balances := balances + [SruBalance(c, sums[c])];
      } else {
        assert kept + [] == kept;
      }
    }
    assert codes[..|codes|] == codes;
    r := Ok(balances);
  }

  // ----- `balances`

  /** Rows by year, then account. */
  function ByYear(): Less<ReportRow> {
    (a: ReportRow, b: ReportRow) => a.year < b.year || (a.year == b.year && a.key < b.key)
  }

  function AccountRow(r: ReportRow): BalanceRow {
    AccountBalance(r.year, r.key, r.amount)
  }

  function BalancesOf(files: Years, bySru: bool): Result<seq<BalanceRow>, StoreError> {
    var rows :- UnionReport(files, bySru);
    if bySru then SruTotals(rows) else Ok(Map(AccountRow, Sort(ByYear(), rows)))
  }

  method Balances(files: Years, bySru: bool) returns (r: Result<seq<BalanceRow>, StoreError>)
    ensures r == BalancesOf(files, bySru)
  {
    hide UnionReport;
    hide SruTotals;
    if files == [] {
      NothingReported(bySru);
      return Ok([]);
    }
    var report := UnionReport(files, bySru);
    if report.Err? {
      return Err(report.error);
    }
    var rows := report.value;
    if bySru {
      r := CollectTotals(rows);
    } else {
      rows := Sort(ByYear(), rows);
      r := Ok(Map(AccountRow, rows));
    }
  }

  lemma NothingReported(bySru: bool)
    ensures BalancesOf([], bySru) == Ok([])
  {
    assert Map(ReportKey, []) == [];
    assert CodesOf([]) == [];
  }

  // ----- what the balances are

  lemma {:induction false} UnionReportExact(files: Years, bySru: bool)
    requires AllKeyed(files)
    ensures UnionReport(files, bySru).Ok? <==> forall y, c :: y in files ==> IsI64(YearSum(bySru, y.1, c))
    ensures UnionReport(files, bySru).Ok? ==>
      forall r: ReportRow :: r in UnionReport(files, bySru).value <==>
        exists y :: y in files && y.0 == r.year && r.amount == YearSum(bySru, y.1, r.key) && r.amount != 0
  {
    hide YearSum;
    hide YearReport;
    if files != [] {
      var n := |files| - 1;
      var y := files[n];
      assert files == files[..n] + [y];
      UnionReportExact(files[..n], bySru);
      YearReportExact(y.0, y.1, bySru);
    }
  }

  /** Only 32-bit codes occur. */
  lemma {:induction false} CodesFit(f: YearFile, code: int)
    requires !IsI32(code)
    ensures YearSum(true, f, code) == 0
  {
    forall p | p in f.postings ensures Contribution(true, f.accounts, code)(p) == 0 {
    }
    SumOfZero(Contribution(true, f.accounts, code), f.postings);
  }

  lemma {:induction false} NoDirectSum(files: Years, code: int)
    requires forall y :: y in files ==> YearSum(true, y.1, code) == 0
    ensures DirectSum(true, files, code) == 0
  {
    hide YearSum;
    if files != [] {
      assert files[|files| - 1] in files;
      NoDirectSum(files[..|files| - 1], code);
    }
  }

  lemma TotalsExact(rows: seq<ReportRow>)
    requires SruTotals(rows).Ok?
    ensures forall c, v :: SruBalance(c, v) in SruTotals(rows).value <==> v == CodeSum(rows, c) && v != 0
    ensures Ascending(IntLess, Map(BalanceCode, SruTotals(rows).value))
    ensures forall b :: b in SruTotals(rows).value ==> b.SruBalance?
  {
    hide CodeSum;
    hide Keys;
    hide Filter;
    var codes := CodesOf(rows);
    var kept := Filter(Moves(rows), codes);
    KeysAscending(IntLess, Map(ReportKey, rows));
    FilterAscending(Moves(rows), codes);
    assert Map(BalanceCode, Map(SruRow(rows), kept)) == kept;
    forall c, v ensures SruBalance(c, v) in Map(SruRow(rows), kept) <==> v == CodeSum(rows, c) && v != 0 {
      if SruBalance(c, v) in Map(SruRow(rows), kept) {
        var i :| 0 <= i < |kept| && Map(SruRow(rows), kept)[i] == SruBalance(c, v);
        assert kept[i] == c && c in kept;
      }
      if v == CodeSum(rows, c) && v != 0 {
        if c !in Elements(Map(ReportKey, rows)) {
          NoRowOfCode(rows, c);
        }
        assert c in Elements(codes);
        assert c in kept;
        var i :| 0 <= i < |kept| && kept[i] == c;
        assert Map(SruRow(rows), kept)[i] == SruBalance(c, v);
      }
    }
  }

  function BalanceCode(b: BalanceRow): int {
    match b case SruBalance(code, _) => code case AccountBalance(_, account, _) => account
  }

  lemma {:induction false} FilterAscending(p: int -> bool, xs: seq<int>)
    requires Ascending(IntLess, xs)
    ensures Ascending(IntLess, Filter(p, xs))
  {
    if xs != [] {
      var n := |xs| - 1;
      FilterAscending(p, xs[..n]);
      var kept := Filter(p, xs[..n]);
      forall i | 0 <= i < |kept| ensures kept[i] < xs[n] {
        assert kept[i] in xs[..n];
        var j :| 0 <= j < n && xs[j] == kept[i];
      }
    }
  }

  /** Balances by code are the direct sums of all postings, zero codes dropped, codes ascending; they exist exactly
    * when all direct sums fit. */
  lemma SruBalancesExact(files: Years)
    requires AllKeyed(files)
    ensures BalancesOf(files, true).Ok? <==>
      && (forall y, c :: y in files ==> IsI64(YearSum(true, y.1, c)))
      && forall c :: IsI64(DirectSum(true, files, c))
    ensures BalancesOf(files, true).Ok? ==>
      && (forall c, v :: SruBalance(c, v) in BalancesOf(files, true).value <==>
            v == DirectSum(true, files, c) && v != 0)
      && Ascending(IntLess, Map(BalanceCode, BalancesOf(files, true).value))
  {
    hide YearSum;
    hide DirectSum;
    hide UnionReport;
    hide CodeSum;
    hide SruTotals;
    UnionReportExact(files, true);
    if UnionReport(files, true).Ok? {
      var rows := UnionReport(files, true).value;
      forall c ensures CodeSum(rows, c) == DirectSum(true, files, c) {
        UnionReportSum(files, true, c);
      }
      TotalsFit(files, rows);
      if SruTotals(rows).Ok? {
        TotalsExact(rows);
      }
    }
  }

  /** The codes that move are among those of the rows. */
  lemma MovingListed(rows: seq<ReportRow>, c: int)
    ensures c in Filter(Moves(rows), CodesOf(rows)) <==> CodeSum(rows, c) != 0
  {
    hide CodeSum;
    hide Keys;
    if c !in Elements(Map(ReportKey, rows)) {
      NoRowOfCode(rows, c);
    }
    assert c in CodesOf(rows) <==> c in Elements(CodesOf(rows));
    assert Moves(rows)(c) <==> CodeSum(rows, c) != 0;
  }

  lemma MovingIsCode(files: Years, c: int)
    requires DirectSum(true, files, c) != 0
    ensures IsI32(c)
  {
    hide YearSum;
    hide DirectSum;
    if !IsI32(c) {
      forall y | y in files ensures YearSum(true, y.1, c) == 0 {
        CodesFit(y.1, c);
      }
      NoDirectSum(files, c);
    }
  }

  lemma TotalsFit(files: Years, rows: seq<ReportRow>)
    requires forall c :: CodeSum(rows, c) == DirectSum(true, files, c)
    ensures SruTotals(rows).Ok? <==> forall c :: IsI64(DirectSum(true, files, c))
  {
    hide DirectSum;
    hide CodeSum;
    hide CodesOf;
    hide Filter;
    hide Moves;
    var codes := Filter(Moves(rows), CodesOf(rows));
    forall c ensures c in codes <==> DirectSum(true, files, c) != 0 {
      MovingListed(rows, c);
      assert CodeSum(rows, c) == DirectSum(true, files, c);
    }
    forall c ensures c in codes ==> (SruFits(rows, c) <==> IsI64(DirectSum(true, files, c))) {
      if c in codes {
        MovingIsCode(files, c);
        assert CodeSum(rows, c) == DirectSum(true, files, c);
      }
    }
    if c :| !IsI64(DirectSum(true, files, c)) {
      assert c in codes && !SruFits(rows, c);
    }
    if SruTotals(rows).Err? {
      var c :| c in codes && !SruFits(rows, c);
      assert !IsI64(DirectSum(true, files, c));
    }
  }

  /** The rows of a report by account come by year, then account. */
  lemma AccountBalancesOrdered(files: Years)
    requires BalancesOf(files, false).Ok?
    ensures
      var rows := BalancesOf(files, false).value;
      forall i, j :: 0 <= i < j < |rows| ==>
        && rows[i].AccountBalance? && rows[j].AccountBalance?
        && (rows[i].year < rows[j].year || (rows[i].year == rows[j].year && rows[i].account <= rows[j].account))
  {
    hide UnionReport;
    hide Sort;
    var rows := UnionReport(files, false).value;
    SortSorted(ByYear(), rows);
    var sorted := Sort(ByYear(), rows);
    forall i, j | 0 <= i < j < |sorted|
      ensures sorted[i].year < sorted[j].year || (sorted[i].year == sorted[j].year && sorted[i].key <= sorted[j].key)
    {
      assert !ByYear()(sorted[j], sorted[i]);
    }
  }

  /** Balances by account are, per year, the nonzero sums of the account's postings. */
  lemma AccountBalancesExact(files: Years)
    requires AllKeyed(files)
    ensures BalancesOf(files, false).Ok? <==> forall y, a :: y in files ==> IsI64(YearSum(false, y.1, a))
    ensures BalancesOf(files, false).Ok? ==>
      forall y, a, v :: AccountBalance(y, a, v) in BalancesOf(files, false).value <==>
        exists f :: f in files && f.0 == y && v == YearSum(false, f.1, a) && v != 0
  {
    hide YearSum;
    hide UnionReport;
    UnionReportExact(files, false);
    if UnionReport(files, false).Ok? {
      var rows := UnionReport(files, false).value;
      var sorted := Sort(ByYear(), rows);
      PermutedMembers(sorted, rows);
      forall y, a, v
        ensures AccountBalance(y, a, v) in Map(AccountRow, sorted) <==> ReportRow(y, a, v) in rows
      {
        if AccountBalance(y, a, v) in Map(AccountRow, sorted) {
          var i :| 0 <= i < |sorted| && Map(AccountRow, sorted)[i] == AccountBalance(y, a, v);
          assert sorted[i] == ReportRow(y, a, v);
        }
        if ReportRow(y, a, v) in rows {
          var i :| 0 <= i < |sorted| && sorted[i] == ReportRow(y, a, v);
          assert Map(AccountRow, sorted)[i] == AccountBalance(y, a, v);
        }
      }
    }
  }
}
