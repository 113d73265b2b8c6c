/** The grouped report of one year and its union over years. */
module ReportQuery {
  import opened Wrappers
  import opened Numbers
  import opened Sequences
  import opened Sorting
  import opened Ledger
  import opened YearFiles
  import opened Relations

  type PostingRow = (Posting, Account)

  datatype SourceRow = SourceRow(year: int, key: Option<int>, minor: int)
  datatype GroupKey = GroupKey(year: int, key: Option<int>)
  datatype ReportRow = ReportRow(year: int, key: int, amount: int)

  function ReportKey(r: ReportRow): int { r.key }
  function ReportAmount(r: ReportRow): int { r.amount }
  predicate IsNonzero(r: ReportRow) { r.amount != 0 }
  predicate AmountFits(r: ReportRow) { IsI64(r.amount) }

  // ----- the query for one year

  function AtAccount(): (Posting, Account) -> bool {
    (p: Posting, a: Account) => p.account == a.number
  }

  /** The code that the sign of a posting selects at its account; otherwise the account number. */
  function CodeAt(bySru: bool, p: Posting, a: Account): Option<int> {
    if !bySru then Some(a.number)
    else if p.amount >= 0 then Coalesce(a.sruPlus, a.sruMinus)
    else Coalesce(a.sruMinus, a.sruPlus)
  }

  function Project(year: int, bySru: bool): PostingRow -> SourceRow {
    (r: PostingRow) => SourceRow(year, CodeAt(bySru, r.0, r.1), r.0.amount)
  }

  predicate HasKey(r: SourceRow) { r.key.Some? }

  function KeyOfRow(r: SourceRow): GroupKey { GroupKey(r.year, r.key) }

  function Minor(r: SourceRow): int { r.minor }

  function Projected(year: int, f: YearFile, bySru: bool): seq<SourceRow> {
    Map(Project(year, bySru), InnerJoin(AtAccount(), f.postings, f.accounts))
  }

  function Filtered(year: int, f: YearFile, bySru: bool): seq<SourceRow> {
    if bySru then Filter(HasKey, Projected(year, f, bySru)) else Projected(year, f, bySru)
  }

  function GroupRow(rows: seq<SourceRow>): GroupKey -> ReportRow {
    (k: GroupKey) => ReportRow(k.year, if k.key.Some? then k.key.value else 0, GroupSum(KeyOfRow, Minor, k, rows))
  }

  function Groups(year: int, f: YearFile, bySru: bool): seq<ReportRow> {
    var rows := Filtered(year, f, bySru);
    Map(GroupRow(rows), Distinct(Map(KeyOfRow, rows)))
  }

  function YearReport(year: int, f: YearFile, bySru: bool): Result<seq<ReportRow>, StoreError> {
    if exists r :: r in Groups(year, f, bySru) && !AmountFits(r) then Err(Failed)
    else Ok(Sort(ByKey(ReportKey), Filter(IsNonzero, Groups(year, f, bySru))))
  }

  /** `UNION ALL` of the reports of several years. */
  function UnionReport(files: seq<(int, YearFile)>, bySru: bool): Result<seq<ReportRow>, StoreError> {
    if files == [] then Ok([]) else
    var n := |files| - 1;
    var before :- UnionReport(files[..n], bySru);
    var last :- YearReport(files[n].0, files[n].1, bySru);
    Ok(before + last)
  }

  // ----- the direct sum

  function AccountOf(accounts: seq<Account>, number: int): Option<Account> {
    if accounts == [] then None
    else if AccountNumber(accounts[|accounts| - 1]) == number then Some(accounts[|accounts| - 1])
    else AccountOf(accounts[..|accounts| - 1], number)
  }

  /** What one posting contributes to `code`, by its own account and sign. */
  function Contribution(bySru: bool, accounts: seq<Account>, code: int): Posting -> int {
    (p: Posting) =>
      var a := AccountOf(accounts, p.account);
      if a.Some? && CodeAt(bySru, p, a.value) == Some(code) then p.amount else 0
  }

  /** The sum of all postings of a year that map to `code`. */
  function YearSum(bySru: bool, f: YearFile, code: int): int {
    SumOf(Contribution(bySru, f.accounts, code), f.postings)
  }

  function DirectSum(bySru: bool, files: seq<(int, YearFile)>, code: int): int {
    if files == [] then 0
    else DirectSum(bySru, files[..|files| - 1], code) + YearSum(bySru, files[|files| - 1].1, code)
  }

  // ----- the query sums the postings

  lemma {:induction false} NoPartner(p: Posting, accounts: seq<Account>)
    requires p.account !in Map(AccountNumber, accounts)
    ensures Partners(AtAccount(), p, accounts) == []
  {
    if accounts != [] {
      var n := |accounts| - 1;
      assert Map(AccountNumber, accounts)[n] == accounts[n].number;
      assert forall i :: 0 <= i < n ==> Map(AccountNumber, accounts[..n])[i] == Map(AccountNumber, accounts)[i];
      NoPartner(p, accounts[..n]);
    }
  }

  /** With distinct accounts a posting joins with its own account only. */
  lemma {:induction false} OnePartner(p: Posting, accounts: seq<Account>)
    requires NoDup(Map(AccountNumber, accounts)) && PostingAccount(p) in Map(AccountNumber, accounts)
    ensures AccountOf(accounts, p.account).Some?
    ensures Partners(AtAccount(), p, accounts) == [AccountOf(accounts, p.account).value]
  {
    var n := |accounts| - 1;
    var numbers := Map(AccountNumber, accounts);
    assert numbers[n] == AccountNumber(accounts[n]);
    assert Map(AccountNumber, accounts[..n]) == numbers[..n];
    assert numbers == numbers[..n] + [numbers[n]];
    NoDupSnoc(numbers[..n], numbers[n]);
    if AccountNumber(accounts[n]) == p.account {
      NoPartner(p, accounts[..n]);
    } else {
      OnePartner(p, accounts[..n]);
    }
  }

  /** Joined row of one posting, counted for one code. */
  function RowContribution(bySru: bool, code: int): PostingRow -> int {
    (r: PostingRow) => if CodeAt(bySru, r.0, r.1) == Some(code) then r.0.amount else 0
  }

  lemma JoinedRowSum(bySru: bool, code: int, p: Posting, accounts: seq<Account>)
    requires NoDup(Map(AccountNumber, accounts)) && PostingAccount(p) in Map(AccountNumber, accounts)
    ensures SumOf(RowContribution(bySru, code), InnerRows(AtAccount(), accounts)(p)) ==
      Contribution(bySru, accounts, code)(p)
  {
    hide Partners;
    hide CodeAt;
    OnePartner(p, accounts);
    var a := AccountOf(accounts, p.account).value;
    assert InnerRows(AtAccount(), accounts)(p) == [] + [(p, a)];
    SumOfSnoc(RowContribution(bySru, code), [], (p, a));
  }

  lemma JoinSum(bySru: bool, f: YearFile, code: int)
    requires Keyed(f)
    ensures SumOf(RowContribution(bySru, code), InnerJoin(AtAccount(), f.postings, f.accounts)) ==
      YearSum(bySru, f, code)
  {
    hide SumOf;
    hide InnerRows;
    hide Contribution;
    var rowsOf := InnerRows(AtAccount(), f.accounts);
    SumOfFlatMap(RowContribution(bySru, code), rowsOf, f.postings);
    forall p | p in f.postings
      ensures SumsOf(RowContribution(bySru, code), rowsOf)(p) == Contribution(bySru, f.accounts, code)(p)
    {
      var i :| 0 <= i < |f.postings| && f.postings[i] == p;
      assert Map(PostingAccount, f.postings)[i] in Elements(Map(PostingAccount, f.postings));
      JoinedRowSum(bySru, code, p, f.accounts);
    }
    SumOfSame(SumsOf(RowContribution(bySru, code), rowsOf), Contribution(bySru, f.accounts, code), f.postings);
  }

  function OnlyCode(code: int): SourceRow -> int {
    (r: SourceRow) => if r.key == Some(code) then r.minor else 0
  }

  lemma AlwaysKeyed(year: int, f: YearFile)
    ensures Filter(HasKey, Projected(year, f, false)) == Projected(year, f, false)
  {
    FilterAll(HasKey, Projected(year, f, false));
  }

  lemma FilteredSum(year: int, f: YearFile, bySru: bool, code: int)
    requires Keyed(f)
    ensures SumOf(OnlyCode(code), Filtered(year, f, bySru)) == YearSum(bySru, f, code)
    ensures forall r :: r in Filtered(year, f, bySru) ==> r.key.Some? && r.year == year
  {
    hide SumOf;
    hide InnerJoin;
    hide YearSum;
    if !bySru {
      AlwaysKeyed(year, f);
    }
    SumOfFilter(OnlyCode(code), HasKey, OnlyCode(code), Projected(year, f, bySru));
    SumOfMap(OnlyCode(code), Project(year, bySru), RowContribution(bySru, code),
             InnerJoin(AtAccount(), f.postings, f.accounts));
    JoinSum(bySru, f, code);
  }

  // ----- grouping loses nothing

  /** The report amounts under one code. */
  function CodeSum(rows: seq<ReportRow>, code: int): int {
    GroupSum(ReportKey, ReportAmount, code, rows)
  }

  lemma GroupsSum(year: int, rows: seq<SourceRow>, code: int)
    requires forall r :: r in rows ==> r.key.Some? && r.year == year
    ensures CodeSum(Map(GroupRow(rows), Distinct(Map(KeyOfRow, rows))), code) == SumOf(OnlyCode(code), rows)
  {
    hide SumOf;
    var keys := Distinct(Map(KeyOfRow, rows));
    var k := GroupKey(year, Some(code));
    var amount := OnlyKey(ReportKey, ReportAmount, code);
    var amountOf := (g: GroupKey) => amount(GroupRow(rows)(g));
    DistinctExact(Map(KeyOfRow, rows));
    SumOfMap(amount, GroupRow(rows), amountOf, keys);
    forall g | g in keys ensures g.key.Some? && g.year == year {
      assert g in Elements(keys);
      var i :| 0 <= i < |rows| && Map(KeyOfRow, rows)[i] == g;
      assert rows[i] in rows;
    }
    forall r | r in rows ensures OnlyKey(KeyOfRow, Minor, k)(r) == OnlyCode(code)(r) {
      assert KeyOfRow(r) == k <==> r.key == Some(code);
      assert Minor(r) == r.minor;
    }
    SumOfSame(OnlyKey(KeyOfRow, Minor, k), OnlyCode(code), rows);
    forall g | g in keys ensures amountOf(g) == if g == k then GroupSum(KeyOfRow, Minor, k, rows) else 0 {
      var r := GroupRow(rows)(g);
      assert ReportKey(r) == code <==> g == k;
      assert ReportAmount(r) == GroupSum(KeyOfRow, Minor, g, rows);
    }
    if k in keys {
      SumOfSpike(amountOf, keys, k);
    } else {
      SumOfZero(amountOf, keys);
      forall r | r in rows ensures OnlyCode(code)(r) == 0 {
        var i :| 0 <= i < |rows| && rows[i] == r;
        assert Map(KeyOfRow, rows)[i] in Elements(keys);
        assert KeyOfRow(r) in keys;
      }
      SumOfZero(OnlyCode(code), rows);
    }
  }

  /** Dropping zero groups and ordering change no sum: per code, the report is the direct sum. */
  lemma YearReportSum(year: int, f: YearFile, bySru: bool, code: int)
    requires Keyed(f)
    ensures YearReport(year, f, bySru).Ok? ==>
      CodeSum(YearReport(year, f, bySru).value, code) == YearSum(bySru, f, code)
  {
    hide SumOf;
    hide YearSum;
    hide Filtered;
    FilteredSum(year, f, bySru, code);
    GroupsSum(year, Filtered(year, f, bySru), code);
    var amount := OnlyKey(ReportKey, ReportAmount, code);
    var groups := Groups(year, f, bySru);
    ZeroGroups(groups, code);
    SumOfPermuted(amount, Sort(ByKey(ReportKey), Filter(IsNonzero, groups)), Filter(IsNonzero, groups));
  }

  lemma ZeroGroups(groups: seq<ReportRow>, code: int)
    ensures CodeSum(Filter(IsNonzero, groups), code) == CodeSum(groups, code)
  {
    hide SumOf;
    var amount := OnlyKey(ReportKey, ReportAmount, code);
    forall r | r in groups ensures amount(r) == if IsNonzero(r) then amount(r) else 0 {
      assert ReportAmount(r) == r.amount;
    }
    SumOfFilter(amount, IsNonzero, amount, groups);
  }

  /** The union of the reports sums, per code, to the direct sum over all years. */
  lemma {:induction false} UnionReportSum(files: seq<(int, YearFile)>, bySru: bool, code: int)
    requires forall y :: y in files ==> Keyed(y.1)
    ensures UnionReport(files, bySru).Ok? ==>
      CodeSum(UnionReport(files, bySru).value, code) == DirectSum(bySru, files, code)
  {
    hide SumOf;
    hide YearReport;
    hide YearSum;
    if files == [] {
      NoRows(ReportKey, ReportAmount, code);
    } else if UnionReport(files, bySru).Ok? {
      var n := |files| - 1;
      UnionReportSum(files[..n], bySru, code);
      YearReportSum(files[n].0, files[n].1, bySru, code);
      SumOfConcat(OnlyKey(ReportKey, ReportAmount, code), UnionReport(files[..n], bySru).value,
                  YearReport(files[n].0, files[n].1, bySru).value);
    }
  }

  // ----- the rows of one report

  /** Each code has at most one group. */
  lemma GroupKeys(year: int, rows: seq<SourceRow>)
    requires forall r :: r in rows ==> r.key.Some? && r.year == year
    ensures NoDup(Map(ReportKey, Map(GroupRow(rows), Distinct(Map(KeyOfRow, rows)))))
  {
    hide GroupSum;
    var keys := Distinct(Map(KeyOfRow, rows));
    DistinctExact(Map(KeyOfRow, rows));
    forall g | g in keys ensures g.key.Some? && g.year == year {
      assert g in Elements(keys);
      var i :| 0 <= i < |rows| && Map(KeyOfRow, rows)[i] == g;
      assert rows[i] in rows;
    }
    var groups := Map(GroupRow(rows), keys);
    forall i, j | 0 <= i < j < |keys| ensures Map(ReportKey, groups)[i] != Map(ReportKey, groups)[j] {
      assert groups[i].key == keys[i].key.value && groups[j].key == keys[j].key.value;
      assert keys[i] != keys[j] && keys[i] in keys && keys[j] in keys;
    }
  }

  lemma GroupYears(year: int, rows: seq<SourceRow>)
    requires forall r :: r in rows ==> r.key.Some? && r.year == year
    ensures forall g :: g in Map(GroupRow(rows), Distinct(Map(KeyOfRow, rows))) ==> g.year == year
  {
    hide GroupSum;
    var keys := Distinct(Map(KeyOfRow, rows));
    var groups := Map(GroupRow(rows), keys);
    DistinctExact(Map(KeyOfRow, rows));
    forall g | g in groups ensures g.year == year {
      var i :| 0 <= i < |groups| && groups[i] == g;
      assert keys[i] in Elements(keys);
      var j :| 0 <= j < |rows| && Map(KeyOfRow, rows)[j] == keys[i];
      assert rows[j] in rows;
    }
  }

  /** With one row per code, the row of a code holds the code's sum, and a code without a row sums to zero. */
  lemma OneRowPerCode(rows: seq<ReportRow>, code: int)
    requires NoDup(Map(ReportKey, rows))
    ensures forall r :: r in rows && r.key == code ==> r.amount == CodeSum(rows, code)
    ensures CodeSum(rows, code) != 0 ==> exists r :: r in rows && r.key == code
  {
    hide SumOf;
    var amount := OnlyKey(ReportKey, ReportAmount, code);
    forall r | r in rows && r.key == code ensures r.amount == CodeSum(rows, code) {
      var keys := Map(ReportKey, rows);
      var k :| 0 <= k < |rows| && rows[k] == r;
      forall s | s in rows && s != r ensures amount(s) == 0 {
        var j :| 0 <= j < |rows| && rows[j] == s;
        assert keys[j] != keys[k];
        assert ReportKey(s) != code;
      }
      assert NoDup(rows) by {
        assert forall i, j :: 0 <= i < j < |rows| ==> keys[i] != keys[j];
      }
      SumOfSpike(amount, rows, r);
      assert ReportKey(r) == code && ReportAmount(r) == r.amount;
    }
    if forall r :: r in rows ==> r.key != code {
      forall r | r in rows ensures amount(r) == 0 {
        assert ReportKey(r) != code;
      }
      SumOfZero(amount, rows);
    }
  }

  /** The groups hold the direct sum of each key that moves, under the report's year. */
  ghost predicate GroupsExact(groups: seq<ReportRow>, year: int, f: YearFile, bySru: bool) {
    && NoDup(Map(ReportKey, groups))
    && (forall r :: r in groups ==> r.year == year && r.amount == YearSum(bySru, f, r.key))
    && forall c :: YearSum(bySru, f, c) != 0 ==> exists r :: r in groups && r.key == c
  }

  lemma GroupsAreExact(year: int, f: YearFile, bySru: bool)
    requires Keyed(f)
    ensures GroupsExact(Groups(year, f, bySru), year, f, bySru)
  {
    hide YearSum;
    hide Filtered;
    hide GroupRow;
    hide CodeSum;
    var rows := Filtered(year, f, bySru);
    var groups := Groups(year, f, bySru);
    FilteredSum(year, f, bySru, 0);
    GroupKeys(year, rows);
    GroupYears(year, rows);
    forall c
      ensures forall r :: r in groups && r.key == c ==> r.amount == YearSum(bySru, f, c)
      ensures YearSum(bySru, f, c) != 0 ==> exists r :: r in groups && r.key == c
    {
      FilteredSum(year, f, bySru, c);
      GroupsSum(year, rows, c);
      OneRowPerCode(groups, c);
    }
  }

  /** The groups that move, in key order, are exactly the nonzero direct sums. */
  lemma SortedGroups(groups: seq<ReportRow>, year: int, f: YearFile, bySru: bool)
    requires GroupsExact(groups, year, f, bySru)
    ensures
      var kept := Sort(ByKey(ReportKey), Filter(IsNonzero, groups));
      && Ascending(IntLess, Map(ReportKey, kept))
      && forall r :: r in kept <==> r.year == year && r.amount == YearSum(bySru, f, r.key) && r.amount != 0
  {
    hide YearSum;
    hide NoDup;
    hide Sort;
    var kept := Filter(IsNonzero, groups);
    FilterKeepsDistinct(ReportKey, IsNonzero, groups);
    hide Filter;
    SortByKey(ReportKey, kept);
    PermutedMembers(Sort(ByKey(ReportKey), kept), kept);
    forall r: ReportRow | r.year == year && r.amount == YearSum(bySru, f, r.key) && r.amount != 0
      ensures r in groups
    {
      var g :| g in groups && g.key == r.key;
      assert g == r;
    }
  }

  /** The report of a year exists when every direct sum is a 64-bit integer; it then lists, in ascending key order,
    * exactly the keys with a nonzero sum. */
  lemma YearReportExact(year: int, f: YearFile, bySru: bool)
    requires Keyed(f)
    ensures YearReport(year, f, bySru).Ok? <==> forall c :: IsI64(YearSum(bySru, f, c))
    ensures YearReport(year, f, bySru).Ok? ==>
      && Ascending(IntLess, Map(ReportKey, YearReport(year, f, bySru).value))
      && forall r :: r in YearReport(year, f, bySru).value <==>
           r.year == year && r.amount == YearSum(bySru, f, r.key) && r.amount != 0
  {
    hide YearSum;
    hide Groups;
    hide NoDup;
    hide Sort;
    hide Filter;
    GroupsAreExact(year, f, bySru);
    ReportFits(Groups(year, f, bySru), f, bySru);
    SortedGroups(Groups(year, f, bySru), year, f, bySru);
  }

  lemma ReportFits(groups: seq<ReportRow>, f: YearFile, bySru: bool)
    requires forall r :: r in groups ==> r.amount == YearSum(bySru, f, r.key)
    requires forall c :: YearSum(bySru, f, c) != 0 ==> exists r :: r in groups && r.key == c
    ensures (exists r :: r in groups && !AmountFits(r)) <==> !forall c :: IsI64(YearSum(bySru, f, c))
  {
    hide YearSum;
    if c :| !IsI64(YearSum(bySru, f, c)) {
      var r :| r in groups && r.key == c;
      assert !AmountFits(r);
    }
  }
}
