/** Financial statements of one year. */
module Statements {
  import opened Wrappers
  import opened Numbers
  import opened Sequences
  import opened Sorting
  import opened Text
  import opened Ledger
  import opened YearFiles
  import opened Relations
  import opened TrialBalance

  datatype CloseError =
    | StoreFailed(error: StoreError)
    | UnbalancedTrialBalance(minorSum: int)
    | UnbalancedVoucher(violation: Violation)
    | InvalidState
    | ArithmeticOverflow(role: string)

  datatype TrialBalanceRow = TrialBalanceRow(year: int, account: int, sruPlus: Option<int>, sruMinus: Option<int>,
                                             opening: int, debit: int, credit: int, closing: int)

  datatype StatementRow = StatementRow(caption: string, amount: int)

  datatype FinancialStatements = FinancialStatements(year: int, trial: seq<TrialBalanceRow>,
                                                     income: seq<StatementRow>, balance: seq<StatementRow>)

  function RowClosing(r: TrialBalanceRow): int { r.closing }
  function RowAmount(r: StatementRow): int { r.amount }
  function RowLabel(r: StatementRow): string { r.caption }

  function OfYear(year: int): TrialRow -> TrialBalanceRow {
    (r: TrialRow) => TrialBalanceRow(year, r.account, r.sruPlus, r.sruMinus, 0, r.debit, r.credit, r.closing)
  }

  function CheckedI64(sum: int, role: string): Result<int, CloseError> {
    if IsI64(sum) then Ok(sum) else Err(ArithmeticOverflow(role))
  }

  // ----- one statement table

  /** The code that the sign of the closing selects. */
  function ClosingSru(r: TrialBalanceRow): Option<int> {
    if r.closing >= 0 then Coalesce(r.sruPlus, r.sruMinus) else Coalesce(r.sruMinus, r.sruPlus)
  }

  predicate IsIncomeSru(sru: Option<int>) {
    sru.Some? && 3000 <= sru.value <= 8999
  }

  function Label(r: TrialBalanceRow): string {
    match ClosingSru(r)
    case Some(sru) => "SRU " + PrintInt(sru)
    case None => "Account " + PrintInt(r.account)
  }

  /** The rows a table shows: those that move, on its side of the income range. */
  function Shown(income: bool): TrialBalanceRow -> bool {
    (r: TrialBalanceRow) => r.closing != 0 && IsIncomeSru(ClosingSru(r)) == income
  }

  function ShownRows(rows: seq<TrialBalanceRow>, income: bool): seq<TrialBalanceRow> {
    Filter(Shown(income), rows)
  }

  function LabelSum(rows: seq<TrialBalanceRow>): string -> int {
    GroupSums(Label, RowClosing, rows)
  }

  function LabelRow(rows: seq<TrialBalanceRow>): string -> StatementRow {
    (l: string) => StatementRow(l, LabelSum(rows)(l))
  }

  function Labels(rows: seq<TrialBalanceRow>): seq<string> {
    Keys(StringLess, Map(Label, rows))
  }

  /** One row per label in label order, with the exact sum of the closings under it. */
  function Table(trial: seq<TrialBalanceRow>, income: bool): Result<seq<StatementRow>, CloseError> {
    var rows := ShownRows(trial, income);
    if exists l :: l in Labels(rows) && !IsI64(LabelSum(rows)(l)) then Err(ArithmeticOverflow("statement row"))
    else Ok(Map(LabelRow(rows), Labels(rows)))
  }

  /** Closing sums by label. */
  ghost predicate Sums(grouped: map<string, int>, rows: seq<TrialBalanceRow>) {
    && grouped.Keys == Elements(Map(Label, rows))
    && forall l :: l in grouped ==> grouped[l] == GroupSum(Label, RowClosing, l, rows)
  }

  lemma SumsNext(grouped: map<string, int>, rows: seq<TrialBalanceRow>, r: TrialBalanceRow)
    requires Sums(grouped, rows)
    ensures
      var previous := if Label(r) in grouped then grouped[Label(r)] else 0;
      Sums(grouped[Label(r) := previous + r.closing], rows + [r])
  {
    hide GroupSum;
    hide Label;
    var l := Label(r);
    MapSnoc(Label, rows, r);
    ElementsConcat(Map(Label, rows), [l]);
    var previous := if l in grouped then grouped[l] else 0;
    if l !in grouped {
      NoneInGroup(rows, l);
    }
    forall m | m in grouped[l := previous + r.closing]
      ensures grouped[l := previous + r.closing][m] == GroupSum(Label, RowClosing, m, rows + [r])
    {
      GroupSumSnoc(Label, RowClosing, m, rows, r);
      assert OnlyKey(Label, RowClosing, m)(r) == if l == m then RowClosing(r) else 0;
    }
  }

  lemma NoneInGroup(rows: seq<TrialBalanceRow>, l: string)
    requires l !in Elements(Map(Label, rows))
    ensures GroupSum(Label, RowClosing, l, rows) == 0
  {
    hide Label;
    forall r | r in rows ensures OnlyKey(Label, RowClosing, l)(r) == 0 {
      var i :| 0 <= i < |rows| && rows[i] == r;
      assert Map(Label, rows)[i] in Elements(Map(Label, rows));
      assert Label(r) != l;
    }
    SumOfZero(OnlyKey(Label, RowClosing, l), rows);
  }

  method GroupRows(trial: seq<TrialBalanceRow>, income: bool) returns (grouped: map<string, int>)
    ensures Sums(grouped, ShownRows(trial, income))
  {
    hide Filter;
    hide GroupSum;
    hide Label;
    hide Sums;
    grouped := map[];
    NothingSummed(income);
    assert trial[..0] == [];
    for i := 0 to |trial|
      invariant Sums(grouped, ShownRows(trial[..i], income))
    {
      var row := trial[i];
      assert trial[..i + 1] == trial[..i] + [row];
      FilterSnoc(Shown(income), trial[..i], row);
      assert ShownRows(trial[..i], income) + [] == ShownRows(trial[..i], income);
      if row.closing != 0 {
        var l := Label(row);
        if IsIncomeSru(ClosingSru(row)) == income {
          SumsNext(grouped, ShownRows(trial[..i], income), row);
          grouped := grouped[l := (if l in grouped then grouped[l] else 0) + row.closing];
        }
      }
    }
    assert trial[..|trial|] == trial;
  }

  lemma NothingSummed(income: bool)
    ensures Sums(map[], ShownRows([], income))
  {
  }

  /** The rows of a grouped map in the order of its labels, each amount checked. */
  method CheckedRows(grouped: map<string, int>, labels: seq<string>, ghost row: string -> StatementRow)
    returns (r: Result<seq<StatementRow>, CloseError>)
    requires forall l :: l in labels ==> l in grouped && row(l) == StatementRow(l, grouped[l])
    ensures r.Ok? <==> forall l :: l in labels ==> IsI64(grouped[l])
    ensures r == if r.Ok? then Ok(Map(row, labels)) else Err(ArithmeticOverflow("statement row"))
  {
    var table: seq<StatementRow> := [];
    for k := 0 to |labels|
      invariant table == Map(row, labels[..k])
      invariant forall j :: 0 <= j < k ==> IsI64(grouped[labels[j]])
    {
      var l := labels[k];
      assert l in labels;
      if !IsI64(grouped[l]) {
        return Err(ArithmeticOverflow("statement row"));
      }
      assert labels[..k + 1] == labels[..k] + [l];
      MapSnoc(row, labels[..k], l);
      table := table + [StatementRow(l, grouped[l])];
    }
    assert labels[..|labels|] == labels;
    r := Ok(table);
  }

  /** `table_from_rows`: accumulate by label, then the labels in order. */
  method TableFromRows(trial: seq<TrialBalanceRow>, income: bool) returns (r: Result<seq<StatementRow>, CloseError>)
    ensures r == Table(trial, income)
  {
    hide Filter;
    hide LabelSum;
    hide Label;
    hide Keys;
    hide Sums;
    var grouped := GroupRows(trial, income);
    ghost var rows := ShownRows(trial, income);
    forall l | l in Labels(rows) ensures l in grouped && LabelRow(rows)(l) == StatementRow(l, grouped[l]) {
      GroupedAt(grouped, rows, l);
    }
    r := CheckedRows(grouped, Labels(ShownRows(trial, income)), LabelRow(rows));
  }

  lemma GroupedAt(grouped: map<string, int>, rows: seq<TrialBalanceRow>, l: string)
    requires Sums(grouped, rows) && l in Labels(rows)
    ensures l in grouped && grouped[l] == LabelSum(rows)(l)
  {
    hide Label;
    hide Keys;
    assert l in Elements(Labels(rows));
  }

  function TotalMinor(table: seq<StatementRow>): Result<int, CloseError> {
    CheckedI64(SumOf(RowAmount, table), "statement total")
  }

  // ----- the statements

  /** The stored rows in id order, checked voucher by voucher. */
  function StoreViolations(f: YearFile): Result<seq<Violation>, int> {
    Violations(Sort(ByKey(VoucherKey), f.vouchers), Sort(ByKey(PostingKey), f.postings))
  }

  function EnsureVouchersBalanced(f: YearFile): Result<(), CloseError> {
    match StoreViolations(f)
    case Err(_) => Err(StoreFailed(Invalid))
    case Ok(found) => if found != [] then Err(UnbalancedVoucher(found[0])) else Ok(())
  }

  function TrialBalanceOf(f: YearFile, year: int): Result<seq<TrialBalanceRow>, CloseError> {
    match TrialBalanceData(f)
    case Err(e) => Err(StoreFailed(e))
    case Ok(rows) => Ok(Map(OfYear(year), rows))
  }

  function StatementsOf(f: YearFile, year: int): Result<FinancialStatements, CloseError> {
    var _ :- EnsureVouchersBalanced(f);
    var trial :- TrialBalanceOf(f, year);
    var total :- CheckedI64(SumOf(RowClosing, trial), "trial-balance total");
    if total != 0 then Err(UnbalancedTrialBalance(total)) else
    var income :- Table(trial, true);
    var balance :- Table(trial, false);
    Ok(FinancialStatements(year, trial, income, balance))
  }

  // ----- properties

  lemma VouchersBalancedExact(f: YearFile)
    ensures EnsureVouchersBalanced(f).Ok? <==> forall v :: v in f.vouchers ==> Balanced(v.id, f.postings)
  {
    hide Violations;
    hide Balanced;
    ViolationsPermuted(
      Sort(ByKey(VoucherKey), f.vouchers), f.vouchers, Sort(ByKey(PostingKey), f.postings), f.postings);
    NoViolations(f.vouchers, f.postings);
  }

  /** An unbalanced voucher is named: the one of the least id, with its number of postings and their sum. */
  lemma UnbalancedNamed(f: YearFile, v: Violation)
    ensures EnsureVouchersBalanced(f) == Err(UnbalancedVoucher(v)) ==>
      && v.voucherId in Map(VoucherKey, f.vouchers) && Violates(v, f.postings)
      && forall other :: other in f.vouchers && other.id < v.voucherId ==> Balanced(other.id, f.postings)
  {
    hide Violations;
    hide Balanced;
    hide VoucherCount;
    hide VoucherSum;
    if EnsureVouchersBalanced(f) != Err(UnbalancedVoucher(v)) {
      return;
    }
    ViolationsPermuted(Sort(ByKey(VoucherKey), f.vouchers), f.vouchers, Sort(ByKey(PostingKey), f.postings),
      f.postings);
    hide Sort;
    FirstViolation(f.vouchers, f.postings);
  }

  /** With keys kept and vouchers balanced, the trial balance sums to zero. */
  lemma TrialSumsToZero(f: YearFile, year: int)
    requires Keyed(f)
    ensures EnsureVouchersBalanced(f).Ok? && TrialBalanceOf(f, year).Ok? ==>
      SumOf(RowClosing, TrialBalanceOf(f, year).value) == 0
  {
    hide SumOf;
    hide TrialBalanceData;
    hide EnsureVouchersBalanced;
    hide Balanced;
    VouchersBalancedExact(f);
    if EnsureVouchersBalanced(f).Ok? && TrialBalanceOf(f, year).Ok? {
      DoubleEntry(f);
      SumOfMap(RowClosing, OfYear(year), TrialClosing, TrialBalanceData(f).value);
    }
  }

  /** A table's amounts sum to the closings of the rows it shows. */
  lemma TableSum(trial: seq<TrialBalanceRow>, income: bool)
    requires Table(trial, income).Ok?
    ensures SumOf(RowAmount, Table(trial, income).value) == SumOf(RowClosing, ShownRows(trial, income))
  {
    hide SumOf;
    hide Filter;
    hide Keys;
    hide Label;
    var rows := ShownRows(trial, income);
    StringsOrdered();
    KeysAscending(StringLess, Map(Label, rows));
    forall r | r in rows ensures Label(r) in Labels(rows) {
      var i :| 0 <= i < |rows| && rows[i] == r;
      assert Map(Label, rows)[i] in Elements(Map(Label, rows));
    }
    SumOfGroups(Label, RowClosing, rows, Labels(rows));
    SumOfMap(RowAmount, LabelRow(rows), LabelSum(rows), Labels(rows));
  }

  function ShownClosing(income: bool): TrialBalanceRow -> int {
    (r: TrialBalanceRow) => if Shown(income)(r) then RowClosing(r) else 0
  }

  predicate Moves(r: TrialBalanceRow) {
    r.closing != 0
  }

  lemma {:induction false} ShownOnce(trial: seq<TrialBalanceRow>)
    ensures multiset(ShownRows(trial, true)) + multiset(ShownRows(trial, false)) == multiset(Filter(Moves, trial))
  {
    if trial != [] {
      hide Filter;
      hide IsIncomeSru;
      hide ClosingSru;
      var init, r := trial[..|trial| - 1], trial[|trial| - 1];
      assert trial == init + [r];
      ShownOnce(init);
      FilterSnoc(Shown(true), init, r);
      FilterSnoc(Shown(false), init, r);
      FilterSnoc(Moves, init, r);
    }
  }

  /** Every moving row is shown in exactly one of the two tables, and no other row is shown. */
  lemma TwoTables(trial: seq<TrialBalanceRow>)
    ensures multiset(ShownRows(trial, true)) + multiset(ShownRows(trial, false)) == multiset(Filter(Moves, trial))
    ensures SumOf(RowClosing, ShownRows(trial, true)) + SumOf(RowClosing, ShownRows(trial, false)) ==
      SumOf(RowClosing, trial)
  {
    hide SumOf;
    hide Filter;
    hide IsIncomeSru;
    hide ClosingSru;
    ShownOnce(trial);
    SumOfFilter(RowClosing, Shown(true), ShownClosing(true), trial);
    SumOfFilter(RowClosing, Shown(false), ShownClosing(false), trial);
    SumOfPlus(ShownClosing(true), ShownClosing(false), RowClosing, trial);
  }

  /** The label tells the side: no label is shown in both tables. */
  lemma LabelTellsSide(a: TrialBalanceRow, b: TrialBalanceRow)
    requires IsIncomeSru(ClosingSru(a)) && !IsIncomeSru(ClosingSru(b))
    ensures Label(a) != Label(b)
  {
    hide PrintInt;
    hide ClosingSru;
    assert Label(a)[0] == 'S';
    if ClosingSru(b).Some? && Label(a) == Label(b) {
      assert Label(a)[4..] == PrintInt(ClosingSru(a).value) && Label(b)[4..] == PrintInt(ClosingSru(b).value);
      PrintIntInjective(ClosingSru(a).value, ClosingSru(b).value);
    }
  }

  lemma LabelsShown(trial: seq<TrialBalanceRow>, income: bool, l: string) returns (r: TrialBalanceRow)
    requires Table(trial, income).Ok? && l in Map(RowLabel, Table(trial, income).value)
    ensures r in trial && Shown(income)(r) && Label(r) == l
  {
    hide Label;
    hide Keys;
    var rows := ShownRows(trial, income);
    var table := Table(trial, income).value;
    var k :| 0 <= k < |table| && Map(RowLabel, table)[k] == l;
    assert l == Labels(rows)[k];
    assert l in Elements(Labels(rows));
    var i :| 0 <= i < |rows| && Map(Label, rows)[i] == l;
    r := rows[i];
  }

  lemma TablesDisjoint(trial: seq<TrialBalanceRow>)
    requires Table(trial, true).Ok? && Table(trial, false).Ok?
    ensures Elements(Map(RowLabel, Table(trial, true).value)) !! Elements(Map(RowLabel, Table(trial, false).value))
  {
    hide Table;
    hide Label;
    hide IsIncomeSru;
    hide ClosingSru;
    forall l | l in Map(RowLabel, Table(trial, true).value) && l in Map(RowLabel, Table(trial, false).value)
      ensures false
    {
      var a := LabelsShown(trial, true, l);
      var b := LabelsShown(trial, false, l);
      LabelTellsSide(a, b);
    }
  }

  /** Labels come once each, in ascending order. */
  lemma TableAscending(trial: seq<TrialBalanceRow>, income: bool)
    requires Table(trial, income).Ok?
    ensures Ascending(StringLess, Map(RowLabel, Table(trial, income).value))
  {
    hide Filter;
    hide Keys;
    hide Label;
    hide Lex;
    var rows := ShownRows(trial, income);
    StringsOrdered();
    KeysAscending(StringLess, Map(Label, rows));
    assert Map(RowLabel, Table(trial, income).value) == Labels(rows);
  }

  lemma OtherErrors(f: YearFile, year: int)
    ensures EnsureVouchersBalanced(f).Err? ==>
      EnsureVouchersBalanced(f).error.StoreFailed? || EnsureVouchersBalanced(f).error.UnbalancedVoucher?
    ensures TrialBalanceOf(f, year).Err? ==> TrialBalanceOf(f, year).error.StoreFailed?
    ensures forall trial, income :: Table(trial, income).Err? ==>
      Table(trial, income).error == ArithmeticOverflow("statement row")
  {
  }

  /** Whatever the keys: statements of an unbalanced trial balance are refused with its sum, and no others for that. */
  lemma UnbalancedTrialExact(f: YearFile, year: int)
    ensures forall sum :: StatementsOf(f, year) == Err(UnbalancedTrialBalance(sum)) <==>
      && (forall v :: v in f.vouchers ==> Balanced(v.id, f.postings)) && TrialBalanceOf(f, year).Ok?
      && sum == SumOf(RowClosing, TrialBalanceOf(f, year).value) && sum != 0 && IsI64(sum)
  {
    hide SumOf;
    hide TrialBalanceOf;
    hide EnsureVouchersBalanced;
    hide Balanced;
    hide Table;
    VouchersBalancedExact(f);
    OtherErrors(f, year);
  }

  // ----- existence in direct sums

  /** The closing of a row that one side shows under a label, and zero for all others. */
  function Under(income: bool, l: string): TrialBalanceRow -> int {
    (r: TrialBalanceRow) => if Shown(income)(r) && Label(r) == l then r.closing else 0
  }

  /** An account's row, straight from its own postings. */
  function AccountRowOf(postings: seq<Posting>, year: int): Account -> TrialBalanceRow {
    (a: Account) => OfYear(year)(RowFor(postings)(a))
  }

  function AccountUnder(postings: seq<Posting>, year: int, income: bool, l: string): Account -> int {
    (a: Account) => Under(income, l)(AccountRowOf(postings, year)(a))
  }

  /** The closings of the accounts that one side shows under a label, summed account by account. */
  function SumUnder(f: YearFile, year: int, income: bool, l: string): int {
    SumOf(AccountUnder(f.postings, year, income, l), f.accounts)
  }

  lemma LabelSumUnder(trial: seq<TrialBalanceRow>, income: bool, l: string)
    ensures LabelSum(ShownRows(trial, income))(l) == SumOf(Under(income, l), trial)
  {
    hide SumOf;
    hide Label;
    hide Filter;
    forall r | r in trial
      ensures Under(income, l)(r) == if Shown(income)(r) then OnlyKey(Label, RowClosing, l)(r) else 0
    {
      assert OnlyKey(Label, RowClosing, l)(r) == if Label(r) == l then RowClosing(r) else 0;
    }
    SumOfFilter(OnlyKey(Label, RowClosing, l), Shown(income), Under(income, l), trial);
  }

  /** A table exists exactly when the sums under all labels fit; a label without rows sums to zero. */
  lemma TableFits(trial: seq<TrialBalanceRow>, income: bool)
    ensures Table(trial, income).Ok? <==> forall l: string :: IsI64(LabelSum(ShownRows(trial, income))(l))
  {
    hide Label;
    hide Filter;
    hide GroupSum;
    hide Keys;
    var rows := ShownRows(trial, income);
    forall l: string ensures l in Labels(rows) || LabelSum(rows)(l) == 0 {
      if l !in Labels(rows) {
        assert l !in Elements(Labels(rows));
        NoneInGroup(rows, l);
      }
    }
  }

  function TrialUnder(year: int, income: bool, l: string): TrialRow -> int {
    (r: TrialRow) => Under(income, l)(OfYear(year)(r))
  }

  lemma AccountUnderOf(postings: seq<Posting>, year: int, income: bool, l: string)
    ensures forall a: Account ::
      AccountUnder(postings, year, income, l)(a) == TrialUnder(year, income, l)(RowFor(postings)(a))
  {
    hide Under;
    hide RowFor;
    hide OfYear;
    forall a: Account
      ensures AccountUnder(postings, year, income, l)(a) == TrialUnder(year, income, l)(RowFor(postings)(a))
    {
      assert AccountRowOf(postings, year)(a) == OfYear(year)(RowFor(postings)(a));
    }
  }

  lemma LabelSumDirect(f: YearFile, year: int, income: bool, l: string)
    requires NoDup(Map(AccountNumber, f.accounts)) && TrialBalanceOf(f, year).Ok?
    ensures LabelSum(ShownRows(TrialBalanceOf(f, year).value, income))(l) == SumUnder(f, year, income, l)
  {
    hide SumOf;
    hide TrialBalanceData;
    hide LabelSum;
    hide ShownRows;
    hide Under;
    hide OfYear;
    hide RowFor;
    var rows := TrialBalanceData(f).value;
    LabelSumUnder(Map(OfYear(year), rows), income, l);
    TrialBalanceExact(f);
    SumOfMap(Under(income, l), OfYear(year), TrialUnder(year, income, l), rows);
    SumOfPermuted(TrialUnder(year, income, l), rows, Map(RowFor(f.postings), f.accounts));
    AccountUnderOf(f.postings, year, income, l);
    SumOfMap(TrialUnder(year, income, l), RowFor(f.postings), AccountUnder(f.postings, year, income, l), f.accounts);
  }

  /** Trial balance and both tables exist exactly when the sums of every account, and those under every label, fit. */
  lemma TablesFit(f: YearFile, year: int)
    requires NoDup(Map(AccountNumber, f.accounts))
    ensures
      (TrialBalanceOf(f, year).Ok?
        && Table(TrialBalanceOf(f, year).value, true).Ok? && Table(TrialBalanceOf(f, year).value, false).Ok?)
      <==>
      ((forall a :: a in f.accounts ==> RowFits(RowFor(f.postings)(a)))
        && forall income: bool, l: string :: IsI64(SumUnder(f, year, income, l)))
  {
    hide Table;
    hide TrialBalanceData;
    hide RowFits;
    hide RowFor;
    hide LabelSum;
    hide SumUnder;
    hide ShownRows;
    TrialBalanceExact(f);
    if TrialBalanceOf(f, year).Ok? {
      var trial := TrialBalanceOf(f, year).value;
      TableFits(trial, true);
      TableFits(trial, false);
      forall income: bool, l: string
        ensures LabelSum(ShownRows(trial, income))(l) == SumUnder(f, year, income, l)
      {
        LabelSumDirect(f, year, income, l);
      }
    }
  }

  /** Double entry carried to the statements: where the schema's keys hold, the trial balance is never found
    * unbalanced, and income statement and balance sheet show disjoint labels and exactly opposite totals. */
  lemma StatementsBalance(f: YearFile, year: int)
    requires Keyed(f)
    ensures StatementsOf(f, year).Err? ==>
      && !StatementsOf(f, year).error.UnbalancedTrialBalance?
      && StatementsOf(f, year).error != ArithmeticOverflow("trial-balance total")
    ensures StatementsOf(f, year).Ok? <==>
      && (forall v :: v in f.vouchers ==> Balanced(v.id, f.postings))
      && (forall a :: a in f.accounts ==> RowFits(RowFor(f.postings)(a)))
      && (forall income: bool, l: string :: IsI64(SumUnder(f, year, income, l)))
    ensures StatementsOf(f, year).Ok? ==>
      var s := StatementsOf(f, year).value;
      && SumOf(RowClosing, s.trial) == 0
      && SumOf(RowAmount, s.income) == -SumOf(RowAmount, s.balance)
      && (TotalMinor(s.income).Ok? && TotalMinor(s.income).value != I64_MIN ==>
            TotalMinor(s.balance) == Ok(-TotalMinor(s.income).value))
      && Elements(Map(RowLabel, s.income)) !! Elements(Map(RowLabel, s.balance))
  {
    hide SumOf;
    hide TrialBalanceOf;
    hide EnsureVouchersBalanced;
    hide Balanced;
    hide Table;
    hide RowFits;
    hide RowFor;
    hide SumUnder;
    VouchersBalancedExact(f);
    TablesFit(f, year);
    OtherErrors(f, year);
    if EnsureVouchersBalanced(f).Ok? && TrialBalanceOf(f, year).Ok? {
      TrialSumsToZero(f, year);
      var trial := TrialBalanceOf(f, year).value;
      if Table(trial, true).Ok? && Table(trial, false).Ok? {
        TableSum(trial, true);
        TableSum(trial, false);
        TwoTables(trial);
        TablesDisjoint(trial);
      }
    }
  }
}
