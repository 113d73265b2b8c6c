/** What stands in the statements of a year, in the terms of its accounts and postings. */
module StatementContents {
  import opened Wrappers
  import opened Sequences
  import opened Sorting
  import opened Text
  import opened Ledger
  import opened YearFiles
  import opened Relations
  import opened TrialBalance
  import opened Statements

  // ----- an account, from its postings

  function Debited(number: int): Posting -> int {
    (p: Posting) => if p.account == number && p.amount > 0 then p.amount as int else 0
  }

  function Credited(number: int): Posting -> int {
    (p: Posting) => if p.account == number && p.amount < 0 then -(p.amount as int) else 0
  }

  function Booked(number: int): Posting -> int {
    (p: Posting) => if p.account == number then p.amount as int else 0
  }

  function ClosingOf(f: YearFile, a: Account): int {
    SumOf(Booked(a.number), f.postings)
  }

  /** The code for the closing: the plus code first from zero on, the minus code first below. */
  function CodeOf(f: YearFile, a: Account): Option<int> {
    if ClosingOf(f, a) >= 0 then (if a.sruPlus.Some? then a.sruPlus else a.sruMinus)
    else (if a.sruMinus.Some? then a.sruMinus else a.sruPlus)
  }

  function Caption(f: YearFile, a: Account): string {
    match CodeOf(f, a)
    case Some(c) => "SRU " + PrintInt(c)
    case None => "Account " + PrintInt(a.number)
  }

  /** The codes of the income statement run from 3000 to 8999. */
  predicate InIncome(f: YearFile, a: Account) {
    match CodeOf(f, a)
    case Some(c) => 3000 <= c && c <= 8999
    case None => false
  }

  /** The account moves and is shown under the caption on one side. */
  predicate ShownAs(f: YearFile, a: Account, income: bool, caption: string) {
    ClosingOf(f, a) != 0 && InIncome(f, a) == income && Caption(f, a) == caption
  }

  function ShownAmount(f: YearFile, income: bool, caption: string): Account -> int {
    (a: Account) => if ShownAs(f, a, income, caption) then ClosingOf(f, a) else 0
  }

  // ----- the trial balance

  lemma SameSum<T>(f: T -> int, g: T -> int, xs: seq<T>)
    requires forall x :: x in xs ==> f(x) == g(x)
    ensures SumOf(f, xs) == SumOf(g, xs)
  {
    SumOfSame(f, g, xs);
  }

  lemma AccountSums(f: YearFile, number: int)
    ensures GroupSum(PostingAccount, DebitPart, number, f.postings) == SumOf(Debited(number), f.postings)
    ensures GroupSum(PostingAccount, CreditPart, number, f.postings) == SumOf(Credited(number), f.postings)
    ensures GroupSum(PostingAccount, PostingAmount, number, f.postings) == SumOf(Booked(number), f.postings)
  {
    hide SumOf;
    forall p: Posting
      ensures OnlyKey(PostingAccount, DebitPart, number)(p) == Debited(number)(p)
      ensures OnlyKey(PostingAccount, CreditPart, number)(p) == Credited(number)(p)
      ensures OnlyKey(PostingAccount, PostingAmount, number)(p) == Booked(number)(p)
    {
      assert OnlyKey(PostingAccount, DebitPart, number)(p) == if PostingAccount(p) == number then DebitPart(p) else 0;
      assert OnlyKey(PostingAccount, CreditPart, number)(p) == if PostingAccount(p) == number then CreditPart(p) else 0;
      assert OnlyKey(PostingAccount, PostingAmount, number)(p) == if PostingAccount(p) ==
        number then PostingAmount(p) else 0;
    }
    SameSum(OnlyKey(PostingAccount, DebitPart, number), Debited(number), f.postings);
    SameSum(OnlyKey(PostingAccount, CreditPart, number), Credited(number), f.postings);
    SameSum(OnlyKey(PostingAccount, PostingAmount, number), Booked(number), f.postings);
  }

  /** The row of an account. */
  function TrialRowFor(f: YearFile, year: int): Account -> TrialBalanceRow {
    (a: Account) =>
      TrialBalanceRow(year, a.number, a.sruPlus, a.sruMinus, 0,
                      SumOf(Debited(a.number), f.postings), SumOf(Credited(a.number), f.postings), ClosingOf(f, a))
  }

  lemma RowOfAccount(f: YearFile, year: int, a: Account)
    ensures AccountRowOf(f.postings, year)(a) == TrialRowFor(f, year)(a)
    ensures
      var r := AccountRowOf(f.postings, year)(a);
      && r.closing == ClosingOf(f, a) && Label(r) == Caption(f, a) && (IsIncomeSru(ClosingSru(r)) <==> InIncome(f, a))
  {
    hide GroupSum;
    hide SumOf;
    hide PrintInt;
    AccountSums(f, a.number);
    var t := RowFor(f.postings)(a);
    assert AccountRowOf(f.postings, year)(a) == OfYear(year)(t);
    assert t.closing == ClosingOf(f, a);
  }

  lemma SumShown(f: YearFile, year: int, income: bool, caption: string)
    ensures SumUnder(f, year, income, caption) == SumOf(ShownAmount(f, income, caption), f.accounts)
  {
    hide SumOf;
    hide Label;
    hide Caption;
    hide InIncome;
    hide IsIncomeSru;
    hide ClosingSru;
    hide RowFor;
    hide OfYear;
    hide ClosingOf;
    hide TrialRowFor;
    forall a: Account
      ensures AccountUnder(f.postings, year, income, caption)(a) == ShownAmount(f, income, caption)(a)
    {
      RowOfAccount(f, year, a);
      var r := AccountRowOf(f.postings, year)(a);
      assert AccountUnder(f.postings, year, income, caption)(a) == Under(income, caption)(r);
      assert Shown(income)(r) <==> r.closing != 0 && IsIncomeSru(ClosingSru(r)) == income;
      assert ShownAmount(f, income, caption)(a) == if ShownAs(f, a, income, caption) then ClosingOf(f, a) else 0;
    }
    SameSum(AccountUnder(f.postings, year, income, caption), ShownAmount(f, income, caption), f.accounts);
  }

  lemma TrialRows(f: YearFile, year: int)
    requires Keyed(f) && TrialBalanceOf(f, year).Ok?
    ensures multiset(TrialBalanceOf(f, year).value) == multiset(Map(TrialRowFor(f, year), f.accounts))
    ensures
      var trial := TrialBalanceOf(f, year).value;
      forall i, j :: 0 <= i < j < |trial| ==> trial[i].account < trial[j].account
  {
    hide TrialBalanceData;
    hide RowFor;
    hide TrialRowFor;
    TrialBalanceExact(f);
    var rows := TrialBalanceData(f).value;
    MapPermuted(OfYear(year), rows, Map(RowFor(f.postings), f.accounts));
    forall i | 0 <= i < |f.accounts|
      ensures Map(OfYear(year), Map(RowFor(f.postings), f.accounts))[i] == Map(TrialRowFor(f, year), f.accounts)[i]
    {
      RowOfAccount(f, year, f.accounts[i]);
    }
    assert Map(OfYear(year), Map(RowFor(f.postings), f.accounts)) == Map(TrialRowFor(f, year), f.accounts);
    IntsAscend(Map(TrialAccount, rows));
    var trial := Map(OfYear(year), rows);
    forall i, j | 0 <= i < j < |trial| ensures trial[i].account < trial[j].account {
      assert Map(TrialAccount, rows)[i] < Map(TrialAccount, rows)[j];
    }
  }

  // ----- the tables

  /** A row of a table is a caption of some account shown on the side, with the closings shown under it. */
  ghost predicate RowOf(f: YearFile, income: bool, row: StatementRow) {
    && (exists a :: a in f.accounts && ShownAs(f, a, income, row.caption))
    && row.amount == SumOf(ShownAmount(f, income, row.caption), f.accounts)
  }

  lemma CaptionListed(f: YearFile, year: int, income: bool, caption: string)
    requires Keyed(f) && TrialBalanceOf(f, year).Ok?
    ensures
      caption in Labels(ShownRows(TrialBalanceOf(f, year).value, income)) <==>
      exists a :: a in f.accounts && ShownAs(f, a, income, caption)
  {
    hide TrialBalanceOf;
    hide Filter;
    hide Label;
    hide Caption;
    hide InIncome;
    hide IsIncomeSru;
    hide ClosingSru;
    hide ClosingOf;
    hide Keys;
    var trial := TrialBalanceOf(f, year).value;
    var rows := ShownRows(trial, income);
    var all := Map(TrialRowFor(f, year), f.accounts);
    TrialRows(f, year);
    PermutedMembers(trial, all);
    hide TrialRowFor;
    if caption in Labels(rows) {
      assert caption in Elements(Labels(rows));
      var k :| 0 <= k < |rows| && Map(Label, rows)[k] == caption;
      assert rows[k] in rows && rows[k] in all;
      var i :| 0 <= i < |all| && all[i] == rows[k];
      RowOfAccount(f, year, f.accounts[i]);
      assert ShownAs(f, f.accounts[i], income, caption);
    }
    if a :| a in f.accounts && ShownAs(f, a, income, caption) {
      var i :| 0 <= i < |f.accounts| && f.accounts[i] == a;
      RowOfAccount(f, year, a);
      assert all[i] in all;
      assert Shown(income)(all[i]) && all[i] in rows;
      var k :| 0 <= k < |rows| && rows[k] == all[i];
      assert Map(Label, rows)[k] == caption;
      assert caption in Elements(Map(Label, rows));
      assert caption in Elements(Labels(rows));
    }
  }

  lemma TableContents(f: YearFile, year: int, income: bool)
    requires Keyed(f) && TrialBalanceOf(f, year).Ok? && Table(TrialBalanceOf(f, year).value, income).Ok?
    ensures
      var table := Table(TrialBalanceOf(f, year).value, income).value;
      && (forall row :: row in table <==> RowOf(f, income, row))
      && (forall i, j :: 0 <= i < j < |table| ==> TextBefore(table[i].caption, table[j].caption))
  {
    hide TrialBalanceOf;
    hide LabelSum;
    hide ShownRows;
    hide Labels;
    hide ShownAs;
    hide SumOf;
    hide TextBefore;
    hide Lex;
    var trial := TrialBalanceOf(f, year).value;
    var rows, table := ShownRows(trial, income), Table(trial, income).value;
    TableAscending(trial, income);
    TextsAscend(Map(RowLabel, table));
    forall i, j | 0 <= i < j < |table| ensures TextBefore(table[i].caption, table[j].caption) {
      assert TextBefore(Map(RowLabel, table)[i], Map(RowLabel, table)[j]);
    }
    forall row ensures row in table <==> RowOf(f, income, row) {
      CaptionListed(f, year, income, row.caption);
      LabelSumDirect(f, year, income, row.caption);
      SumShown(f, year, income, row.caption);
      if row in table {
        var k :| 0 <= k < |table| && table[k] == row;
        assert table[k] == LabelRow(rows)(Labels(rows)[k]);
      }
      if row.caption in Labels(rows) {
        var k :| 0 <= k < |Labels(rows)| && Labels(rows)[k] == row.caption;
        assert table[k] == LabelRow(rows)(row.caption);
        assert table[k] in table;
      }
    }
  }

  /**
   The statements of a year: in the trial balance each account once, in number order, with
   its debits, credits and closing. In each table, in caption order, one row for each
   caption of an account that moves and belongs there, with the sum of the closings shown
   under it.
   */
  lemma StatementsExact(f: YearFile, year: int)
    requires Keyed(f) && StatementsOf(f, year).Ok?
    ensures
      var s := StatementsOf(f, year).value;
      && s.year == year
      && multiset(s.trial) == multiset(Map(TrialRowFor(f, year), f.accounts))
      && (forall i, j :: 0 <= i < j < |s.trial| ==> s.trial[i].account < s.trial[j].account)
      && (forall row :: row in s.income <==> RowOf(f, true, row))
      && (forall row :: row in s.balance <==> RowOf(f, false, row))
      && (forall i, j :: 0 <= i < j < |s.income| ==> TextBefore(s.income[i].caption, s.income[j].caption))
      && (forall i, j :: 0 <= i < j < |s.balance| ==> TextBefore(s.balance[i].caption, s.balance[j].caption))
  {
    hide TrialBalanceOf;
    hide EnsureVouchersBalanced;
    hide Table;
    hide RowOf;
    hide TextBefore;
    hide TrialRowFor;
    hide SumOf;
    TrialRows(f, year);
    TableContents(f, year, true);
    TableContents(f, year, false);
  }

  /** An income caption is "SRU " and a code from 3000 to 8999. */
  lemma IncomeCaptions(f: YearFile, year: int, row: StatementRow)
    requires Keyed(f) && StatementsOf(f, year).Ok?
    ensures row in StatementsOf(f, year).value.income ==>
      exists c :: 3000 <= c <= 8999 && row.caption == "SRU " + PrintInt(c)
  {
    hide StatementsOf;
    hide SumOf;
    hide PrintInt;
    hide ClosingOf;
    hide TextBefore;
    StatementsExact(f, year);
    if row in StatementsOf(f, year).value.income {
      assert RowOf(f, true, row);
      var a :| a in f.accounts && ShownAs(f, a, true, row.caption);
      assert row.caption == "SRU " + PrintInt(CodeOf(f, a).value);
    }
  }
}
