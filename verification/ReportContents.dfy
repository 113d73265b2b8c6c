/** The reports in the terms of accounts and postings. */
module ReportContents {
  import opened Wrappers
  import opened Sequences
  import opened Sorting
  import opened Ledger
  import opened YearFiles
  import opened ReportQuery
  import opened Reports

  /** The code a posting goes to: the plus code first from zero on, the minus code first below. */
  function PostingCode(a: Account, p: Posting): Option<int> {
    if p.amount >= 0 then (if a.sruPlus.Some? then a.sruPlus else a.sruMinus)
    else (if a.sruMinus.Some? then a.sruMinus else a.sruPlus)
  }

  /** The posting's account sends it to the code. */
  ghost predicate CodedAs(accounts: seq<Account>, p: Posting, code: int) {
    exists a :: a in accounts && a.number == p.account && PostingCode(a, p) == Some(code)
  }

  ghost function CodedAmount(accounts: seq<Account>, code: int): Posting -> int {
    (p: Posting) => if CodedAs(accounts, p, code) then p.amount as int else 0
  }

  function AccountAmount(number: int): Posting -> int {
    (p: Posting) => if p.account == number then p.amount as int else 0
  }

  lemma {:induction false} AccountOfIn(accounts: seq<Account>, number: int)
    requires NoDup(Map(AccountNumber, accounts)) && number in Map(AccountNumber, accounts)
    ensures AccountOf(accounts, number).Some?
    ensures
      var a := AccountOf(accounts, number).value;
      a in accounts && a.number == number && forall b :: b in accounts && b.number == number ==> b == a
  {
    var n := |accounts| - 1;
    var numbers := Map(AccountNumber, accounts);
    assert numbers[n] == AccountNumber(accounts[n]);
    assert Map(AccountNumber, accounts[..n]) == numbers[..n];
    if AccountNumber(accounts[n]) == number {
      forall b | b in accounts && b.number == number ensures b == accounts[n] {
        var k :| 0 <= k < |accounts| && accounts[k] == b;
        assert numbers[k] == numbers[n];
      }
    } else {
      assert numbers == numbers[..n] + [numbers[n]];
      NoDupSnoc(numbers[..n], numbers[n]);
      AccountOfIn(accounts[..n], number);
      assert accounts == accounts[..n] + [accounts[n]];
    }
  }

  /** What one posting contributes, straight from its account. */
  lemma ContributionExact(f: YearFile, p: Posting, code: int)
    requires Keyed(f) && p in f.postings
    ensures Contribution(true, f.accounts, code)(p) == CodedAmount(f.accounts, code)(p)
    ensures Contribution(false, f.accounts, code)(p) == AccountAmount(code)(p)
  {
    hide NoDup;
    var i :| 0 <= i < |f.postings| && f.postings[i] == p;
    assert Map(PostingAccount, f.postings)[i] in Elements(Map(PostingAccount, f.postings));
    assert PostingAccount(p) in Elements(Map(AccountNumber, f.accounts));
    AccountOfIn(f.accounts, p.account);
    hide AccountOf;
    var a := AccountOf(f.accounts, p.account).value;
    assert CodedAs(f.accounts, p, code) <==> PostingCode(a, p) == Some(code);
  }

  /** A year's sum under a code, or on an account, summed posting by posting. */
  lemma YearSumCoded(f: YearFile, code: int)
    requires Keyed(f)
    ensures YearSum(true, f, code) == SumOf(CodedAmount(f.accounts, code), f.postings)
    ensures YearSum(false, f, code) == SumOf(AccountAmount(code), f.postings)
  {
    hide SumOf;
    hide Keyed;
    hide CodedAmount;
    hide AccountAmount;
    hide Contribution;
    forall p | p in f.postings
      ensures Contribution(true, f.accounts, code)(p) == CodedAmount(f.accounts, code)(p)
      ensures Contribution(false, f.accounts, code)(p) == AccountAmount(code)(p)
    {
      ContributionExact(f, p, code);
    }
    SumOfSame(Contribution(true, f.accounts, code), CodedAmount(f.accounts, code), f.postings);
    SumOfSame(Contribution(false, f.accounts, code), AccountAmount(code), f.postings);
  }

  ghost function CodedTotal(code: int): ((int, YearFile)) -> int {
    (y: (int, YearFile)) => SumOf(CodedAmount(y.1.accounts, code), y.1.postings)
  }

  lemma {:induction false} DirectSumCoded(files: Years, code: int)
    requires AllKeyed(files)
    ensures DirectSum(true, files, code) == SumOf(CodedTotal(code), files)
  {
    hide YearSum;
    hide Keyed;
    if files == [] {
      SumOfNothing(CodedTotal(code));
    } else {
      hide SumOf;
      var n := |files| - 1;
      assert files == files[..n] + [files[n]];
      assert files[n] in files;
      DirectSumCoded(files[..n], code);
      SumOfSnoc(CodedTotal(code), files[..n], files[n]);
      YearSumCoded(files[n].1, code);
    }
  }

  /** Balances by code, posting by posting: each code with a sum other than zero, once, in ascending order. */
  lemma BalancesCoded(files: Years)
    requires AllKeyed(files) && BalancesOf(files, true).Ok?
    ensures
      var rows := BalancesOf(files, true).value;
      && (forall c, v :: SruBalance(c, v) in rows <==> v == SumOf(CodedTotal(c), files) && v != 0)
      && (forall i, j :: 0 <= i < j < |rows| ==> BalanceCode(rows[i]) < BalanceCode(rows[j]))
  {
    hide BalancesOf;
    hide SumOf;
    hide CodedTotal;
    hide AllKeyed;
    SruBalancesExact(files);
    hide DirectSum;
    var rows := BalancesOf(files, true).value;
    IntsAscend(Map(BalanceCode, rows));
    forall i, j | 0 <= i < j < |rows| ensures BalanceCode(rows[i]) < BalanceCode(rows[j]) {
      assert Map(BalanceCode, rows)[i] < Map(BalanceCode, rows)[j];
    }
    forall c ensures DirectSum(true, files, c) == SumOf(CodedTotal(c), files) {
      DirectSumCoded(files, c);
    }
  }
}
