/** The trial balance: a left join of accounts and postings, grouped, filtered and ordered. */
module TrialBalance {
  import opened Wrappers
  import opened Numbers
  import opened Sequences
  import opened Sorting
  import opened Ledger
  import opened YearFiles
  import opened Relations

  datatype TrialRow = TrialRow(account: int, sruPlus: Option<int>, sruMinus: Option<int>, debit: int, credit: int,
                               closing: int)

  datatype TrialKey = TrialKey(account: int, sruPlus: Option<int>, sruMinus: Option<int>)

  type AccountRow = (Account, Option<Posting>)

  // ----- the query

  function OfAccount(): (Account, Posting) -> bool {
    (a: Account, p: Posting) => a.number == p.account
  }

  function KeyOf(r: AccountRow): TrialKey {
    TrialKey(r.0.number, r.0.sruPlus, r.0.sruMinus)
  }

  /** The positive part of a posting, and the negated negative part. */
  function DebitPart(p: Posting): int {
    if p.amount > 0 then p.amount else 0
  }

  function CreditPart(p: Posting): int {
    if p.amount < 0 then 0 - (p.amount as int) else 0
  }

  /** A scalar over the joined row that is zero where there is no posting. */
  function OrZero(part: Posting -> int): AccountRow -> int {
    (r: AccountRow) => if r.1.Some? then part(r.1.value) else 0
  }

  function Joined(f: YearFile): seq<AccountRow> {
    LeftJoin(OfAccount(), f.accounts, f.postings)
  }

  function TrialRowOf(rows: seq<AccountRow>): TrialKey -> TrialRow {
    (k: TrialKey) =>
      TrialRow(k.account, k.sruPlus, k.sruMinus,
               GroupSum(KeyOf, OrZero(DebitPart), k, rows),
               GroupSum(KeyOf, OrZero(CreditPart), k, rows),
               GroupSum(KeyOf, OrZero(PostingAmount), k, rows))
  }

  function Grouped(f: YearFile): seq<TrialRow> {
    Map(TrialRowOf(Joined(f)), Distinct(Map(KeyOf, Joined(f))))
  }

  function TrialAccount(r: TrialRow): int { r.account }
  function TrialClosing(r: TrialRow): int { r.closing }
  predicate HasDebit(r: TrialRow) { r.debit >= 0 }

  /** The sums of a row are 64-bit integers. */
  predicate RowFits(r: TrialRow) {
    IsI64(r.debit) && IsI64(r.credit) && IsI64(r.closing)
  }

  function TrialBalanceData(f: YearFile): Result<seq<TrialRow>, StoreError> {
    if exists r :: r in Grouped(f) && !RowFits(r) then Err(Failed)
    else Ok(Sort(ByKey(TrialAccount), Filter(HasDebit, Grouped(f))))
  }

  // ----- the same, account by account

  /** One row per account, with the sums over its own postings. */
  function RowFor(postings: seq<Posting>): Account -> TrialRow {
    (a: Account) =>
      TrialRow(a.number, a.sruPlus, a.sruMinus,
               GroupSum(PostingAccount, DebitPart, a.number, postings),
               GroupSum(PostingAccount, CreditPart, a.number, postings),
               GroupSum(PostingAccount, PostingAmount, a.number, postings))
  }

  function AccountKey(a: Account): TrialKey {
    TrialKey(a.number, a.sruPlus, a.sruMinus)
  }

  /** The joined rows of one account carry exactly the sums over its postings. */
  lemma JoinedSum(part: Posting -> int, a: Account, postings: seq<Posting>)
    ensures SumOf(OrZero(part), LeftRows(OfAccount(), postings)(a)) ==
      GroupSum(PostingAccount, part, a.number, postings)
  {
    hide SumOf;
    hide Filter;
    var partners := Partners(OfAccount(), a, postings);
    SumOfFilter(part, Matching(OfAccount(), a), OnlyKey(PostingAccount, part, a.number as int), postings);
    if partners == [] {
      SumOfNothing(part);
      SumOfNothing(OrZero(part));
      SumOfSnoc(OrZero(part), [], (a, None));
      assert LeftRows(OfAccount(), postings)(a) == [] + [(a, None)];
    } else {
      SumOfMap(OrZero(part), PairedSome(a), part, partners);
    }
  }

  lemma KeysOfRows(a: Account, postings: seq<Posting>, r: AccountRow)
    requires r in LeftRows(OfAccount(), postings)(a)
    ensures r.0 == a
  {
  }

  lemma HasRow(a: Account, postings: seq<Posting>)
    ensures LeftRows(OfAccount(), postings)(a) != []
  {
  }

  /** With distinct account numbers, a group of the join is one account. */
  lemma GroupIsAccount(f: YearFile, part: Posting -> int, a: Account)
    requires NoDup(Map(AccountNumber, f.accounts)) && a in f.accounts
    ensures GroupSum(KeyOf, OrZero(part), AccountKey(a), Joined(f)) ==
      GroupSum(PostingAccount, part, a.number, f.postings)
  {
    hide SumOf;
    hide LeftRows;
    var rowsOf := LeftRows(OfAccount(), f.postings);
    var only := OnlyKey(KeyOf, OrZero(part), AccountKey(a));
    SumOfFlatMap(only, rowsOf, f.accounts);
    forall b | b in f.accounts
      ensures SumsOf(only, rowsOf)(b) == if b == a then GroupSum(PostingAccount, part, a.number, f.postings) else 0
    {
      forall r | r in rowsOf(b) ensures r.0 == b {
        KeysOfRows(b, f.postings, r);
      }
      if b == a {
        JoinedSum(part, a, f.postings);
        SumOfSame(only, OrZero(part), rowsOf(a));
      } else {
        DistinctNumbers(f.accounts, a, b);
        SumOfZero(only, rowsOf(b));
      }
    }
    DistinctAccounts(f.accounts);
    SumOfSpike(SumsOf(only, rowsOf), f.accounts, a);
  }

  lemma DistinctNumbers(accounts: seq<Account>, a: Account, b: Account)
    requires NoDup(Map(AccountNumber, accounts)) && a in accounts && b in accounts && a != b
    ensures a.number != b.number
  {
    var i :| 0 <= i < |accounts| && accounts[i] == a;
    var j :| 0 <= j < |accounts| && accounts[j] == b;
    assert Map(AccountNumber, accounts)[i] == a.number && Map(AccountNumber, accounts)[j] == b.number;
  }

  lemma DistinctAccounts(accounts: seq<Account>)
    requires NoDup(Map(AccountNumber, accounts))
    ensures NoDup(accounts) && NoDup(Map(AccountKey, accounts))
  {
    var numbers := Map(AccountNumber, accounts);
    forall i, j | 0 <= i < j < |accounts|
      ensures accounts[i] != accounts[j] && AccountKey(accounts[i]) != AccountKey(accounts[j])
    {
      assert numbers[i] != numbers[j];
    }
  }

  /** The group keys of the join are the accounts, whether or not they have postings. */
  lemma {:induction false} JoinedKeys(accounts: seq<Account>, postings: seq<Posting>)
    ensures Elements(Map(KeyOf, LeftJoin(OfAccount(), accounts, postings))) == Elements(Map(AccountKey, accounts))
  {
    hide LeftRows;
    if accounts != [] {
      var n := |accounts| - 1;
      JoinedKeys(accounts[..n], postings);
      var rows := LeftRows(OfAccount(), postings)(accounts[n]);
      MapConcat(KeyOf, LeftJoin(OfAccount(), accounts[..n], postings), rows);
      ElementsConcat(Map(KeyOf, LeftJoin(OfAccount(), accounts[..n], postings)), Map(KeyOf, rows));
      assert accounts == accounts[..n] + [accounts[n]];
      MapSnoc(AccountKey, accounts[..n], accounts[n]);
      ElementsConcat(Map(AccountKey, accounts[..n]), [AccountKey(accounts[n])]);
      OneKey(accounts[n], postings);
    }
  }

  lemma OneKey(a: Account, postings: seq<Posting>)
    ensures Elements(Map(KeyOf, LeftRows(OfAccount(), postings)(a))) == Elements([AccountKey(a)])
  {
    var rows := LeftRows(OfAccount(), postings)(a);
    HasRow(a, postings);
    forall i | 0 <= i < |rows| ensures Map(KeyOf, rows)[i] == AccountKey(a) {
      KeysOfRows(a, postings, rows[i]);
    }
    assert Map(KeyOf, rows)[0] == AccountKey(a);
  }

  /** The grouped join is, up to order, the list of account rows. */
  lemma GroupedIsAccounts(f: YearFile)
    requires NoDup(Map(AccountNumber, f.accounts))
    ensures multiset(Grouped(f)) == multiset(Map(RowFor(f.postings), f.accounts))
  {
    hide SumOf;
    hide GroupSum;
    var joined := Joined(f);
    var keys, accounts := Distinct(Map(KeyOf, joined)), Map(AccountKey, f.accounts);
    DistinctExact(Map(KeyOf, joined));
    JoinedKeys(f.accounts, f.postings);
    DistinctAccounts(f.accounts);
    SameElements(keys, accounts);
    assert Map(TrialRowOf(joined), accounts) == Map(RowFor(f.postings), f.accounts) by {
      forall i | 0 <= i < |accounts| ensures TrialRowOf(joined)(accounts[i]) == RowFor(f.postings)(f.accounts[i]) {
        GroupIsAccount(f, DebitPart, f.accounts[i]);
        GroupIsAccount(f, CreditPart, f.accounts[i]);
        GroupIsAccount(f, PostingAmount, f.accounts[i]);
      }
    }
    MapPermuted(TrialRowOf(joined), keys, accounts);
  }

  // ----- what the trial balance shows

  lemma {:induction false} DebitsCount(account: int, postings: seq<Posting>)
    ensures GroupSum(PostingAccount, DebitPart, account, postings) >= 0
    ensures GroupSum(PostingAccount, CreditPart, account, postings) >= 0
    ensures GroupSum(PostingAccount, PostingAmount, account, postings) ==
      GroupSum(PostingAccount, DebitPart, account, postings) - GroupSum(PostingAccount, CreditPart, account, postings)
  {
    hide GroupSum;
    if postings == [] {
      NoRows(PostingAccount, DebitPart, account);
      NoRows(PostingAccount, CreditPart, account);
      NoRows(PostingAccount, PostingAmount, account);
    } else {
      var n := |postings| - 1;
      DebitsCount(account, postings[..n]);
      assert postings == postings[..n] + [postings[n]];
      GroupSumSnoc(PostingAccount, DebitPart, account, postings[..n], postings[n]);
      GroupSumSnoc(PostingAccount, CreditPart, account, postings[..n], postings[n]);
      GroupSumSnoc(PostingAccount, PostingAmount, account, postings[..n], postings[n]);
      var p := postings[n];
      assert OnlyKey(PostingAccount, DebitPart, account)(p) == if PostingAccount(p) == account then DebitPart(p) else 0;
      assert OnlyKey(PostingAccount, CreditPart, account)(p)
          == if PostingAccount(p) == account then CreditPart(p) else 0;
      assert OnlyKey(PostingAccount, PostingAmount, account)(p)
          == if PostingAccount(p) == account then PostingAmount(p) else 0;
    }
  }

  lemma AllFit(f: YearFile)
    ensures (exists r :: r in Map(RowFor(f.postings), f.accounts) && !RowFits(r)) <==>
      !forall a :: a in f.accounts ==> RowFits(RowFor(f.postings)(a))
  {
    hide GroupSum;
    hide RowFits;
    var rows := Map(RowFor(f.postings), f.accounts);
    forall a | a in f.accounts ensures RowFor(f.postings)(a) in rows {
      var i :| 0 <= i < |f.accounts| && f.accounts[i] == a;
      assert rows[i] == RowFor(f.postings)(a);
    }
    if r :| r in rows && !RowFits(r) {
      var i :| 0 <= i < |rows| && rows[i] == r;
      assert f.accounts[i] in f.accounts;
    }
  }

  /** The `having` clause drops no group. */
  lemma NothingDropped(f: YearFile)
    requires NoDup(Map(AccountNumber, f.accounts))
    ensures Filter(HasDebit, Grouped(f)) == Grouped(f)
    ensures (exists r :: r in Grouped(f) && !RowFits(r)) <==>
      exists r :: r in Map(RowFor(f.postings), f.accounts) && !RowFits(r)
  {
    hide GroupSum;
    hide Grouped;
    hide RowFits;
    var rows := Map(RowFor(f.postings), f.accounts);
    GroupedIsAccounts(f);
    PermutedMembers(Grouped(f), rows);
    forall r | r in rows ensures HasDebit(r) {
      var i :| 0 <= i < |rows| && rows[i] == r;
      DebitsCount(f.accounts[i].number, f.postings);
    }
    FilterAll(HasDebit, Grouped(f));
  }

  /** The trial balance has one row per account in account order: the account's own debits, credits and closing. */
  lemma TrialBalanceExact(f: YearFile)
    requires NoDup(Map(AccountNumber, f.accounts))
    ensures TrialBalanceData(f).Ok? <==> forall a :: a in f.accounts ==> RowFits(RowFor(f.postings)(a))
    ensures TrialBalanceData(f).Ok? ==>
      && multiset(TrialBalanceData(f).value) == multiset(Map(RowFor(f.postings), f.accounts))
      && Ascending(IntLess, Map(TrialAccount, TrialBalanceData(f).value))
  {
    hide GroupSum;
    hide Grouped;
    hide RowFits;
    hide RowFor;
    hide Filter;
    hide Sort;
    NothingDropped(f);
    AllFit(f);
    GroupedIsAccounts(f);
    var rows := Map(RowFor(f.postings), f.accounts);
    assert Map(TrialAccount, rows) == Map(AccountNumber, f.accounts) by {
      AccountsOfRows(f);
    }
    MapPermuted(TrialAccount, Grouped(f), rows);
    NoDupPermuted(Map(TrialAccount, Grouped(f)), Map(TrialAccount, rows));
    SortByKey(TrialAccount, Grouped(f));
  }

  lemma AccountsOfRows(f: YearFile)
    ensures Map(TrialAccount, Map(RowFor(f.postings), f.accounts)) == Map(AccountNumber, f.accounts)
  {
  }

  // ----- double entry

  /** Every posting counts for one account: the closings sum to the sum of all postings. */
  lemma ClosingsSum(f: YearFile)
    requires Keyed(f)
    ensures TrialBalanceData(f).Ok? ==>
      SumOf(TrialClosing, TrialBalanceData(f).value) == SumOf(PostingAmount, f.postings)
  {
    hide SumOf;
    hide TrialBalanceData;
    TrialBalanceExact(f);
    var rows := Map(RowFor(f.postings), f.accounts);
    if TrialBalanceData(f).Ok? {
      SumOfPermuted(TrialClosing, TrialBalanceData(f).value, rows);
    }
    var numbers := Map(AccountNumber, f.accounts);
    var sums := GroupSums(PostingAccount, PostingAmount, f.postings);
    var closingOf := (a: Account) => sums(a.number as int);
    SumOfMap(TrialClosing, RowFor(f.postings), closingOf, f.accounts);
    SumOfMap(sums, AccountNumber, closingOf, f.accounts);
    forall p | p in f.postings ensures PostingAccount(p) in numbers {
      KeyAmong(PostingAccount, f.postings, p, numbers);
    }
    SumOfGroups(PostingAccount, PostingAmount, f.postings, numbers);
  }

  lemma KeyAmong<T>(key: T -> int, rows: seq<T>, r: T, keys: seq<int>)
    requires r in rows && Elements(Map(key, rows)) <= Elements(keys)
    ensures key(r) in keys
  {
    var i :| 0 <= i < |rows| && rows[i] == r;
    assert Map(key, rows)[i] in Elements(Map(key, rows));
  }

  /** Every posting counts for one voucher: balanced vouchers make all postings sum to zero. */
  lemma BalancedVouchersBalance(f: YearFile)
    requires Keyed(f) && forall v :: v in f.vouchers ==> Balanced(v.id, f.postings)
    ensures IsBalanced(f.postings)
  {
    hide SumOf;
    var ids := Map(VoucherKey, f.vouchers);
    var sums := GroupSums(PostingVoucher, PostingAmount, f.postings);
    forall p | p in f.postings ensures PostingVoucher(p) in ids {
      KeyAmong(PostingVoucher, f.postings, p, ids);
    }
    SumOfGroups(PostingVoucher, PostingAmount, f.postings, ids);
    forall id | id in ids ensures sums(id) == 0 {
      var i :| 0 <= i < |ids| && ids[i] == id;
      assert Balanced(f.vouchers[i].id, f.postings);
      SumOfSame(OnlyKey(PostingVoucher, PostingAmount, id), AmountIn(id), f.postings);
    }
    SumOfZero(sums, ids);
  }

  /** Double entry: if every voucher balances, the closings of the trial balance sum to zero. */
  lemma DoubleEntry(f: YearFile)
    requires Keyed(f) && forall v :: v in f.vouchers ==> Balanced(v.id, f.postings)
    ensures TrialBalanceData(f).Ok? ==> SumOf(TrialClosing, TrialBalanceData(f).value) == 0
  {
    hide SumOf;
    hide Balanced;
    hide TrialBalanceData;
    ClosingsSum(f);
    BalancedVouchersBalance(f);
  }
}
