/** Ledger records and the exact balance of vouchers. */
module Ledger {
  import opened Wrappers
  import opened Numbers
  import opened Sequences
  import opened Sorting

  datatype Account = Account(number: i64, name: string, note: Option<string>, sruPlus: Option<i32>,
                             sruMinus: Option<i32>)

  datatype Voucher = Voucher(id: i64, sourceId: Option<i64>, date: string, text: Option<string>)

  datatype Posting = Posting(id: i64, sourceId: Option<i64>, voucherId: i64, account: i64, amount: i64,
                             text: Option<string>)

  datatype Violation = Violation(voucherId: int, postingCount: nat, minorSum: int)

  /** The first of two optional codes that is there. */
  function Coalesce(a: Option<int>, b: Option<int>): Option<int> {
    if a.Some? then a else b
  }

  function AccountNumber(a: Account): int { a.number }
  function VoucherKey(v: Voucher): int { v.id }
  function PostingKey(p: Posting): int { p.id }
  function PostingAmount(p: Posting): int { p.amount }

  function AmountIn(voucher: int): Posting -> int {
    (p: Posting) => if p.voucherId == voucher then p.amount as int else 0
  }

  function OneIn(voucher: int): Posting -> int {
    (p: Posting) => if p.voucherId == voucher then 1 else 0
  }

  /** The sum and the number of the postings of one voucher. */
  function VoucherSum(voucher: int, postings: seq<Posting>): int {
    SumOf(AmountIn(voucher), postings)
  }

  function VoucherCount(voucher: int, postings: seq<Posting>): int {
    SumOf(OneIn(voucher), postings)
  }

  lemma {:induction false} VoucherCountBounds(voucher: int, postings: seq<Posting>)
    ensures VoucherCount(voucher, postings) >= 0
    ensures VoucherCount(voucher, postings) > 0 <==> exists p :: p in postings && p.voucherId == voucher
  {
    if postings != [] {
      var init, last := postings[..|postings| - 1], postings[|postings| - 1];
      assert postings == init + [last];
      VoucherCountBounds(voucher, init);
      SumOfSnoc(OneIn(voucher), init, last);
      if last.voucherId == voucher {
        assert last in postings;
      }
    }
  }

  /** `is_balanced`: all postings together sum to zero. */
  predicate IsBalanced(postings: seq<Posting>) {
    SumOf(PostingAmount, postings) == 0
  }

  /** At least one posting, and they sum to zero. */
  ghost predicate Balanced(voucher: int, postings: seq<Posting>) {
    VoucherCount(voucher, postings) > 0 && VoucherSum(voucher, postings) == 0
  }

  method IsVoucherBalanced(voucher: int, postings: seq<Posting>) returns (r: Result<bool, int>)
    ensures r.Ok? <==> IsI64(VoucherSum(voucher, postings))
    ensures r.Ok? ==> (r.value <==> Balanced(voucher, postings))
    ensures r.Err? ==> r.error == voucher
  {
    var count, sum := 0, 0;
    for i := 0 to |postings|
      invariant count == VoucherCount(voucher, postings[..i]) && sum == VoucherSum(voucher, postings[..i])
    {
      assert postings[..i + 1] == postings[..i] + [postings[i]];
      SumOfSnoc(OneIn(voucher), postings[..i], postings[i]);
      SumOfSnoc(AmountIn(voucher), postings[..i], postings[i]);
      if postings[i].voucherId == voucher {
        count, sum := count + 1, sum + postings[i].amount;
      }
    }
    assert postings[..|postings|] == postings;
    if !IsI64(sum) {
      return Err(voucher);
    }
    r := Ok(count > 0 && sum == 0);
  }

  // ----- all vouchers

  /** The violations among vouchers `ids`, or the first voucher whose sum overflows. */
  function ViolationsAmong(ids: seq<int>, postings: seq<Posting>): Result<seq<Violation>, int> {
    if ids == [] then Ok([]) else
    var before :- ViolationsAmong(ids[..|ids| - 1], postings);
    var id := ids[|ids| - 1];
    VoucherCountBounds(id, postings);
    var sum, count := VoucherSum(id, postings), VoucherCount(id, postings);
    if !IsI64(sum) then Err(id)
    else Ok(before + ViolationOf(id, count, sum))
  }

  function Violations(vouchers: seq<Voucher>, postings: seq<Posting>): Result<seq<Violation>, int> {
    ViolationsAmong(Keys(IntLess, Map(VoucherKey, vouchers)), postings)
  }

  lemma {:induction false} ViolationsPrefix(ids: seq<int>, postings: seq<Posting>, k: nat)
    requires k <= |ids| && ViolationsAmong(ids[..k], postings).Err?
    ensures ViolationsAmong(ids, postings) == ViolationsAmong(ids[..k], postings)
  {
    if k < |ids| {
      assert ids[..|ids| - 1][..k] == ids[..k];
      ViolationsPrefix(ids[..|ids| - 1], postings, k);
    } else {
      assert ids[..k] == ids;
    }
  }

  /** Count and sum of every known voucher, over some of the postings. */
  ghost predicate Tallies(balances: map<int, (nat, int)>, ids: seq<int>, postings: seq<Posting>) {
    && balances.Keys == Elements(ids)
    && forall id :: id in balances ==> balances[id] == (VoucherCount(id, postings), VoucherSum(id, postings))
  }

  lemma TallyStep(balances: map<int, (nat, int)>, ids: seq<int>, postings: seq<Posting>, p: Posting)
    requires Tallies(balances, ids, postings)
    ensures
      Tallies(
        if p.voucherId in balances
        then balances[p.voucherId := (balances[p.voucherId].0 + 1, balances[p.voucherId].1 + p.amount)]
        else balances,
        ids, postings + [p])
  {
    forall id | id in balances
      ensures VoucherCount(id, postings + [p]) == VoucherCount(id, postings) + OneIn(id)(p)
      ensures VoucherSum(id, postings + [p]) == VoucherSum(id, postings) + AmountIn(id)(p)
    {
      SumOfSnoc(OneIn(id), postings, p);
      SumOfSnoc(AmountIn(id), postings, p);
    }
  }

  method TallyPostings(ids: seq<int>, postings: seq<Posting>) returns (balances: map<int, (nat, int)>)
    ensures Tallies(balances, ids, postings)
  {
    hide VoucherCount;
    hide VoucherSum;
    balances := map id | id in Elements(ids) :: (0, 0);
    assert Tallies(balances, ids, []) by {
      NoPostings();
    }
    assert postings[..0] == [];
    for i := 0 to |postings|
      invariant Tallies(balances, ids, postings[..i])
    {
      var p := postings[i];
      assert postings[..i + 1] == postings[..i] + [p];
      TallyStep(balances, ids, postings[..i], p);
      if p.voucherId in balances {
        balances := balances[p.voucherId := (balances[p.voucherId].0 + 1, balances[p.voucherId].1 + p.amount)];
      }
    }
    assert postings[..|postings|] == postings;
  }

  lemma NoPostings()
    ensures forall id :: VoucherCount(id, []) == 0 && VoucherSum(id, []) == 0
  {
  }

  function ViolationOf(id: int, count: nat, sum: int): seq<Violation> {
    if count == 0 || sum != 0 then [Violation(id, count, sum)] else []
  }

  lemma ViolationsNext(ids: seq<int>, postings: seq<Posting>, k: nat, violations: seq<Violation>, count: nat, sum: int)
    requires k < |ids| && ViolationsAmong(ids[..k], postings) == Ok(violations)
    requires count == VoucherCount(ids[k], postings) && sum == VoucherSum(ids[k], postings)
    ensures ViolationsAmong(ids[..k + 1], postings) ==
      if IsI64(sum) then Ok(violations + ViolationOf(ids[k], count, sum)) else Err(ids[k])
  {
    hide VoucherCount;
    hide VoucherSum;
    assert ids[..k + 1][..k] == ids[..k];
  }

  /** `voucher_balance_violations`: one pass over the postings, then the vouchers in order. */
  method VoucherBalanceViolations(vouchers: seq<Voucher>, postings: seq<Posting>)
    returns (r: Result<seq<Violation>, int>)
    ensures r == Violations(vouchers, postings)
  {
    var ids := Keys(IntLess, Map(VoucherKey, vouchers));
    var balances := TallyPostings(ids, postings);
    hide VoucherCount;
    hide VoucherSum;
    var violations: seq<Violation> := [];
    for k := 0 to |ids|
      invariant ViolationsAmong(ids[..k], postings) == Ok(violations)
    {
      var id := ids[k];
      assert id in Elements(ids);
      var (count, sum) := balances[id];
      ViolationsNext(ids, postings, k, violations, count, sum);
      if !IsI64(sum) {
        ViolationsPrefix(ids, postings, k + 1);
        return Err(id);
      }
      if count == 0 || sum != 0 {
        violations := violations + [Violation(id, count, sum)];
      } else {
        assert violations + [] == violations;
      }
    }
    assert ids[..|ids|] == ids;
    r := Ok(violations);
  }

  lemma {:induction false} ViolationsAmongExact(ids: seq<int>, postings: seq<Posting>)
    requires ViolationsAmong(ids, postings).Ok?
    ensures ViolationsAmong(ids, postings).value == [] <==> forall id :: id in ids ==> Balanced(id, postings)
    ensures forall v :: v in ViolationsAmong(ids, postings).value ==>
      v.voucherId in ids && !Balanced(v.voucherId, postings) && v.minorSum == VoucherSum(v.voucherId, postings)
  {
    if ids != [] {
      var init, last := ids[..|ids| - 1], ids[|ids| - 1];
      assert ids == init + [last];
      ViolationsAmongExact(init, postings);
      VoucherCountBounds(last, postings);
      hide VoucherCount;
      hide VoucherSum;
      if ViolationsAmong(ids, postings).value == [] {
        assert Balanced(last, postings);
      }
      if Balanced(last, postings) {
        var before := ViolationsAmong(init, postings).value;
        assert before + [] == before;
      }
    }
  }

  /** There is no violation exactly when every voucher has postings and they sum to zero. */
  lemma ViolationsExact(vouchers: seq<Voucher>, postings: seq<Posting>)
    requires Violations(vouchers, postings).Ok?
    ensures Violations(vouchers, postings).value == [] <==> forall v :: v in vouchers ==> Balanced(v.id, postings)
  {
    hide Balanced;
    var ids := Map(VoucherKey, vouchers);
    ViolationsAmongExact(Keys(IntLess, ids), postings);
    forall v | v in vouchers ensures (v.id as int) in Keys(IntLess, ids) {
      var i :| 0 <= i < |vouchers| && vouchers[i] == v;
      assert ids[i] == v.id;
      assert ids[i] in Elements(ids);
    }
    forall id | id in Keys(IntLess, ids) ensures exists v :: v in vouchers && v.id == id {
      assert id in Elements(Keys(IntLess, ids));
      assert id in ids;
      var i :| 0 <= i < |ids| && ids[i] == id;
      assert vouchers[i] in vouchers;
    }
  }

  lemma {:induction false} ViolationsFit(ids: seq<int>, postings: seq<Posting>)
    ensures ViolationsAmong(ids, postings).Ok? <==> forall id :: id in ids ==> IsI64(VoucherSum(id, postings))
  {
    hide VoucherCount;
    hide VoucherSum;
    if ids != [] {
      assert ids == ids[..|ids| - 1] + [ids[|ids| - 1]];
      ViolationsFit(ids[..|ids| - 1], postings);
    }
  }

  /** The check passes exactly when every voucher has postings and they sum to zero. */
  lemma NoViolations(vouchers: seq<Voucher>, postings: seq<Posting>)
    ensures Violations(vouchers, postings) == Ok([]) <==> forall v :: v in vouchers ==> Balanced(v.id, postings)
  {
    var ids := Map(VoucherKey, vouchers);
    if forall v :: v in vouchers ==> Balanced(v.id, postings) {
      forall id | id in Keys(IntLess, ids) ensures IsI64(VoucherSum(id, postings)) {
        assert id in Elements(Keys(IntLess, ids));
        assert id in ids;
        var i :| 0 <= i < |ids| && ids[i] == id;
        assert vouchers[i] in vouchers;
      }
      ViolationsFit(Keys(IntLess, ids), postings);
    }
    if Violations(vouchers, postings).Ok? {
      ViolationsExact(vouchers, postings);
    }
  }

  function ViolationId(v: Violation): int { v.voucherId }

  /** The violation of an unbalanced voucher: its number of postings and their sum. */
  ghost predicate Violates(v: Violation, postings: seq<Posting>) {
    && !Balanced(v.voucherId, postings)
    && v.postingCount == VoucherCount(v.voucherId, postings) && v.minorSum == VoucherSum(v.voucherId, postings)
  }

  lemma ViolationsAmongSnoc(ids: seq<int>, id: int, postings: seq<Posting>)
    ensures ViolationsAmong(ids + [id], postings) == (
      VoucherCountBounds(id, postings);
      if ViolationsAmong(ids, postings).Err? then ViolationsAmong(ids, postings)
      else if !IsI64(VoucherSum(id, postings)) then Err(id)
      else Ok(ViolationsAmong(ids, postings).value +
        ViolationOf(id, VoucherCount(id, postings), VoucherSum(id, postings))))
  {
    hide ViolationOf;
    hide VoucherCount;
    hide VoucherSum;
    assert (ids + [id])[..|ids|] == ids;
  }

  lemma ViolationOfExact(id: int, postings: seq<Posting>)
    ensures VoucherCount(id, postings) >= 0
    ensures
      var some := ViolationOf(id, VoucherCount(id, postings), VoucherSum(id, postings));
      && |some| <= 1 && forall v :: v in some <==> v.voucherId == id && Violates(v, postings)
  {
    VoucherCountBounds(id, postings);
    hide VoucherCount;
    hide VoucherSum;
    var some := ViolationOf(id, VoucherCount(id, postings), VoucherSum(id, postings));
    forall v ensures v in some <==> v.voucherId == id && Violates(v, postings) {
    }
  }

  /** The list has exactly the violations of the listed vouchers, in the order of the ids. */
  ghost predicate ListsViolations(list: seq<Violation>, ids: seq<int>, postings: seq<Posting>) {
    && (forall v :: v in list <==> v.voucherId in ids && Violates(v, postings))
    && forall i, j :: 0 <= i < j < |list| ==> list[i].voucherId < list[j].voucherId
  }

  lemma ListsViolationsSnoc(list: seq<Violation>, ids: seq<int>, id: int, some: seq<Violation>, postings: seq<Posting>)
    requires ListsViolations(list, ids, postings) && forall other :: other in ids ==> other < id
    requires |some| <= 1 && forall v :: v in some <==> v.voucherId == id && Violates(v, postings)
    ensures ListsViolations(list + some, ids + [id], postings)
  {
    hide Violates;
    forall v ensures v in list + some <==> v.voucherId in ids + [id] && Violates(v, postings) {
      InConcat(list, some, v);
    }
    forall i, j | 0 <= i < j < |list + some| ensures (list + some)[i].voucherId < (list + some)[j].voucherId {
      assert i < |list|;
      assert list[i] in list;
      if j >= |list| {
        assert some[j - |list|] in some;
      }
    }
  }

  lemma AscendingLast(ids: seq<int>, id: int)
    requires Ascending(IntLess, ids + [id])
    ensures Ascending(IntLess, ids) && forall other :: other in ids ==> other < id
  {
    var all := ids + [id];
    forall other | other in ids ensures other < id {
      var k :| 0 <= k < |ids| && ids[k] == other;
      assert IntLess(all[k], all[|ids|]);
    }
    forall i, j | 0 <= i < j < |ids| ensures IntLess(ids[i], ids[j]) {
      assert IntLess(all[i], all[j]);
    }
  }

  lemma {:induction false} ViolationsListed(ids: seq<int>, postings: seq<Posting>)
    requires Ascending(IntLess, ids) && ViolationsAmong(ids, postings).Ok?
    ensures ListsViolations(ViolationsAmong(ids, postings).value, ids, postings)
  {
    if ids == [] {
      NoneAmong(postings);
    } else {
      hide ViolationsAmong;
      hide ListsViolations;
      hide Violates;
      hide ViolationOf;
      hide VoucherCount;
      hide VoucherSum;
      hide Ascending;
      var init, last := ids[..|ids| - 1], ids[|ids| - 1];
      assert ids == init + [last];
      AscendingLast(init, last);
      ViolationsAmongSnoc(init, last, postings);
      ViolationsListed(init, postings);
      ViolationOfExact(last, postings);
      ListsViolationsSnoc(ViolationsAmong(init, postings).value, init, last,
                          ViolationOf(last, VoucherCount(last, postings), VoucherSum(last, postings)), postings);
    }
  }

  lemma NoneAmong(postings: seq<Posting>)
    ensures ViolationsAmong([], postings) == Ok([])
  {
  }

  /** The reported overflow is that of the first voucher, in id order, whose sum leaves 64 bits. */
  lemma {:induction false} OverflowListed(ids: seq<int>, postings: seq<Posting>)
    requires Ascending(IntLess, ids)
    ensures ViolationsAmong(ids, postings).Err? ==>
      var id := ViolationsAmong(ids, postings).error;
      && id in ids && !IsI64(VoucherSum(id, postings))
      && forall other :: other in ids && other < id ==> IsI64(VoucherSum(other, postings))
  {
    if ids != [] {
      hide ViolationsAmong;
      hide ViolationOf;
      hide VoucherCount;
      hide VoucherSum;
      var init, last := ids[..|ids| - 1], ids[|ids| - 1];
      assert ids == init + [last];
      ViolationsAmongSnoc(init, last, postings);
      AscendingLast(init, last);
      OverflowListed(init, postings);
      ViolationsFit(init, postings);
    } else {
      NoneAmong(postings);
    }
  }

  /**
   What the check reports: one violation for each unbalanced voucher, in ascending id order,
   with its count and sum; or the least voucher id whose sum leaves 64 bits.
   */
  lemma ViolationsReported(vouchers: seq<Voucher>, postings: seq<Posting>)
    ensures
      var r, ids := Violations(vouchers, postings), Map(VoucherKey, vouchers);
      && (r.Ok? ==>
            && (forall v :: v in r.value <==> v.voucherId in ids && Violates(v, postings))
            && forall i, j :: 0 <= i < j < |r.value| ==> r.value[i].voucherId < r.value[j].voucherId)
      && (r.Err? ==>
            && r.error in ids && !IsI64(VoucherSum(r.error, postings))
            && forall id :: id in ids && id < r.error ==> IsI64(VoucherSum(id, postings)))
  {
    hide ViolationsAmong;
    hide Violates;
    hide VoucherSum;
    var ids := Map(VoucherKey, vouchers);
    KeysAscending(IntLess, ids);
    forall id ensures id in Keys(IntLess, ids) <==> id in ids {
      assert id in Keys(IntLess, ids) <==> id in Elements(Keys(IntLess, ids));
      assert id in ids <==> id in Elements(ids);
    }
    hide Keys;
    OverflowListed(Keys(IntLess, ids), postings);
    if Violations(vouchers, postings).Ok? {
      ViolationsListed(Keys(IntLess, ids), postings);
    }
  }

  lemma {:induction false} ViolationsAmongPermuted(ids: seq<int>, ps: seq<Posting>, qs: seq<Posting>)
    requires multiset(ps) == multiset(qs)
    ensures ViolationsAmong(ids, ps) == ViolationsAmong(ids, qs)
  {
    hide SumOf;
    if ids != [] {
      ViolationsAmongPermuted(ids[..|ids| - 1], ps, qs);
      SumOfPermuted(AmountIn(ids[|ids| - 1]), ps, qs);
      SumOfPermuted(OneIn(ids[|ids| - 1]), ps, qs);
    }
  }

  /** The check does not depend on the order of the rows. */
  lemma ViolationsPermuted(vs: seq<Voucher>, ws: seq<Voucher>, ps: seq<Posting>, qs: seq<Posting>)
    requires multiset(vs) == multiset(ws) && multiset(ps) == multiset(qs)
    ensures Violations(vs, ps) == Violations(ws, qs)
  {
    hide ViolationsAmong;
    hide Keys;
    var a, b := Keys(IntLess, Map(VoucherKey, vs)), Keys(IntLess, Map(VoucherKey, ws));
    KeysAscending(IntLess, Map(VoucherKey, vs));
    KeysAscending(IntLess, Map(VoucherKey, ws));
    MapPermuted(VoucherKey, vs, ws);
    ElementsPermuted(Map(VoucherKey, vs), Map(VoucherKey, ws));
    assert forall x :: x in a <==> x in Elements(a);
    assert forall x :: x in b <==> x in Elements(b);
    AscendingUnique(IntLess, a, b);
    ViolationsAmongPermuted(a, ps, qs);
  }

  /** The first violation is that of the least unbalanced voucher. */
  lemma FirstViolation(vouchers: seq<Voucher>, postings: seq<Posting>)
    requires Violations(vouchers, postings).Ok? && Violations(vouchers, postings).value != []
    ensures
      var v := Violations(vouchers, postings).value[0];
      && v.voucherId in Map(VoucherKey, vouchers) && Violates(v, postings)
      && forall other :: other in vouchers && other.id < v.voucherId ==> Balanced(other.id, postings)
  {
    hide Violations;
    hide Balanced;
    hide VoucherCount;
    hide VoucherSum;
    ViolationsReported(vouchers, postings);
    var found := Violations(vouchers, postings).value;
    var v := found[0];
    assert v in found;
    forall w | w in found ensures v.voucherId <= w.voucherId {
      var k :| 0 <= k < |found| && found[k] == w;
    }
    forall other | other in vouchers && other.id < v.voucherId ensures Balanced(other.id, postings) {
      var i :| 0 <= i < |vouchers| && vouchers[i] == other;
      assert Map(VoucherKey, vouchers)[i] == other.id;
      VoucherCountBounds(other.id, postings);
      var own := Violation(other.id, VoucherCount(other.id, postings), VoucherSum(other.id, postings));
      assert Violates(own, postings) <==> !Balanced(other.id, postings);
      assert own in found ==> v.voucherId <= own.voucherId;
    }
  }
}
