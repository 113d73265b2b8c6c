/** Canonical ids for the rows of a source year, and the check of every voucher. */
module Renumbering {
  import opened Wrappers
  import opened Numbers
  import opened Sequences
  import opened Ledger
  import opened YearFiles
  import opened LedgerSets

  datatype SourceVoucher = SourceVoucher(sourceId: i64, date: string, text: Option<string>)

  datatype SourcePosting = SourcePosting(sourceId: i64, voucher: i64, account: i64, amount: i64, text: Option<string>)

  datatype SourceYear = SourceYear(year: i32, accounts: seq<Account>, vouchers: seq<SourceVoucher>,
                                   postings: seq<SourcePosting>, nextVoucher: i64, nextPosting: i64)

  datatype ImportError =
    | Store(error: StoreError)
    | YearAlreadyImported(year: int)
    | DuplicateSourceVoucher(sourceId: int)
    | DuplicateSourcePosting(sourceId: int)
    | MissingVoucher(voucher: int)
    | Unbalanced(violation: Violation)
    | BalanceOverflow(voucher: int)
    | IdCountOverflow(kind: RowKind, count: nat)
    | IdAllocation(cause: IdError)

  function SourceVoucherKey(v: SourceVoucher): int { v.sourceId }
  function SourcePostingKey(p: SourcePosting): int { p.sourceId }
  function SourcePostingVoucher(p: SourcePosting): int { p.voucher }
  function SourcePostingAccount(p: SourcePosting): int { p.account }

  function VoucherImage(s: SourceVoucher, id: i64): Voucher {
    Voucher(id, Some(s.sourceId), s.date, s.text)
  }

  function PostingImage(s: SourcePosting, id: i64, voucher: i64): Posting {
    Posting(id, Some(s.sourceId), voucher, s.account, s.amount, s.text)
  }

  /** There are ids for `n` rows from `start` on. */
  predicate Room(start: int, n: int) {
    0 <= start && start + n <= I64_MAX
  }

  // ----- vouchers

  /** Each voucher under its position behind `start`; a repeated source id is refused. */
  function NumberVouchers(vs: seq<SourceVoucher>, start: i64): Result<seq<Voucher>, ImportError>
    requires Room(start, |vs|)
  {
    if vs == [] then Ok([]) else
    var n := |vs| - 1;
    var before :- NumberVouchers(vs[..n], start);
    if SourceVoucherKey(vs[n]) in Map(SourceVoucherKey, vs[..n]) then Err(DuplicateSourceVoucher(vs[n].sourceId))
    else Ok(before + [VoucherImage(vs[n], start + n)])
  }

  /** The canonical id of every source voucher. */
  function IdMap(vs: seq<SourceVoucher>, start: i64): map<int, i64>
    requires Room(start, |vs|)
  {
    if vs == [] then map[] else
    var n := |vs| - 1;
    IdMap(vs[..n], start)[SourceVoucherKey(vs[n]) := start + n]
  }

  /** The images of the vouchers, under their positions behind `start`. */
  ghost predicate VoucherImages(vs: seq<SourceVoucher>, start: int, images: seq<Voucher>)
    requires Room(start, |vs|)
  {
    |images| == |vs| && forall i :: 0 <= i < |vs| ==> images[i] == VoucherImage(vs[i], start + i)
  }

  lemma VoucherImagesSnoc(vs: seq<SourceVoucher>, start: int, images: seq<Voucher>, v: SourceVoucher)
    requires Room(start, |vs| + 1) && VoucherImages(vs, start, images)
    ensures VoucherImages(vs + [v], start, images + [VoucherImage(v, start + |vs|)])
  {
  }

  lemma NumberVouchersSnoc(vs: seq<SourceVoucher>, start: i64, v: SourceVoucher)
    requires Room(start, |vs| + 1)
    ensures NumberVouchers(vs + [v], start) == (
      if NumberVouchers(vs, start).Err? then NumberVouchers(vs, start)
      else if SourceVoucherKey(v) in Map(SourceVoucherKey, vs) then Err(DuplicateSourceVoucher(v.sourceId))
      else Ok(NumberVouchers(vs, start).value + [VoucherImage(v, start + |vs|)]))
  {
    assert (vs + [v])[..|vs|] == vs;
  }

  lemma NoVouchers(start: i64)
    requires Room(start, 0)
    ensures NumberVouchers([], start) == Ok([])
  {
  }

  /** Numbering vouchers succeeds exactly without repetition, and gives the images. */
  lemma {:induction false} NumberVouchersExact(vs: seq<SourceVoucher>, start: i64)
    requires Room(start, |vs|)
    ensures NumberVouchers(vs, start).Ok? <==> NoDup(Map(SourceVoucherKey, vs))
    ensures NumberVouchers(vs, start).Ok? ==> VoucherImages(vs, start, NumberVouchers(vs, start).value)
  {
    if vs == [] {
      NoVouchers(start);
    } else {
      hide NumberVouchers;
      hide NoDup;
      hide VoucherImage;
      hide VoucherImages;
      var init, v := vs[..|vs| - 1], vs[|vs| - 1];
      assert vs == init + [v];
      NumberVouchersExact(init, start);
      NumberVouchersSnoc(init, start, v);
      MapSnoc(SourceVoucherKey, init, v);
      NoDupSnoc(Map(SourceVoucherKey, init), SourceVoucherKey(v));
      if NumberVouchers(vs, start).Ok? {
        VoucherImagesSnoc(init, start, NumberVouchers(init, start).value, v);
      }
    }
  }

  lemma {:induction false} NumberVouchersPrefix(vs: seq<SourceVoucher>, start: i64, k: nat)
    requires Room(start, |vs|) && k <= |vs| && NumberVouchers(vs[..k], start).Err?
    ensures NumberVouchers(vs, start) == NumberVouchers(vs[..k], start)
  {
    if k < |vs| {
      assert vs[..|vs| - 1][..k] == vs[..k];
      NumberVouchersPrefix(vs[..|vs| - 1], start, k);
    } else {
      assert vs[..k] == vs;
    }
  }

  lemma {:induction false} IdMapKeys(vs: seq<SourceVoucher>, start: i64)
    requires Room(start, |vs|)
    ensures IdMap(vs, start).Keys == Elements(Map(SourceVoucherKey, vs))
  {
    if vs != [] {
      var n := |vs| - 1;
      IdMapKeys(vs[..n], start);
      assert vs == vs[..n] + [vs[n]];
      MapSnoc(SourceVoucherKey, vs[..n], vs[n]);
      ElementsConcat(Map(SourceVoucherKey, vs[..n]), [SourceVoucherKey(vs[n])]);
    }
  }

  /** Without repetition the map gives each voucher its own id. */
  lemma {:induction false} IdMapAt(vs: seq<SourceVoucher>, start: i64, i: nat)
    requires Room(start, |vs|) && i < |vs| && NoDup(Map(SourceVoucherKey, vs))
    ensures vs[i].sourceId in IdMap(vs, start) && IdMap(vs, start)[vs[i].sourceId] == start + i
  {
    var n := |vs| - 1;
    var keys := Map(SourceVoucherKey, vs);
    assert keys[i] == vs[i].sourceId && keys[n] == vs[n].sourceId;
    if i < n {
      assert Map(SourceVoucherKey, vs[..n]) == keys[..n];
      IdMapAt(vs[..n], start, i);
      assert keys[i] != keys[n];
    }
  }

  method AssignVouchers(vs: seq<SourceVoucher>, start: i64)
    returns (r: Result<(map<int, i64>, seq<Voucher>), ImportError>)
    requires Room(start, |vs|)
    ensures NumberVouchers(vs, start).Ok? ==> r == Ok((IdMap(vs, start), NumberVouchers(vs, start).value))
    ensures NumberVouchers(vs, start).Err? ==> r == Err(NumberVouchers(vs, start).error)
  {
    hide NumberVouchers;
    NoVouchers(start);
    assert vs[..0] == [];
    var ids: map<int, i64> := map[];
    var vouchers: seq<Voucher> := [];
    for i := 0 to |vs|
      invariant ids == IdMap(vs[..i], start)
      invariant NumberVouchers(vs[..i], start) == Ok(vouchers)
    {
      IdMapKeys(vs[..i], start);
      assert vs[..i + 1] == vs[..i] + [vs[i]];
      NumberVouchersSnoc(vs[..i], start, vs[i]);
      assert vs[i].sourceId in ids <==> SourceVoucherKey(vs[i]) in Elements(Map(SourceVoucherKey, vs[..i]));
      if vs[i].sourceId in ids {
        NumberVouchersPrefix(vs, start, i + 1);
        return Err(DuplicateSourceVoucher(vs[i].sourceId));
      }
      ids := ids[vs[i].sourceId := start + i];
      vouchers := vouchers + [VoucherImage(vs[i], start + i)];
    }
    assert vs[..|vs|] == vs;
    r := Ok((ids, vouchers));
  }

  // ----- postings

  /** Each posting under its position behind `start`, at the canonical id of its voucher. */
  function NumberPostings(ps: seq<SourcePosting>, start: i64, ids: map<int, i64>): Result<seq<Posting>, ImportError>
    requires Room(start, |ps|)
  {
    if ps == [] then Ok([]) else
    var n := |ps| - 1;
    var before :- NumberPostings(ps[..n], start, ids);
    if SourcePostingKey(ps[n]) in Map(SourcePostingKey, ps[..n]) then Err(DuplicateSourcePosting(ps[n].sourceId))
    else if SourcePostingVoucher(ps[n]) !in ids then Err(MissingVoucher(ps[n].voucher))
    else Ok(before + [PostingImage(ps[n], start + n, ids[SourcePostingVoucher(ps[n])])])
  }

  ghost predicate VouchersKnown(ps: seq<SourcePosting>, ids: map<int, i64>) {
    forall i :: 0 <= i < |ps| ==> SourcePostingVoucher(ps[i]) in ids
  }

  /** The images of the postings, under their positions behind `start`, at the ids of their vouchers. */
  ghost predicate PostingImages(ps: seq<SourcePosting>, start: int, ids: map<int, i64>, images: seq<Posting>)
    requires Room(start, |ps|) && VouchersKnown(ps, ids)
  {
    && |images| == |ps|
    && forall i :: 0 <= i < |ps| ==> images[i] == PostingImage(ps[i], start + i, ids[SourcePostingVoucher(ps[i])])
  }

  lemma VouchersKnownSnoc(ps: seq<SourcePosting>, ids: map<int, i64>, p: SourcePosting)
    ensures VouchersKnown(ps + [p], ids) <==> VouchersKnown(ps, ids) && SourcePostingVoucher(p) in ids
  {
    assert (ps + [p])[|ps|] == p;
    assert forall i :: 0 <= i < |ps| ==> (ps + [p])[i] == ps[i];
  }

  lemma PostingImagesSnoc(ps: seq<SourcePosting>, start: int, ids: map<int, i64>, images: seq<Posting>,
                          p: SourcePosting)
    requires Room(start, |ps| + 1) && VouchersKnown(ps, ids) && VouchersKnown(ps + [p], ids)
    requires PostingImages(ps, start, ids, images) && SourcePostingVoucher(p) in ids
    ensures PostingImages(ps + [p], start, ids, images + [PostingImage(p, start + |ps|, ids[SourcePostingVoucher(p)])])
  {
  }

  lemma NumberPostingsSnoc(ps: seq<SourcePosting>, start: i64, ids: map<int, i64>, p: SourcePosting)
    requires Room(start, |ps| + 1)
    ensures NumberPostings(ps + [p], start, ids) == (
      if NumberPostings(ps, start, ids).Err? then NumberPostings(ps, start, ids)
      else if SourcePostingKey(p) in Map(SourcePostingKey, ps) then Err(DuplicateSourcePosting(p.sourceId))
      else if SourcePostingVoucher(p) !in ids then Err(MissingVoucher(p.voucher))
      else Ok(NumberPostings(ps, start, ids).value + [PostingImage(p, start + |ps|, ids[SourcePostingVoucher(p)])]))
  {
    assert (ps + [p])[..|ps|] == ps;
  }

  lemma NoPostingsNumbered(start: i64, ids: map<int, i64>)
    requires Room(start, 0)
    ensures NumberPostings([], start, ids) == Ok([])
  {
  }

  /** Numbering postings succeeds exactly without repetition and with known vouchers, and gives the images. */
  lemma {:induction false} NumberPostingsExact(ps: seq<SourcePosting>, start: i64, ids: map<int, i64>)
    requires Room(start, |ps|)
    ensures NumberPostings(ps, start, ids).Ok? <==> NoDup(Map(SourcePostingKey, ps)) && VouchersKnown(ps, ids)
    ensures NumberPostings(ps, start, ids).Ok? ==> PostingImages(ps, start, ids, NumberPostings(ps, start, ids).value)
  {
    if ps == [] {
      NoPostingsNumbered(start, ids);
    } else {
      hide NumberPostings;
      hide NoDup;
      hide PostingImage;
      hide PostingImages;
      hide VouchersKnown;
      var init, p := ps[..|ps| - 1], ps[|ps| - 1];
      assert ps == init + [p];
      NumberPostingsExact(init, start, ids);
      NumberPostingsSnoc(init, start, ids, p);
      MapSnoc(SourcePostingKey, init, p);
      NoDupSnoc(Map(SourcePostingKey, init), SourcePostingKey(p));
      VouchersKnownSnoc(init, ids, p);
      if NumberPostings(ps, start, ids).Ok? {
        PostingImagesSnoc(init, start, ids, NumberPostings(init, start, ids).value, p);
      }
    }
  }

  lemma {:induction false} NumberPostingsPrefix(ps: seq<SourcePosting>, start: i64, ids: map<int, i64>, k: nat)
    requires Room(start, |ps|) && k <= |ps| && NumberPostings(ps[..k], start, ids).Err?
    ensures NumberPostings(ps, start, ids) == NumberPostings(ps[..k], start, ids)
  {
    if k < |ps| {
      assert ps[..|ps| - 1][..k] == ps[..k];
      NumberPostingsPrefix(ps[..|ps| - 1], start, ids, k);
    } else {
      assert ps[..k] == ps;
    }
  }

  method AssignPostings(ps: seq<SourcePosting>, start: i64, ids: map<int, i64>)
    returns (r: Result<seq<Posting>, ImportError>)
    requires Room(start, |ps|)
    ensures r == NumberPostings(ps, start, ids)
  {
    hide NumberPostings;
    NoPostingsNumbered(start, ids);
    assert ps[..0] == [];
    var seen: set<int> := {};
    var postings: seq<Posting> := [];
    for i := 0 to |ps|
      invariant seen == Elements(Map(SourcePostingKey, ps[..i]))
      invariant NumberPostings(ps[..i], start, ids) == Ok(postings)
    {
      assert ps[..i + 1] == ps[..i] + [ps[i]];
      NumberPostingsSnoc(ps[..i], start, ids, ps[i]);
      assert SourcePostingKey(ps[i]) in seen <==> SourcePostingKey(ps[i]) in Map(SourcePostingKey, ps[..i]);
      if ps[i].sourceId in seen {
        NumberPostingsPrefix(ps, start, ids, i + 1);
        return Err(DuplicateSourcePosting(ps[i].sourceId));
      }
      MapSnoc(SourcePostingKey, ps[..i], ps[i]);
      ElementsConcat(Map(SourcePostingKey, ps[..i]), [SourcePostingKey(ps[i])]);
      seen := seen + {ps[i].sourceId};
      if ps[i].voucher !in ids {
        NumberPostingsPrefix(ps, start, ids, i + 1);
        return Err(MissingVoucher(ps[i].voucher));
      }
      postings := postings + [PostingImage(ps[i], start + i, ids[ps[i].voucher])];
    }
    assert ps[..|ps|] == ps;
    r := Ok(postings);
  }

  // ----- balance in source terms

  function SourceAmountIn(voucher: int): SourcePosting -> int {
    (p: SourcePosting) => if p.voucher == voucher then p.amount as int else 0
  }

  function SourceOneIn(voucher: int): SourcePosting -> int {
    (p: SourcePosting) => if p.voucher == voucher then 1 else 0
  }

  /** The source voucher has postings, and they sum to zero. */
  ghost predicate SourceBalanced(voucher: int, ps: seq<SourcePosting>) {
    SumOf(SourceOneIn(voucher), ps) > 0 && SumOf(SourceAmountIn(voucher), ps) == 0
  }

  /** The id is the canonical one of a source voucher. */
  ghost predicate Assigned(voucher: int, id: int, vs: seq<SourceVoucher>, first: int) {
    exists i :: 0 <= i < |vs| && vs[i].sourceId == voucher && id == first + i
  }

  /** The postings are images of the source postings, each at the canonical id of its own voucher. */
  ghost predicate PostingsFollow(postings: seq<Posting>, ps: seq<SourcePosting>, start: int, vs: seq<SourceVoucher>,
                                 first: int) {
    && |postings| == |ps|
    && forall j :: 0 <= j < |ps| ==>
         && postings[j] == PostingImage(ps[j], postings[j].id, postings[j].voucherId)
         && postings[j].id == start + j
         && Assigned(ps[j].voucher, postings[j].voucherId, vs, first)
  }

  /** Renumbering keeps the balance of every voucher. */
  lemma BalanceKept(postings: seq<Posting>, ps: seq<SourcePosting>, start: int, vs: seq<SourceVoucher>, first: int,
                    i: nat)
    requires PostingsFollow(postings, ps, start, vs, first) && NoDup(Map(SourceVoucherKey, vs)) && i < |vs|
    ensures Balanced(first + i, postings) <==> SourceBalanced(vs[i].sourceId, ps)
  {
    hide Sum;
    var id, source := first + i, vs[i].sourceId;
    var keys := Map(SourceVoucherKey, vs);
    forall j | 0 <= j < |ps| ensures postings[j].voucherId == id <==> ps[j].voucher == source {
      var k :| 0 <= k < |vs| && vs[k].sourceId == ps[j].voucher && postings[j].voucherId == first + k;
      assert keys[k] == vs[k].sourceId && keys[i] == source;
    }
    assert Map(AmountIn(id), postings) == Map(SourceAmountIn(source), ps);
    assert Map(OneIn(id), postings) == Map(SourceOneIn(source), ps);
  }

  // ----- the plan

  /** What an accepted import writes. */
  datatype Plan = Plan(manifest: Manifest, vouchers: seq<Voucher>, postings: seq<Posting>)

  function Allocated(r: Result<i64, IdError>): Result<i64, ImportError> {
    match r case Ok(end) => Ok(end) case Err(e) => Err(IdAllocation(e))
  }

  function Checked(vouchers: seq<Voucher>, postings: seq<Posting>): Result<(), ImportError> {
    match Violations(vouchers, postings)
    case Err(v) => Err(BalanceOverflow(v))
    case Ok(found) => if found != [] then Err(Unbalanced(found[0])) else Ok(())
  }

  /** Everything `import_year` decides before it writes. */
  function Planned(m: Manifest, src: SourceYear): Result<Plan, ImportError> {
    if src.year in m.years then Err(YearAlreadyImported(src.year)) else
    var voucherStart, postingStart := Max(m.nextVoucher, src.nextVoucher), Max(m.nextPosting, src.nextPosting);
    if |src.vouchers| > I64_MAX then Err(IdCountOverflow(VoucherRow, |src.vouchers|)) else
    if |src.postings| > I64_MAX then Err(IdCountOverflow(PostingRow, |src.postings|)) else
    var voucherEnd :- Allocated(Reserved(VoucherRow, voucherStart, |src.vouchers|));
    var postingEnd :- Allocated(Reserved(PostingRow, postingStart, |src.postings|));
    var vouchers :- NumberVouchers(src.vouchers, voucherStart);
    var postings :- NumberPostings(src.postings, postingStart, IdMap(src.vouchers, voucherStart));
    var _ :- Checked(vouchers, postings);
    Ok(Plan(m.(nextVoucher := voucherEnd, nextPosting := postingEnd), vouchers, postings))
  }

  /** The content conditions of an import, in terms of the source alone. */
  ghost predicate WellFormed(src: SourceYear) {
    && NoDup(Map(SourceVoucherKey, src.vouchers))
    && NoDup(Map(SourcePostingKey, src.postings))
    && Elements(Map(SourcePostingVoucher, src.postings)) <= Elements(Map(SourceVoucherKey, src.vouchers))
    && forall v :: v in src.vouchers ==> SourceBalanced(v.sourceId, src.postings)
  }

  /** The rows are the images of the source rows from two starting ids on. */
  ghost predicate Follows(vouchers: seq<Voucher>, postings: seq<Posting>, src: SourceYear, voucherStart: int,
                          postingStart: int) {
    && |vouchers| == |src.vouchers|
    && (forall i :: 0 <= i < |vouchers| ==>
          vouchers[i] == VoucherImage(src.vouchers[i], vouchers[i].id) && vouchers[i].id == voucherStart + i)
    && PostingsFollow(postings, src.postings, postingStart, src.vouchers, voucherStart)
  }

  lemma NumberedFollows(src: SourceYear, voucherStart: i64, postingStart: i64)
    requires Room(voucherStart, |src.vouchers|) && Room(postingStart, |src.postings|)
    requires NoDup(Map(SourceVoucherKey, src.vouchers)) && NoDup(Map(SourcePostingKey, src.postings))
    requires Elements(Map(SourcePostingVoucher, src.postings)) <= Elements(Map(SourceVoucherKey, src.vouchers))
    ensures NumberVouchers(src.vouchers, voucherStart).Ok?
    ensures NumberPostings(src.postings, postingStart, IdMap(src.vouchers, voucherStart)).Ok?
    ensures
      Follows(NumberVouchers(src.vouchers, voucherStart).value,
              NumberPostings(src.postings, postingStart, IdMap(src.vouchers, voucherStart)).value,
              src, voucherStart, postingStart)
  {
    hide NumberVouchers;
    hide NumberPostings;
    hide IdMap;
    hide NoDup;
    hide Assigned;
    hide VoucherImages;
    hide PostingImages;
    hide Follows;
    var vs, ps := src.vouchers, src.postings;
    var ids := IdMap(vs, voucherStart);
    NumberVouchersExact(vs, voucherStart);
    forall j | 0 <= j < |ps|
      ensures SourcePostingVoucher(ps[j]) in ids
      ensures Assigned(ps[j].voucher, ids[SourcePostingVoucher(ps[j])], vs, voucherStart)
    {
      KnownVoucher(src, voucherStart, j);
    }
    NumberPostingsExact(ps, postingStart, ids);
    ImagesFollow(src, voucherStart, postingStart, ids,
                 NumberVouchers(vs, voucherStart).value, NumberPostings(ps, postingStart, ids).value);
  }

  lemma KnownVoucher(src: SourceYear, voucherStart: i64, j: nat)
    requires Room(voucherStart, |src.vouchers|) && NoDup(Map(SourceVoucherKey, src.vouchers)) && j < |src.postings|
    requires Elements(Map(SourcePostingVoucher, src.postings)) <= Elements(Map(SourceVoucherKey, src.vouchers))
    ensures
      var ids, voucher := IdMap(src.vouchers, voucherStart), SourcePostingVoucher(src.postings[j]);
      voucher in ids && Assigned(voucher, ids[voucher], src.vouchers, voucherStart)
  {
    hide IdMap;
    hide NoDup;
    var vs, ps := src.vouchers, src.postings;
    assert Map(SourcePostingVoucher, ps)[j] in Elements(Map(SourcePostingVoucher, ps));
    var i :| 0 <= i < |vs| && Map(SourceVoucherKey, vs)[i] == SourcePostingVoucher(ps[j]);
    IdMapAt(vs, voucherStart, i);
  }

  lemma ImagesFollow(src: SourceYear, voucherStart: int, postingStart: int, ids: map<int, i64>,
                     vouchers: seq<Voucher>, postings: seq<Posting>)
    requires Room(voucherStart, |src.vouchers|) && VoucherImages(src.vouchers, voucherStart, vouchers)
    requires Room(postingStart, |src.postings|) && VouchersKnown(src.postings, ids)
    requires PostingImages(src.postings, postingStart, ids, postings)
    requires forall j :: 0 <= j < |src.postings| ==>
      Assigned(src.postings[j].voucher, ids[SourcePostingVoucher(src.postings[j])], src.vouchers, voucherStart)
    ensures Follows(vouchers, postings, src, voucherStart, postingStart)
  {
    hide Assigned;
  }

  lemma RefusedReference(src: SourceYear, voucherStart: i64, postingStart: i64)
    requires Room(voucherStart, |src.vouchers|) && Room(postingStart, |src.postings|)
    requires NumberVouchers(src.vouchers, voucherStart).Ok?
    requires NumberPostings(src.postings, postingStart, IdMap(src.vouchers, voucherStart)).Ok?
    ensures NoDup(Map(SourceVoucherKey, src.vouchers)) && NoDup(Map(SourcePostingKey, src.postings))
    ensures Elements(Map(SourcePostingVoucher, src.postings)) <= Elements(Map(SourceVoucherKey, src.vouchers))
  {
    hide NumberVouchers;
    hide NumberPostings;
    hide IdMap;
    var ids := IdMap(src.vouchers, voucherStart);
    NumberVouchersExact(src.vouchers, voucherStart);
    IdMapKeys(src.vouchers, voucherStart);
    NumberPostingsExact(src.postings, postingStart, ids);
    assert forall j :: 0 <= j < |src.postings| ==> Map(SourcePostingVoucher, src.postings)[j] in ids;
  }

  /** The voucher check on the images is the balance of the source vouchers. */
  lemma CheckedExact(vouchers: seq<Voucher>, postings: seq<Posting>, src: SourceYear, voucherStart: int,
                     postingStart: int)
    requires Follows(vouchers, postings, src, voucherStart, postingStart) && NoDup(Map(SourceVoucherKey, src.vouchers))
    ensures Checked(vouchers, postings).Ok? <==>
      forall v :: v in src.vouchers ==> SourceBalanced(v.sourceId, src.postings)
    ensures Checked(vouchers, postings).Ok? <==> forall v :: v in vouchers ==> Balanced(v.id, postings)
  {
    hide Violations;
    hide Balanced;
    hide SourceBalanced;
    NoViolations(vouchers, postings);
    forall i | 0 <= i < |vouchers|
      ensures vouchers[i] in vouchers && src.vouchers[i] in src.vouchers
      ensures Balanced(vouchers[i].id, postings) <==> SourceBalanced(src.vouchers[i].sourceId, src.postings)
    {
      BalanceKept(postings, src.postings, postingStart, src.vouchers, voucherStart, i);
    }
  }

  /** An import is planned exactly when the year is new, the ids fit and the source is well formed. */
  lemma PlannedExact(m: Manifest, src: SourceYear)
    ensures Planned(m, src).Ok? <==>
      && src.year !in m.years
      && Room(Max(m.nextVoucher, src.nextVoucher), |src.vouchers|)
      && Room(Max(m.nextPosting, src.nextPosting), |src.postings|)
      && WellFormed(src)
    ensures Planned(m, src).Ok? ==>
      var voucherStart, postingStart := Max(m.nextVoucher, src.nextVoucher), Max(m.nextPosting, src.nextPosting);
      var plan := Planned(m, src).value;
      && Follows(plan.vouchers, plan.postings, src, voucherStart, postingStart)
      && (forall v :: v in plan.vouchers ==> Balanced(v.id, plan.postings))
      && plan.manifest == m.(nextVoucher := voucherStart + |src.vouchers|, nextPosting := postingStart + |src.postings|)
  {
    hide NumberVouchers;
    hide NumberPostings;
    hide IdMap;
    hide Checked;
    hide Follows;
    hide Balanced;
    hide SourceBalanced;
    var voucherStart, postingStart := Max(m.nextVoucher, src.nextVoucher), Max(m.nextPosting, src.nextPosting);
    if && src.year !in m.years
       && Room(voucherStart, |src.vouchers|)
       && Room(postingStart, |src.postings|) {
      var vouchers := NumberVouchers(src.vouchers, voucherStart);
      if vouchers.Ok? {
        var postings := NumberPostings(src.postings, postingStart, IdMap(src.vouchers, voucherStart));
        if postings.Ok? {
          RefusedReference(src, voucherStart, postingStart);
          NumberedFollows(src, voucherStart, postingStart);
          CheckedExact(vouchers.value, postings.value, src, voucherStart, postingStart);
        }
      }
      if WellFormed(src) {
        NumberedFollows(src, voucherStart, postingStart);
      }
    }
  }

  /** The voucher is the source voucher under a new id: date and text as they were, the old id kept beside. */
  predicate VoucherSays(v: Voucher, id: int, s: SourceVoucher) {
    v.id == id && v.sourceId == Some(s.sourceId) && v.date == s.date && v.text == s.text
  }

  /** The posting is the source posting under new ids: account, amount and text as they were, the old id kept beside. */
  predicate PostingSays(p: Posting, id: int, voucher: int, s: SourcePosting) {
    && p.id == id && p.sourceId == Some(s.sourceId) && p.voucherId == voucher
    && p.account == s.account && p.amount == s.amount && p.text == s.text
  }

  /** The posting stands at the new id of its own source voucher. */
  ghost predicate PostingPlanned(src: SourceYear, p: Posting, id: int, firstVoucher: int, s: SourcePosting) {
    exists i :: 0 <= i < |src.vouchers| && src.vouchers[i].sourceId == s.voucher &&
      PostingSays(p, id, firstVoucher + i, s)
  }

  lemma PostingFollows(postings: seq<Posting>, src: SourceYear, start: int, first: int, j: nat)
    requires PostingsFollow(postings, src.postings, start, src.vouchers, first) && j < |src.postings|
    ensures PostingPlanned(src, postings[j], start + j, first, src.postings[j])
  {
    assert Assigned(src.postings[j].voucher, postings[j].voucherId, src.vouchers, first);
    var i :| 0 <= i < |src.vouchers| && src.vouchers[i].sourceId == src.postings[j].voucher
      && postings[j].voucherId == first + i;
    assert PostingSays(postings[j], start + j, first + i, src.postings[j]);
  }

  /** What an accepted plan writes, field by field: ids from the larger of the set's and the source's next id on. */
  lemma PlanSays(m: Manifest, src: SourceYear)
    requires Planned(m, src).Ok?
    ensures
      var plan := Planned(m, src).value;
      var a := if m.nextVoucher >= src.nextVoucher then m.nextVoucher else src.nextVoucher;
      var b := if m.nextPosting >= src.nextPosting then m.nextPosting else src.nextPosting;
      && plan.manifest.name == m.name && plan.manifest.years == m.years
      && plan.manifest.nextVoucher == a + |src.vouchers| && plan.manifest.nextPosting == b + |src.postings|
      && |plan.vouchers| == |src.vouchers| && |plan.postings| == |src.postings|
      && (forall i :: 0 <= i < |src.vouchers| ==> VoucherSays(plan.vouchers[i], a + i, src.vouchers[i]))
      && (forall j :: 0 <= j < |src.postings| ==> PostingPlanned(src, plan.postings[j], b + j, a, src.postings[j]))
  {
    hide Planned;
    hide WellFormed;
    hide Balanced;
    hide PostingPlanned;
    PlannedExact(m, src);
    var plan := Planned(m, src).value;
    var a := if m.nextVoucher >= src.nextVoucher then m.nextVoucher else src.nextVoucher;
    var b := if m.nextPosting >= src.nextPosting then m.nextPosting else src.nextPosting;
    forall j | 0 <= j < |src.postings|
      ensures PostingPlanned(src, plan.postings[j], b + j, a, src.postings[j])
    {
      PostingFollows(plan.postings, src, b, a, j);
    }
  }

  // ----- why an import is refused

  /** Voucher number `j` is the first to repeat a source id. */
  ghost predicate RepeatsAt(vs: seq<SourceVoucher>, j: nat) {
    && j < |vs| && NoDup(Map(SourceVoucherKey, vs[..j]))
    && exists i :: 0 <= i < j && vs[i].sourceId == vs[j].sourceId
  }

  lemma KeyRepeats(vs: seq<SourceVoucher>, j: nat)
    requires j < |vs|
    ensures SourceVoucherKey(vs[j]) in Map(SourceVoucherKey, vs[..j]) <==>
      exists i :: 0 <= i < j && vs[i].sourceId == vs[j].sourceId
  {
    var keys := Map(SourceVoucherKey, vs[..j]);
    assert forall i :: 0 <= i < j ==> keys[i] == vs[i].sourceId;
  }

  /** The first repeated source id is reported. */
  lemma {:induction false} DuplicateVoucher(vs: seq<SourceVoucher>, start: i64) returns (j: nat)
    requires Room(start, |vs|) && NumberVouchers(vs, start).Err?
    ensures RepeatsAt(vs, j) && NumberVouchers(vs, start) == Err(DuplicateSourceVoucher(vs[j].sourceId))
  {
    hide NoDup;
    var n := |vs| - 1;
    if NumberVouchers(vs[..n], start).Err? {
      j := DuplicateVoucher(vs[..n], start);
      assert vs[..n][..j] == vs[..j];
    } else {
      j := n;
      NumberVouchersExact(vs[..n], start);
      KeyRepeats(vs, n);
    }
  }

  /** Posting number `j` is the first to repeat a source id or to name an unknown voucher. */
  ghost predicate BreaksAt(ps: seq<SourcePosting>, ids: map<int, i64>, j: nat, repeated: bool) {
    && j < |ps| && NoDup(Map(SourcePostingKey, ps[..j])) && VouchersKnown(ps[..j], ids)
    && (repeated <==> exists i :: 0 <= i < j && ps[i].sourceId == ps[j].sourceId)
    && (!repeated ==> SourcePostingVoucher(ps[j]) !in ids)
  }

  lemma PostingRepeats(ps: seq<SourcePosting>, j: nat)
    requires j < |ps|
    ensures SourcePostingKey(ps[j]) in Map(SourcePostingKey, ps[..j]) <==>
      exists i :: 0 <= i < j && ps[i].sourceId == ps[j].sourceId
  {
    var keys := Map(SourcePostingKey, ps[..j]);
    assert forall i :: 0 <= i < j ==> keys[i] == ps[i].sourceId;
  }

  /** The first posting with a repeated source id or an unknown voucher is reported. */
  lemma {:induction false} RefusedPosting(ps: seq<SourcePosting>, start: i64, ids: map<int, i64>)
    returns (j: nat, repeated: bool)
    requires Room(start, |ps|) && NumberPostings(ps, start, ids).Err?
    ensures BreaksAt(ps, ids, j, repeated)
    ensures NumberPostings(ps, start, ids) == Err(
      if repeated then DuplicateSourcePosting(ps[j].sourceId) else MissingVoucher(ps[j].voucher))
  {
    hide NoDup;
    hide VouchersKnown;
    var n := |ps| - 1;
    if NumberPostings(ps[..n], start, ids).Err? {
      j, repeated := RefusedPosting(ps[..n], start, ids);
      assert ps[..n][..j] == ps[..j];
    } else {
      j, repeated := n, SourcePostingKey(ps[n]) in Map(SourcePostingKey, ps[..n]);
      NumberPostingsExact(ps[..n], start, ids);
      PostingRepeats(ps, n);
    }
  }

  /**
   Why an import is not planned: its year is listed; the first repeated voucher id; a posting
   that repeats an id, or one that names an unknown voucher.
   */
  lemma PlanRefusals(m: Manifest, src: SourceYear)
    ensures
      var r := Planned(m, src);
      && (forall year :: r == Err(YearAlreadyImported(year)) <==> year == src.year && src.year in m.years)
      && (forall x :: r == Err(DuplicateSourceVoucher(x)) ==>
            exists j: nat :: RepeatsAt(src.vouchers, j) && src.vouchers[j].sourceId == x)
      && (forall x :: r == Err(DuplicateSourcePosting(x)) ==>
            exists i, j :: 0 <= i < j < |src.postings| && src.postings[i].sourceId == src.postings[j].sourceId == x)
      && (forall x :: r == Err(MissingVoucher(x)) ==>
            && x in Map(SourcePostingVoucher, src.postings) && x !in Map(SourceVoucherKey, src.vouchers))
  {
    hide NumberVouchers;
    hide NumberPostings;
    hide IdMap;
    hide Checked;
    hide NoDup;
    var a, b := Max(m.nextVoucher, src.nextVoucher), Max(m.nextPosting, src.nextPosting);
    CheckedErrors(m, src);
    if src.year !in m.years && Room(a, |src.vouchers|) && Room(b, |src.postings|) {
      if NumberVouchers(src.vouchers, a).Err? {
        var j := DuplicateVoucher(src.vouchers, a);
      } else {
        var ids := IdMap(src.vouchers, a);
        IdMapKeys(src.vouchers, a);
        if NumberPostings(src.postings, b, ids).Err? {
          var j, repeated := RefusedPosting(src.postings, b, ids);
          assert Map(SourcePostingVoucher, src.postings)[j] == src.postings[j].voucher;
          assert src.postings[j].voucher in Elements(Map(SourceVoucherKey, src.vouchers)) <==>
            src.postings[j].voucher in Map(SourceVoucherKey, src.vouchers);
        }
      }
    }
  }

  lemma CheckedErrors(m: Manifest, src: SourceYear)
    ensures forall vouchers, postings :: Checked(vouchers, postings).Err? ==>
      Checked(vouchers, postings).error.BalanceOverflow? || Checked(vouchers, postings).error.Unbalanced?
  {
    hide Violations;
  }

  /** What the voucher check reports, in terms of the new rows. */
  lemma CheckedReports(vouchers: seq<Voucher>, postings: seq<Posting>)
    ensures forall v :: Checked(vouchers, postings) == Err(Unbalanced(v)) ==>
      && v.voucherId in Map(VoucherKey, vouchers) && Violates(v, postings)
      && forall other :: other in vouchers && other.id < v.voucherId ==> Balanced(other.id, postings)
    ensures forall id :: Checked(vouchers, postings) == Err(BalanceOverflow(id)) ==>
      id in Map(VoucherKey, vouchers) && !IsI64(VoucherSum(id, postings))
  {
    hide Violations;
    hide Balanced;
    hide VoucherCount;
    hide VoucherSum;
    ViolationsReported(vouchers, postings);
    if Violations(vouchers, postings).Ok? && Violations(vouchers, postings).value != [] {
      FirstViolation(vouchers, postings);
    }
  }
}
