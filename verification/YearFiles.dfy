/** Year files: keyed tables behind guarded writes, on a mount whose writes may fail. */
module YearFiles {
  import opened Wrappers
  import opened Numbers
  import opened Sequences
  import opened Ledger

  datatype YearFile = YearFile(accounts: seq<Account>, vouchers: seq<Voucher>, postings: seq<Posting>,
                               idState: map<string, i64>, meta: map<string, string>)

  datatype StoreError = AlreadyExists | Missing | Closed | KeyViolation | Invalid | Malformed | Failed

  datatype Write =
    | InsertAccount(account: Account)
    | InsertVoucher(voucher: Voucher)
    | InsertPosting(posting: Posting)
    | SetIdState(kind: string, next: i64)
    | SetMeta(key: string, value: string)

  const EMPTY_YEAR := YearFile([], [], [], map[], map[])

  function PostingVoucher(p: Posting): int { p.voucherId }
  function PostingAccount(p: Posting): int { p.account }

  // ----- keys

  /** Primary keys do not repeat and foreign keys have a target. */
  ghost predicate Keyed(f: YearFile) {
    && NoDup(Map(AccountNumber, f.accounts))
    && NoDup(Map(VoucherKey, f.vouchers))
    && NoDup(Map(PostingKey, f.postings))
    && Elements(Map(PostingVoucher, f.postings)) <= Elements(Map(VoucherKey, f.vouchers))
    && Elements(Map(PostingAccount, f.postings)) <= Elements(Map(AccountNumber, f.accounts))
  }

  /** One write on committed content: inserts fail on a taken key or a missing target, the rest upserts. */
  function Commit(f: YearFile, w: Write): Result<YearFile, StoreError> {
    match w
    case InsertAccount(a) =>
      if AccountNumber(a) in Map(AccountNumber, f.accounts) then Err(KeyViolation)
      else Ok(f.(accounts := f.accounts + [a]))
    case InsertVoucher(v) =>
      if VoucherKey(v) in Map(VoucherKey, f.vouchers) then Err(KeyViolation)
      else Ok(f.(vouchers := f.vouchers + [v]))
    case InsertPosting(p) =>
      if || PostingKey(p) in Map(PostingKey, f.postings)
         || PostingVoucher(p) !in Map(VoucherKey, f.vouchers)
         || PostingAccount(p) !in Map(AccountNumber, f.accounts)
      then Err(KeyViolation)
      else Ok(f.(postings := f.postings + [p]))
    case SetIdState(kind, next) => Ok(f.(idState := f.idState[kind := next]))
    case SetMeta(key, value) => Ok(f.(meta := f.meta[key := value]))
  }

  lemma CommitKeepsKeys(f: YearFile, w: Write)
    requires Keyed(f) && Commit(f, w).Ok?
    ensures Keyed(Commit(f, w).value)
  {
    match w
    case InsertAccount(a) =>
      MapSnoc(AccountNumber, f.accounts, a);
      NoDupSnoc(Map(AccountNumber, f.accounts), AccountNumber(a));
      ElementsConcat(Map(AccountNumber, f.accounts), [AccountNumber(a)]);
    case InsertVoucher(v) =>
      MapSnoc(VoucherKey, f.vouchers, v);
      NoDupSnoc(Map(VoucherKey, f.vouchers), VoucherKey(v));
      ElementsConcat(Map(VoucherKey, f.vouchers), [VoucherKey(v)]);
    case InsertPosting(p) =>
      MapSnoc(PostingKey, f.postings, p);
      NoDupSnoc(Map(PostingKey, f.postings), PostingKey(p));
      MapSnoc(PostingVoucher, f.postings, p);
      ElementsConcat(Map(PostingVoucher, f.postings), [PostingVoucher(p)]);
      MapSnoc(PostingAccount, f.postings, p);
      ElementsConcat(Map(PostingAccount, f.postings), [PostingAccount(p)]);
      assert Elements([PostingVoucher(p)]) <= Elements(Map(VoucherKey, f.vouchers));
      assert Elements([PostingAccount(p)]) <= Elements(Map(AccountNumber, f.accounts));
    case _ =>
  }

  // ----- the closing guard

  const STATE_KEY := "closing_state"

  predicate IsClosed(f: YearFile) {
    STATE_KEY in f.meta && f.meta[STATE_KEY] == "closed"
  }

  /** A write as the store admits it: only metadata may change while the year is closed. */
  function Apply(f: YearFile, w: Write): Result<YearFile, StoreError> {
    if !w.SetMeta? && IsClosed(f) then Err(Closed) else Commit(f, w)
  }

  /** Several writes on one file. */
  function ApplyAll(f: YearFile, ws: seq<Write>): Result<YearFile, StoreError> {
    if ws == [] then Ok(f) else
    var before :- ApplyAll(f, ws[..|ws| - 1]);
    Apply(before, ws[|ws| - 1])
  }

  lemma {:induction false} ApplyAllConcat(f: YearFile, ws: seq<Write>, more: seq<Write>)
    ensures ApplyAll(f, ws + more) ==
      if ApplyAll(f, ws).Ok? then ApplyAll(ApplyAll(f, ws).value, more) else ApplyAll(f, ws)
  {
    if more == [] {
      assert ws + more == ws;
    } else {
      var n := |more| - 1;
      ApplyAllConcat(f, ws, more[..n]);
      assert (ws + more)[..|ws + more| - 1] == ws + more[..n];
    }
  }

  lemma {:induction false} ApplyAllKeepsKeys(f: YearFile, ws: seq<Write>)
    requires Keyed(f) && ApplyAll(f, ws).Ok?
    ensures Keyed(ApplyAll(f, ws).value)
  {
    if ws != [] {
      ApplyAllKeepsKeys(f, ws[..|ws| - 1]);
      CommitKeepsKeys(ApplyAll(f, ws[..|ws| - 1]).value, ws[|ws| - 1]);
    }
  }

  // ----- the mount

  /** What becomes of one storage write: done, lost with an error, or done although an error is reported. */
  datatype Outcome = Done | Lost | Unreported

  type Faults = nat -> Outcome

  datatype Manifest = Manifest(name: string, nextVoucher: i64, nextPosting: i64, years: seq<int>)

  /** The mounted directory, and the number of writes attempted so far. */
  datatype Disk = Disk(files: map<int, YearFile>, manifest: Option<Manifest>, clock: nat)

  datatype Attempted = Attempted(result: Result<(), StoreError>, disk: Disk)

  /** One atomic write that would turn `before` into `after`. */
  function Attempt(faults: Faults, before: Disk, after: Disk): (a: Attempted)
    ensures a.disk == before.(clock := before.clock + 1) || a.disk == after.(clock := before.clock + 1)
    ensures a.result.Ok? <==> faults(before.clock).Done?
    ensures a.result.Ok? ==> a.disk == after.(clock := before.clock + 1)
  {
    match faults(before.clock)
    case Done => Attempted(Ok(()), after.(clock := before.clock + 1))
    case Lost => Attempted(Err(Failed), before.(clock := before.clock + 1))
    case Unreported => Attempted(Err(Failed), after.(clock := before.clock + 1))
  }

  /** One admitted write on the year file `year`. */
  function Perform(faults: Faults, d: Disk, year: int, w: Write): (a: Attempted)
    requires year in d.files
    ensures year in a.disk.files
  {
    match Apply(d.files[year], w)
    case Err(e) => Attempted(Err(e), d)
    case Ok(f) => Attempt(faults, d, d.(files := d.files[year := f]))
  }

  /** Writes in order, up to the first that fails. */
  function PerformAll(faults: Faults, d: Disk, year: int, ws: seq<Write>): (a: Attempted)
    requires year in d.files
    ensures year in a.disk.files
  {
    if ws == [] then Attempted(Ok(()), d) else
    var before := PerformAll(faults, d, year, ws[..|ws| - 1]);
    if before.result.Err? then before else Perform(faults, before.disk, year, ws[|ws| - 1])
  }

  class Mount {
    const faults: Faults
    var disk: Disk

    constructor (faults: Faults, disk: Disk)
      ensures this.faults == faults && this.disk == disk
    {
      this.faults, this.disk := faults, disk;
    }

    method Replace(after: Disk) returns (r: Result<(), StoreError>)
      modifies this
      ensures Attempted(r, disk) == Attempt(faults, old(disk), after)
    {
      match faults(disk.clock)
      case Done =>
        disk := after.(clock := disk.clock + 1);
        r := Ok(());
      case Lost =>
        disk := disk.(clock := disk.clock + 1);
        r := Err(Failed);
      case Unreported =>
        disk := after.(clock := disk.clock + 1);
        r := Err(Failed);
    }
  }

  /** An open year file: a session on its content, materialized after every write. */
  class YearStore {
    const mount: Mount
    const year: int
    var content: YearFile

    /** The session shows what is stored. */
    predicate Valid()
      reads this, mount
    {
      year in mount.disk.files && content == mount.disk.files[year]
    }

    constructor (mount: Mount, year: int)
      requires year in mount.disk.files
      ensures this.mount == mount && this.year == year && Valid()
    {
      this.mount, this.year, this.content := mount, year, mount.disk.files[year];
    }

    method EnsureMutable() returns (r: Result<(), StoreError>)
      ensures r == if IsClosed(content) then Err(Closed) else Ok(())
    {
      r := if STATE_KEY in content.meta && content.meta[STATE_KEY] == "closed" then Err(Closed) else Ok(());
    }

    /** Commits in the session, then materializes the file. */
    method Mutate(w: Write) returns (r: Result<(), StoreError>)
      requires Valid() && (w.SetMeta? || !IsClosed(content))
      modifies this`content, mount
      ensures Attempted(r, mount.disk) == Perform(mount.faults, old(mount.disk), year, w)
      ensures r.Ok? ==> Valid()
    {
      match Commit(content, w)
      case Err(e) =>
        r := Err(e);
      case Ok(f) =>
        content := f;
        r := mount.Replace(mount.disk.(files := mount.disk.files[year := f]));
    }

    /** `insert_account`, `insert_voucher`, `insert_posting` and `set_id_state`. */
    method Guarded(w: Write) returns (r: Result<(), StoreError>)
      requires Valid() && !w.SetMeta?
      modifies this`content, mount
      ensures Attempted(r, mount.disk) == Perform(mount.faults, old(mount.disk), year, w)
      ensures r.Ok? ==> Valid()
    {
      r := EnsureMutable();
      if r.Ok? {
        r := Mutate(w);
      }
    }
  }

  // ----- what a sequence of writes leaves behind

  ghost predicate LeftAt(a: Attempted, d: Disk, year: int, ws: seq<Write>, k: nat)
    requires year in d.files && k <= |ws|
  {
    ApplyAll(d.files[year], ws[..k]).Ok? && a.disk.files == d.files[year := ApplyAll(d.files[year], ws[..k]).value]
  }

  lemma LeftLater(a: Attempted, d: Disk, year: int, ws: seq<Write>, k: nat)
    requires year in d.files && ws != [] && k <= |ws| - 1 && LeftAt(a, d, year, ws[..|ws| - 1], k)
    ensures LeftAt(a, d, year, ws, k)
  {
    assert ws[..|ws| - 1][..k] == ws[..k];
  }

  /** Only the year's own file changes; it holds the outcome of the first `k` writes, of all on success. */
  lemma {:induction false} PerformAllLeaves(faults: Faults, d: Disk, year: int, ws: seq<Write>) returns (k: nat)
    requires year in d.files
    ensures k <= |ws| && LeftAt(PerformAll(faults, d, year, ws), d, year, ws, k)
    ensures PerformAll(faults, d, year, ws).result.Ok? ==> k == |ws|
    ensures PerformAll(faults, d, year, ws).disk.manifest == d.manifest
  {
    var a := PerformAll(faults, d, year, ws);
    if ws == [] {
      k := 0;
      assert d.files[year := d.files[year]] == d.files;
    } else {
      var n := |ws| - 1;
      k := PerformAllLeaves(faults, d, year, ws[..n]);
      var before := PerformAll(faults, d, year, ws[..n]);
      if before.result.Err? {
        LeftLater(a, d, year, ws, k);
      } else {
        assert ws[..n][..n] == ws[..n] && ws[..|ws|] == ws;
        if a.disk.files != before.disk.files || a.result.Ok? {
          k := |ws|;
        }
      }
    }
  }

  /** All writes succeed exactly when the store admits each of them and each is done. */
  lemma {:induction false} PerformAllSucceeds(faults: Faults, d: Disk, year: int, ws: seq<Write>)
    requires year in d.files
    ensures PerformAll(faults, d, year, ws).result.Ok? <==>
      ApplyAll(d.files[year], ws).Ok? && forall t :: d.clock <= t < d.clock + |ws| ==> faults(t).Done?
    ensures PerformAll(faults, d, year, ws).result.Ok? ==> PerformAll(faults, d, year, ws).disk.clock == d.clock + |ws|
  {
    if ws != [] {
      var n := |ws| - 1;
      PerformAllSucceeds(faults, d, year, ws[..n]);
      var before := PerformAll(faults, d, year, ws[..n]);
      if before.result.Ok? {
        var k := PerformAllLeaves(faults, d, year, ws[..n]);
        assert ws[..n][..n] == ws[..n];
        assert before.disk.clock == d.clock + n;
      }
    }
  }
}
