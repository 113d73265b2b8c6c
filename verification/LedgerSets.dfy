/** Ledger sets: the manifest, id allocation and year files on one mount. */
module LedgerSets {
  import opened Wrappers
  import opened Numbers
  import opened Text
  import opened YearFiles

  datatype RowKind = VoucherRow | PostingRow

  datatype IdError =
    | NegativeCount(kind: RowKind, count: int)
    | NegativeCursor(kind: RowKind, start: int)
    | CursorOverflow(kind: RowKind, start: int, count: int)

  /** The cursor behind `n` reserved ids. */
  function Reserved(kind: RowKind, cursor: i64, n: i64): Result<i64, IdError> {
    if n < 0 then Err(NegativeCount(kind, n))
    else if cursor < 0 then Err(NegativeCursor(kind, cursor))
    else if !IsI64(cursor + n) then Err(CursorOverflow(kind, cursor, n))
    else Ok(cursor + n)
  }

  const YEAR_KEY := "year"

  /** An empty file that knows its year. */
  function NamedYear(year: int): YearFile {
    EMPTY_YEAR.(meta := map[YEAR_KEY := PrintInt(year)])
  }

  /** `YearStore::create`: exclusive creation from the empty image, then the year's name in it. */
  function CreateYear(faults: Faults, d: Disk, year: int): (a: Attempted)
    ensures a.result.Ok? ==> year in a.disk.files
  {
    if year in d.files then Attempted(Err(AlreadyExists), d) else
    var created := Attempt(faults, d, d.(files := d.files[year := EMPTY_YEAR]));
    if created.result.Err? then created
    else Perform(faults, created.disk, year, SetMeta(YEAR_KEY, PrintInt(year)))
  }

  /** `reserve_ids`: the first of `n` fresh ids; the cursor moves only on success. */
  method ReserveIds(kind: RowKind, cursor: i64, n: i64) returns (r: Result<i64, IdError>, next: i64)
    ensures Reserved(kind, cursor, n).Ok? ==> r == Ok(cursor) && next == Reserved(kind, cursor, n).value
    ensures Reserved(kind, cursor, n).Err? ==> r == Err(Reserved(kind, cursor, n).error) && next == cursor
  {
    next := cursor;
    if n < 0 {
      return Err(NegativeCount(kind, n)), next;
    }
    var start := cursor;
    if start < 0 {
      return Err(NegativeCursor(kind, start)), next;
    }
    if start > I64_MAX - n {
      return Err(CursorOverflow(kind, start, n)), next;
    }
    next := start + n;
    r := Ok(start);
  }

  /** The manifest of a set without years. */
  function FreshManifest(name: string): Manifest {
    Manifest(name, 1, 1, [])
  }

  /** `LedgerSet::create`: refused when the mount already has a manifest. */
  function CreateSet(faults: Faults, d: Disk, name: string): Attempted {
    if d.manifest.Some? then Attempted(Err(AlreadyExists), d)
    else Attempt(faults, d, d.(manifest := Some(FreshManifest(name))))
  }

  class LedgerSet {
    const mount: Mount
    var manifest: Manifest

    constructor (mount: Mount, manifest: Manifest)
      ensures this.mount == mount && this.manifest == manifest
    {
      this.mount, this.manifest := mount, manifest;
    }

    static method Create(mount: Mount, name: string) returns (r: Result<LedgerSet, StoreError>)
      modifies mount
      ensures
        var a := CreateSet(mount.faults, old(mount.disk), name);
        && mount.disk == a.disk
        && (r.Ok? <==> a.result.Ok?)
        && (r.Err? ==> a.result == Err(r.error))
      ensures r.Ok? ==> fresh(r.value) && r.value.mount == mount && r.value.manifest == Manifest(name, 1, 1, [])
    {
      if mount.disk.manifest.Some? {
        return Err(AlreadyExists);
      }
      var ledger := new LedgerSet(mount, Manifest(name, 1, 1, []));
      var saved := ledger.Save();
      r := if saved.Err? then Err(saved.error) else Ok(ledger);
    }

    /** A set as the mount has it saved. */
    static method Open(mount: Mount) returns (r: Result<LedgerSet, StoreError>)
      ensures r.Ok? <==> mount.disk.manifest.Some?
      ensures r.Ok? ==> fresh(r.value) && r.value.mount == mount && Some(r.value.manifest) == mount.disk.manifest
      ensures r.Err? ==> r.error == Missing
    {
      if mount.disk.manifest.None? {
        return Err(Missing);
      }
      var ledger := new LedgerSet(mount, mount.disk.manifest.value);
      r := Ok(ledger);
    }

    method AllocVoucherIds(n: i64) returns (r: Result<i64, IdError>)
      modifies this
      ensures
        var end := Reserved(VoucherRow, old(manifest).nextVoucher, n);
        if end.Ok? then r == Ok(old(manifest).nextVoucher) && manifest == old(manifest).(nextVoucher := end.value)
        else r == Err(end.error) && manifest == old(manifest)
    {
      var next;
      r, next := ReserveIds(VoucherRow, manifest.nextVoucher, n);
      manifest := manifest.(nextVoucher := next);
    }

    method AllocPostingIds(n: i64) returns (r: Result<i64, IdError>)
      modifies this
      ensures
        var end := Reserved(PostingRow, old(manifest).nextPosting, n);
        if end.Ok? then r == Ok(old(manifest).nextPosting) && manifest == old(manifest).(nextPosting := end.value)
        else r == Err(end.error) && manifest == old(manifest)
    {
      var next;
      r, next := ReserveIds(PostingRow, manifest.nextPosting, n);
      manifest := manifest.(nextPosting := next);
    }

    /** Replaces the saved manifest in one atomic write. */
    method Save() returns (r: Result<(), StoreError>)
      modifies mount
      ensures Attempted(r, mount.disk) ==
        Attempt(mount.faults, old(mount.disk), old(mount.disk).(manifest := Some(manifest)))
    {
      r := mount.Replace(mount.disk.(manifest := Some(manifest)));
    }

    method CreateYearStore(year: int) returns (r: Result<YearStore, StoreError>)
      modifies mount
      ensures
        var a := CreateYear(mount.faults, old(mount.disk), year);
        && mount.disk == a.disk
        && (r.Ok? <==> a.result.Ok?)
        && (r.Err? ==> a.result == Err(r.error))
      ensures r.Ok? ==>
        fresh(r.value) && r.value.mount == mount && r.value.year == year && r.value.Valid()
    {
      if year in mount.disk.files {
        return Err(AlreadyExists);
      }
      var created := mount.Replace(mount.disk.(files := mount.disk.files[year := EMPTY_YEAR]));
      if created.Err? {
        return Err(created.error);
      }
      var store := new YearStore(mount, year);
      var named := store.Mutate(SetMeta(YEAR_KEY, PrintInt(year)));
      r := if named.Err? then Err(named.error) else Ok(store);
    }
  }

  /** `YearStore::open`: the file must name the year it is asked for. */
  function OpenYear(d: Disk, year: int): Result<YearFile, StoreError> {
    if year !in d.files then Err(Missing)
    else if YEAR_KEY !in d.files[year].meta || ParseI32(d.files[year].meta[YEAR_KEY]) != Some(year) then Err(Invalid)
    else Ok(d.files[year])
  }

  /** A file that names a year opens as that year and as no other. */
  lemma OpenYearExact(d: Disk, year: int, name: i32)
    requires year in d.files && YEAR_KEY in d.files[year].meta && d.files[year].meta[YEAR_KEY] == PrintInt(name)
    ensures OpenYear(d, year) == if name == year then Ok(d.files[year]) else Err(Invalid)
  {
    assert IsI32(name) && IsI64(name);
    ParsePrintInt(name);
  }

  /** A missing file, or one without a name, does not open. */
  lemma UnnamedYear(d: Disk, year: int)
    requires year in d.files ==> YEAR_KEY !in d.files[year].meta
    ensures OpenYear(d, year) == Err(if year in d.files then Invalid else Missing)
  {
  }
}
