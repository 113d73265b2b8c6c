/** Imports, closes and reopens in any order, with any storage write failing. */
module LedgerRuns {
  import opened Wrappers
  import opened Numbers
  import opened Sequences
  import opened Sorting
  import opened Text
  import opened Ledger
  import opened YearFiles
  import opened LedgerSets
  import opened Renumbering
  import opened Import
  import opened Statements
  import opened Journal
  import opened Closing
  import ClosingRuns
  import ImportRuns

  type World = ImportRuns.World

  datatype Action = OnSets(action: ImportRuns.Action) | Close(year: int) | Reopen(year: int, reason: string)

  function Step(faults: Faults, w: World, action: Action): World {
    match action
    case OnSets(a) => ImportRuns.Step(faults, w, a)
    case Close(year) => w.(disk := CloseOf(faults, w.disk, year).disk)
    case Reopen(year, reason) => w.(disk := ReopenOf(faults, w.disk, year, reason).disk)
  }

  function Run(faults: Faults, w: World, actions: seq<Action>): World {
    if actions == [] then w
    else Step(faults, Run(faults, w, actions[..|actions| - 1]), actions[|actions| - 1])
  }

  function SourceOf(action: Action): seq<SourceYear> {
    if action.OnSets? && action.action.ImportInto? then [action.action.src] else []
  }

  function SourcesOf(actions: seq<Action>): seq<SourceYear> {
    if actions == [] then [] else SourcesOf(actions[..|actions| - 1]) + SourceOf(actions[|actions| - 1])
  }

  // ----- what closing leaves alone

  /** The file without the two metadata entries of the close. */
  function Unmarked(f: YearFile): YearFile {
    f.(meta := f.meta - {STATE_KEY, JOURNAL_KEY})
  }

  function AllUnmarked(files: map<int, YearFile>): map<int, YearFile> {
    map y | y in files :: Unmarked(files[y])
  }

  /** The two entries of the close are as some calls have written them. */
  ghost predicate Journaled(f: YearFile) {
    exists state, history :: ClosingRuns.Recorded(f, state, history)
  }

  /** What a close or reopen may do to the files: mark one year that opens, or nothing. */
  ghost predicate MarksOnly(d: Disk, later: Disk) {
    && AllUnmarked(later.files) == AllUnmarked(d.files) && later.manifest == d.manifest
    && forall y :: y in d.files && Journaled(d.files[y]) ==> y in later.files && Journaled(later.files[y])
  }

  lemma MarkMarksOnly(faults: Faults, d: Disk, year: int, next: ClosingState, reason: string)
    requires ClosingRuns.Named(d, year) && reason != "" && Trimmed(reason)
    ensures MarksOnly(d, Mark(faults, d, year, next, reason).disk)
  {
    hide ClosingRuns.Recorded;
    hide Mark;
    hide AppendedText;
    hide Trimmed;
    var later := Mark(faults, d, year, next, reason).disk;
    ClosingRuns.MarkFile(faults, d, year, next, reason);
    MarkManifest(faults, d, year, next, reason);
    MarkUnmarked(d.files, later.files, year);
    if Journaled(d.files[year]) {
      var state, history :| ClosingRuns.Recorded(d.files[year], state, history);
      ClosingRuns.MarkTracks(faults, d, year, next, reason, state, history);
    }
  }

  lemma MarkManifest(faults: Faults, d: Disk, year: int, next: ClosingState, reason: string)
    requires year in d.files
    ensures Mark(faults, d, year, next, reason).disk.manifest == d.manifest
  {
    hide AppendedText;
  }

  lemma MarkUnmarked(files: map<int, YearFile>, later: map<int, YearFile>, year: int)
    requires year in files && later.Keys == files.Keys
    requires Unmarked(later[year]) == Unmarked(files[year])
    requires forall y :: y in files && y != year ==> later[y] == files[y]
    ensures AllUnmarked(later) == AllUnmarked(files)
  {
    hide Unmarked;
    forall y | y in files ensures AllUnmarked(later)[y] == AllUnmarked(files)[y] {
    }
    assert AllUnmarked(later).Keys == AllUnmarked(files).Keys;
  }

  lemma NothingMarked(d: Disk)
    ensures MarksOnly(d, d)
  {
  }

  lemma CloseMarksOnly(faults: Faults, d: Disk, year: int)
    ensures MarksOnly(d, CloseOf(faults, d, year).disk)
  {
    hide Mark;
    hide StatementsOf;
    hide MarksOnly;
    NothingMarked(d);
    if OpenYear(d, year).Ok? {
      MarkMarksOnly(faults, d, year, ClosingState.Closed, CLOSE_REASON);
    }
  }

  lemma ReopenMarksOnly(faults: Faults, d: Disk, year: int, reason: string)
    ensures MarksOnly(d, ReopenOf(faults, d, year, reason).disk)
  {
    hide Mark;
    hide MarksOnly;
    hide CloseJournal;
    NothingMarked(d);
    if OpenYear(d, year).Ok? && Trim(reason) != "" {
      TrimmedTrim(reason);
      MarkMarksOnly(faults, d, year, ClosingState.Open, Trim(reason));
    }
  }

  // ----- what a manifest promises

  /** Listed years are whole images of imported sources, apart from the entries of the close, and these are readable. */
  ghost predicate Kept(m: Manifest, files: map<int, YearFile>, sources: seq<SourceYear>) {
    && ImportRuns.Sound(m, AllUnmarked(files), sources)
    && forall y :: y in m.years ==> y in files && Journaled(files[y])
  }

  ghost predicate AllKept(w: World, sources: seq<SourceYear>) {
    && (w.disk.manifest.Some? ==> Kept(w.disk.manifest.value, w.disk.files, sources))
    && forall k :: 0 <= k < |w.sets| ==> Kept(w.sets[k], w.disk.files, sources)
  }

  lemma KeptMarked(m: Manifest, d: Disk, later: Disk, sources: seq<SourceYear>)
    requires Kept(m, d.files, sources) && MarksOnly(d, later)
    ensures Kept(m, later.files, sources)
  {
    hide ImportRuns.Sound;
    hide AllUnmarked;
    hide Journaled;
  }

  lemma KeptExtended(m: Manifest, files: map<int, YearFile>, sources: seq<SourceYear>, later: map<int, YearFile>,
                     year: int, more: seq<SourceYear>)
    requires Kept(m, files, sources) && ImportRuns.Extends(files, later, year)
    ensures Kept(m, later, sources + more)
  {
    hide Journaled;
    assert ImportRuns.Extends(AllUnmarked(files), AllUnmarked(later), year) by {
      hide Unmarked;
    }
    ImportRuns.SoundExtended(m, AllUnmarked(files), sources, AllUnmarked(later), year, more);
    SoundYears(m, AllUnmarked(files), sources);
    hide ImportRuns.Sound;
  }

  lemma SoundYears(m: Manifest, files: map<int, YearFile>, sources: seq<SourceYear>)
    requires ImportRuns.Sound(m, files, sources)
    ensures forall y :: y in m.years ==> y in files
  {
  }

  lemma FreshKept(name: string, files: map<int, YearFile>, sources: seq<SourceYear>)
    ensures Kept(FreshManifest(name), files, sources)
  {
  }

  lemma ImageUnmarked(src: SourceYear, plan: Plan)
    ensures Unmarked(ImportRuns.ImageFile(src, plan)) == ImportRuns.ImageFile(src, plan)
    ensures Journaled(ImportRuns.ImageFile(src, plan))
  {
    var f := ImportRuns.ImageFile(src, plan);
    assert f.meta - {STATE_KEY, JOURNAL_KEY} == f.meta;
    assert ClosingRuns.Recorded(f, None, []);
  }

  lemma KeptListed(m: Manifest, files: map<int, YearFile>, sources: seq<SourceYear>, src: SourceYear)
    requires Kept(m, files, sources) && Planned(m, src).Ok? && ImportRuns.SourceKeyed(src) && src.year !in files
    ensures
      var plan := Planned(m, src).value;
      Kept(Listed(plan.manifest, src.year), files[src.year := ImportRuns.ImageFile(src, plan)], sources + [src])
  {
    hide Planned;
    hide ImportRuns.Sound;
    hide ImportRuns.SourceKeyed;
    hide ImportRuns.ImageFile;
    hide Journaled;
    hide Unmarked;
    hide Listed;
    var plan := Planned(m, src).value;
    var image := ImportRuns.ImageFile(src, plan);
    ImportRuns.SoundListed(m, AllUnmarked(files), sources, src);
    ImageUnmarked(src, plan);
    assert AllUnmarked(files[src.year := image]) == AllUnmarked(files)[src.year := image];
    PlannedYears(m, src);
    ListedOnly(plan.manifest, src.year);
  }

  lemma PlannedYears(m: Manifest, src: SourceYear)
    requires Planned(m, src).Ok?
    ensures Planned(m, src).value.manifest.years == m.years
  {
    hide WellFormed;
    hide Follows;
    hide Balanced;
    PlannedExact(m, src);
    hide Planned;
  }

  lemma ListedOnly(m: Manifest, year: int)
    ensures forall y :: y in Listed(m, year).years <==> y in m.years || y == year
  {
    hide Sort;
    InSorted(m.years + [year]);
  }

  lemma InSorted(xs: seq<int>)
    ensures forall y :: y in Sort(IntLess, xs) <==> y in xs
  {
    assert forall y :: y in Sort(IntLess, xs) <==> y in multiset(Sort(IntLess, xs));
    assert forall y :: y in xs <==> y in multiset(xs);
  }

  lemma ImportKeeps(faults: Faults, m: Manifest, d: Disk, src: SourceYear, sources: seq<SourceYear>)
    requires Kept(m, d.files, sources)
    requires d.manifest.Some? ==> Kept(d.manifest.value, d.files, sources)
    ensures
      var i := ImportOf(faults, m, d, src);
      && Kept(i.manifest, i.disk.files, sources + [src])
      && (i.disk.manifest.Some? ==> Kept(i.disk.manifest.value, i.disk.files, sources + [src]))
  {
    hide ImportOf;
    hide Planned;
    hide Kept;
    hide ImportRuns.SourceKeyed;
    hide ImportRuns.ImageFile;
    hide Listed;
    hide ImportRuns.Extends;
    var i := ImportOf(faults, m, d, src);
    ImportRuns.ImportLeaves(faults, m, d, src);
    KeptExtended(m, d.files, sources, i.disk.files, src.year, [src]);
    if d.manifest.Some? {
      KeptExtended(d.manifest.value, d.files, sources, i.disk.files, src.year, [src]);
    }
    if i.result.Ok? || i.disk.manifest != d.manifest {
      KeptListed(m, d.files, sources, src);
    }
  }

  // ----- runs

  lemma SetsStepKept(faults: Faults, w: World, action: ImportRuns.Action, sources: seq<SourceYear>)
    requires AllKept(w, sources)
    ensures AllKept(ImportRuns.Step(faults, w, action), sources + SourceOf(OnSets(action)))
  {
    hide ImportOf;
    hide Kept;
    assert sources + [] == sources;
    match action
    case Create(name) =>
      FreshKept(name, w.disk.files, sources);
    case Open =>
    case ImportInto(k, src) =>
      var next := ImportRuns.Step(faults, w, action);
      if k < |w.sets| {
        ImportKeeps(faults, w.sets[k], w.disk, src, sources);
        ImportRuns.ImportLeaves(faults, w.sets[k], w.disk, src);
      } else {
        assert ImportRuns.Extends(w.disk.files, w.disk.files, src.year);
      }
      forall m | Kept(m, w.disk.files, sources) ensures Kept(m, next.disk.files, sources + [src]) {
        KeptExtended(m, w.disk.files, sources, next.disk.files, src.year, [src]);
      }
  }

  lemma StepKept(faults: Faults, w: World, action: Action, sources: seq<SourceYear>)
    requires AllKept(w, sources)
    ensures AllKept(Step(faults, w, action), sources + SourceOf(action))
  {
    hide Kept;
    hide MarksOnly;
    hide CloseOf;
    hide ReopenOf;
    assert sources + [] == sources;
    match action
    case OnSets(a) =>
      SetsStepKept(faults, w, a, sources);
    case Close(year) =>
      CloseMarksOnly(faults, w.disk, year);
      MarkedKept(w, Step(faults, w, action), sources);
    case Reopen(year, reason) =>
      ReopenMarksOnly(faults, w.disk, year, reason);
      MarkedKept(w, Step(faults, w, action), sources);
  }

  lemma MarkedKept(w: World, next: World, sources: seq<SourceYear>)
    requires AllKept(w, sources) && MarksOnly(w.disk, next.disk) && next.sets == w.sets
    ensures AllKept(next, sources)
  {
    hide Kept;
    forall m | Kept(m, w.disk.files, sources) ensures Kept(m, next.disk.files, sources) {
      KeptMarked(m, w.disk, next.disk, sources);
    }
  }

  /** Whatever is created, opened, imported, closed and reopened, and whichever writes fail: the saved manifest and that
    * of every open set list only whole, balanced, correctly linked years with ids of their own, whose metadata is the
    * year's name and, once closed, a state and a journal as written. */
  lemma {:induction false} RunKept(faults: Faults, start: Disk, actions: seq<Action>)
    requires start.manifest.None?
    ensures AllKept(Run(faults, ImportRuns.World(start, []), actions), SourcesOf(actions))
  {
    hide Step;
    hide Kept;
    hide SourceOf;
    if actions != [] {
      var n := |actions| - 1;
      RunKept(faults, start, actions[..n]);
      StepKept(faults, Run(faults, ImportRuns.World(start, []), actions[..n]), actions[n], SourcesOf(actions[..n]));
    }
  }

  lemma SameMeta(f: YearFile)
    ensures ClosingRuns.Rows(Unmarked(f)) == ClosingRuns.Rows(f)
    ensures (YEAR_KEY in f.meta <==> YEAR_KEY in Unmarked(f).meta)
    ensures YEAR_KEY in f.meta ==> Unmarked(f).meta[YEAR_KEY] == f.meta[YEAR_KEY]
  {
  }

  /** A listed year opens under its own name, and its close state and journal can be read. */
  lemma ListedYearReads(m: Manifest, d: Disk, sources: seq<SourceYear>, year: int)
    requires Kept(m, d.files, sources) && year in m.years
    ensures OpenYear(d, year) == Ok(d.files[year])
    ensures CloseState(d, year).Ok? && CloseJournal(d, year).Ok?
  {
    hide ImportRuns.Sound;
    hide ClosingRuns.Recorded;
    hide Unmarked;
    hide ParseJournal;
    ImportRuns.ListedYearOpens(m, d.(files := AllUnmarked(d.files)), sources, year);
    SameMeta(d.files[year]);
    var state, history :| ClosingRuns.Recorded(d.files[year], state, history);
    ClosingRuns.TracksRead(d, year, state, history);
  }

  /** Closed and reopened or not, a listed year is never found unbalanced. */
  lemma ListedYearBalances(m: Manifest, files: map<int, YearFile>, sources: seq<SourceYear>, year: int)
    requires Kept(m, files, sources) && year in m.years
    ensures StatementsOf(files[year], year).Err? ==>
      && !StatementsOf(files[year], year).error.UnbalancedVoucher?
      && !StatementsOf(files[year], year).error.UnbalancedTrialBalance?
  {
    hide ImportRuns.Sound;
    hide Journaled;
    hide StatementsOf;
    hide Unmarked;
    hide ClosingRuns.Rows;
    ImportRuns.ListedYearBalances(m, AllUnmarked(files), sources, year);
    SameMeta(files[year]);
    ClosingRuns.StatementsOfRows(files[year], Unmarked(files[year]), year);
  }

  lemma StepRowsStay(faults: Faults, w: World, action: Action, year: int)
    requires year in w.disk.files
    ensures
      var files := Step(faults, w, action).disk.files;
      year in files && Unmarked(files[year]) == Unmarked(w.disk.files[year])
  {
    hide ImportOf;
    hide CloseOf;
    hide ReopenOf;
    hide Unmarked;
    match action
    case OnSets(a) =>
      if a.ImportInto? && a.index < |w.sets| {
        ImportRuns.ImportLeaves(faults, w.sets[a.index], w.disk, a.src);
      }
    case Close(y) =>
      CloseMarksOnly(faults, w.disk, y);
      SameUnmarked(w.disk.files, Step(faults, w, action).disk.files, year);
    case Reopen(y, reason) =>
      ReopenMarksOnly(faults, w.disk, y, reason);
      SameUnmarked(w.disk.files, Step(faults, w, action).disk.files, year);
  }

  lemma SameUnmarked(files: map<int, YearFile>, later: map<int, YearFile>, year: int)
    requires year in files && AllUnmarked(later) == AllUnmarked(files)
    ensures year in later && Unmarked(later[year]) == Unmarked(files[year])
  {
    hide Unmarked;
    assert year in AllUnmarked(files) && AllUnmarked(files)[year] == Unmarked(files[year]);
    assert year in AllUnmarked(later) && AllUnmarked(later)[year] == Unmarked(later[year]);
  }

  /** The rows of a year file, once there, never change again, and of its metadata only the entries of the close. */
  lemma {:induction false} RowsStay(faults: Faults, w: World, actions: seq<Action>, year: int)
    requires year in w.disk.files
    ensures year in Run(faults, w, actions).disk.files
    ensures Unmarked(Run(faults, w, actions).disk.files[year]) == Unmarked(w.disk.files[year])
  {
    hide Step;
    hide Unmarked;
    if actions != [] {
      var n := |actions| - 1;
      RowsStay(faults, w, actions[..n], year);
      StepRowsStay(faults, Run(faults, w, actions[..n]), actions[n], year);
    }
  }

  // ----- years spent by a failed import

  /** An import leaves a file of its year exactly when there was one, or it gets as far as the first write and that
    * takes effect. */
  lemma ImportMakesFile(faults: Faults, m: Manifest, d: Disk, src: SourceYear)
    ensures src.year in ImportOf(faults, m, d, src).disk.files <==>
      src.year in d.files || (Planned(m, src).Ok? && !faults(d.clock).Lost?)
  {
    hide Planned;
    hide PerformAll;
    if Planned(m, src).Ok? && src.year !in d.files {
      var plan := Planned(m, src).value;
      var created := CreateYear(faults, d, src.year);
      var first := Attempt(faults, d, d.(files := d.files[src.year := EMPTY_YEAR]));
      hide Attempt;
      hide Perform;
      if created.result.Ok? {
        var k := PerformAllLeaves(faults, created.disk, src.year, RowWrites(src.accounts, plan));
      }
    }
  }

  /** The year has a file, and no manifest lists it. */
  predicate Spent(w: World, year: int) {
    && year in w.disk.files
    && (w.disk.manifest.Some? ==> year !in w.disk.manifest.value.years)
    && forall k :: 0 <= k < |w.sets| ==> year !in w.sets[k].years
  }

  lemma StepSpent(faults: Faults, w: World, action: Action, year: int)
    requires Spent(w, year)
    ensures Spent(Step(faults, w, action), year)
  {
    hide ImportOf;
    hide CloseOf;
    hide ReopenOf;
    hide Listed;
    hide Planned;
    StepRowsStay(faults, w, action, year);
    hide Unmarked;
    match action
    case OnSets(a) =>
      if a.ImportInto? && a.index < |w.sets| {
        ImportRuns.ImportLeaves(faults, w.sets[a.index], w.disk, a.src);
        if Planned(w.sets[a.index], a.src).Ok? {
          PlannedYears(w.sets[a.index], a.src);
          ListedOnly(Planned(w.sets[a.index], a.src).value.manifest, a.src.year);
        }
      }
    case Close(y) =>
      CloseMarksOnly(faults, w.disk, y);
    case Reopen(y, reason) =>
      ReopenMarksOnly(faults, w.disk, y, reason);
  }

  /** A year that a failed import has left behind unlisted stays so whatever is done later, and no later import of it
    * succeeds, even with every write done. */
  lemma {:induction false} YearStaysSpent(faults: Faults, w: World, actions: seq<Action>, year: int)
    requires Spent(w, year)
    ensures Spent(Run(faults, w, actions), year)
    ensures forall later: Faults, m: Manifest, src: SourceYear :: src.year == year ==>
      ImportOf(later, m, Run(faults, w, actions).disk, src).result.Err?
  {
    hide Step;
    hide Spent;
    if actions != [] {
      var n := |actions| - 1;
      YearStaysSpent(faults, w, actions[..n], year);
      StepSpent(faults, Run(faults, w, actions[..n]), actions[n], year);
    }
    SpentHasFile(Run(faults, w, actions), year);
    forall later: Faults, m: Manifest, src: SourceYear | src.year == year
      ensures ImportOf(later, m, Run(faults, w, actions).disk, src).result.Err?
    {
      ImportRuns.ImportSucceeds(later, m, Run(faults, w, actions).disk, src);
    }
  }

  lemma SpentHasFile(w: World, year: int)
    requires Spent(w, year)
    ensures year in w.disk.files
  {
  }

  // ----- a torn import

  /** The third write is lost. */
  function ThirdLost(): Faults {
    (t: nat) => if t == 2 then Lost else Done
  }

  const BOOKS: Manifest := FreshManifest("books")

  function NoRows(year: i32): SourceYear {
    SourceYear(year, [], [], [], 1, 1)
  }

  lemma NoRowsPlanned(year: i32)
    ensures Planned(BOOKS, NoRows(year)).Ok?
  {
    PlannedExact(BOOKS, NoRows(year));
    assert Map(SourcePostingVoucher, NoRows(year).postings) == [];
    hide Planned;
    hide SourceBalanced;
  }

  /** The import of `year` into a new set, when the year's name is lost. */
  lemma TornImportLeaves(year: i32)
    ensures ImportOf(ThirdLost(), BOOKS, Disk(map[], Some(BOOKS), 1), NoRows(year)) ==
      Imported(Err(Store(Failed)), BOOKS, Disk(map[year as int := EMPTY_YEAR], Some(BOOKS), 3))
  {
    hide Planned;
    hide CreateYear;
    hide PerformAll;
    NoRowsPlanned(year);
    NameLost(year);
  }

  lemma NameLost(year: i32)
    ensures CreateYear(ThirdLost(), Disk(map[], Some(BOOKS), 1), year) ==
      Attempted(Err(Failed), Disk(map[year as int := EMPTY_YEAR], Some(BOOKS), 3))
  {
    var d: Disk := Disk(map[], Some(BOOKS), 1);
    var created := Disk(map[year as int := EMPTY_YEAR], Some(BOOKS), 2);
    assert d.files[year as int := EMPTY_YEAR] == created.files;
    assert Attempt(ThirdLost(), d, d.(files := created.files)) == Attempted(Ok(()), created);
    hide PrintInt;
  }

  lemma TornImportRefused(year: i32)
    ensures ImportOf(ThirdLost(), BOOKS, Disk(map[year as int := EMPTY_YEAR], Some(BOOKS), 3), NoRows(year)).result
         == Err(Store(AlreadyExists))
  {
    hide Planned;
    NoRowsPlanned(year);
  }

  lemma TwoSteps(faults: Faults, w: World, a: Action, b: Action)
    ensures Run(faults, w, [a, b]) == Step(faults, Step(faults, w, a), b)
  {
    hide Step;
    assert [a, b][..1] == [a] && [a][..0] == [];
    assert Run(faults, w, []) == w;
    assert Run(faults, w, [a]) == Step(faults, w, a);
  }

  /** One lost write spends a year: a first import whose second write is lost leaves the year's file unnamed and
    * unlisted, and although every later write is done, the second attempt finds the file. */
  lemma TornImport(year: i32)
    ensures
      var actions := [OnSets(ImportRuns.Create("books")), OnSets(ImportRuns.ImportInto(0, NoRows(year)))];
      var w := Run(ThirdLost(), ImportRuns.World(Disk(map[], None, 0), []), actions);
      && w == ImportRuns.World(Disk(map[year as int := EMPTY_YEAR], Some(BOOKS), 3), [BOOKS])
      && Spent(w, year)
      && ImportOf(ThirdLost(), BOOKS, w.disk, NoRows(year)).result == Err(Store(AlreadyExists))
  {
    hide ImportOf;
    hide Run;
    var start := ImportRuns.World(Disk(map[], None, 0), []);
    var a, b := OnSets(ImportRuns.Create("books")), OnSets(ImportRuns.ImportInto(0, NoRows(year)));
    TwoSteps(ThirdLost(), start, a, b);
    assert Step(ThirdLost(), start, a) == ImportRuns.World(Disk(map[], Some(BOOKS), 1), [BOOKS]);
    TornImportLeaves(year);
    TornImportRefused(year);
    assert [BOOKS][0 := BOOKS] == [BOOKS];
  }
}
