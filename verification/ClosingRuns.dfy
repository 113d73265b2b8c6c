/** Closed years are frozen and journaled, over any run of inserts, closes and reopens. */
module ClosingRuns {
  import opened Wrappers
  import opened Numbers
  import opened Sequences
  import opened Sorting
  import opened Text
  import opened Ledger
  import opened YearFiles
  import opened LedgerSets
  import opened Relations
  import opened TrialBalance
  import opened Statements
  import opened Journal
  import opened Closing

  // ----- runs on one year

  /** The writes of the guarded inserts and of `set_id_state`. */
  type RowWrite = w: Write | !w.SetMeta? witness SetIdState("", 0)

  datatype Action = Insert(write: RowWrite) | CloseYear | ReopenYear(reason: string)

  function InsertOf(faults: Faults, d: Disk, year: int, w: RowWrite): Attempted {
    match OpenYear(d, year)
    case Err(e) => Attempted(Err(e), d)
    case Ok(_) => Perform(faults, d, year, w)
  }

  function Step(faults: Faults, d: Disk, year: int, action: Action): Disk {
    match action
    case Insert(w) => InsertOf(faults, d, year, w).disk
    case CloseYear => CloseOf(faults, d, year).disk
    case ReopenYear(reason) => ReopenOf(faults, d, year, reason).disk
  }

  function Run(faults: Faults, d: Disk, year: int, actions: seq<Action>): Disk {
    if actions == [] then d
    else Step(faults, Run(faults, d, year, actions[..|actions| - 1]), year, actions[|actions| - 1])
  }

  // ----- effects

  /** What one call left in the file: the state it set and the entry it journaled. */
  datatype Effect = Effect(state: Option<ClosingState>, entry: Option<Entry>)

  const NOTHING := Effect(None, None)

  /** The state write took effect unless it was lost; the journal is written only behind a reported success. */
  function MarkEffect(faults: Faults, clock: nat, state: ClosingState, reason: string): Effect {
    match faults(clock)
    case Lost => NOTHING
    case Unreported => Effect(Some(state), None)
    case Done => Effect(Some(state), if faults(clock + 1).Lost? then None else Some(Entry(state, Flat(reason))))
  }

  /** The call gets as far as its writes: the year opens, and it can be stated or there is a reason. */
  predicate Passes(d: Disk, year: int, action: Action) {
    && OpenYear(d, year).Ok?
    && match action
       case Insert(_) => false
       case CloseYear => StatementsOf(d.files[year], year).Ok?
       case ReopenYear(reason) => Trim(reason) != ""
  }

  function Target(action: Action): ClosingState
    requires !action.Insert?
  {
    if action.CloseYear? then ClosingState.Closed else ClosingState.Open
  }

  function ReasonOf(action: Action): string
    requires !action.Insert?
  {
    if action.CloseYear? then CLOSE_REASON else Trim(action.reason)
  }

  function EffectOf(faults: Faults, d: Disk, year: int, action: Action): Effect {
    if Passes(d, year, action) then MarkEffect(faults, d.clock, Target(action), ReasonOf(action)) else NOTHING
  }

  function Effects(faults: Faults, d: Disk, year: int, actions: seq<Action>): (effects: seq<Effect>)
    ensures |effects| == |actions|
  {
    if actions == [] then [] else
    var n := |actions| - 1;
    Effects(faults, d, year, actions[..n]) + [EffectOf(faults, Run(faults, d, year, actions[..n]), year, actions[n])]
  }

  /** The entries journaled, oldest first. */
  function History(effects: seq<Effect>): seq<Entry> {
    if effects == [] then [] else
    var last := effects[|effects| - 1];
    History(effects[..|effects| - 1]) + if last.entry.Some? then [last.entry.value] else []
  }

  /** The state set last. */
  function StateAfter(effects: seq<Effect>): Option<ClosingState> {
    if effects == [] then None else
    var last := effects[|effects| - 1];
    if last.state.Some? then last.state else StateAfter(effects[..|effects| - 1])
  }

  function OrOpen(state: Option<ClosingState>): ClosingState {
    if state.Some? then state.value else ClosingState.Open
  }

  /** The state of the last entry; open if there is none. */
  function JournaledState(history: seq<Entry>): ClosingState {
    if history == [] then ClosingState.Open else history[|history| - 1].state
  }

  // ----- the file records the effects

  ghost predicate Recorded(f: YearFile, state: Option<ClosingState>, history: seq<Entry>) {
    && AllClean(history)
    && MetaValue(f, JOURNAL_KEY) == (if history == [] then None else Some(TextOf(history)))
    && MetaValue(f, STATE_KEY) == (if state.None? then None else Some(StateText(state.value)))
  }

  /** A metadata write of `key`, applied or not, leaves all other metadata and all rows. */
  lemma MetaWritten(faults: Faults, d: Disk, year: int, key: string, value: string)
    requires year in d.files
    ensures
      var a := Perform(faults, d, year, SetMeta(key, value));
      && a.disk.clock == d.clock + 1
      && (a.result.Ok? <==> faults(d.clock).Done?)
      && a.disk.files == (
           if faults(d.clock).Lost? then d.files
           else d.files[year := d.files[year].(meta := d.files[year].meta[key := value])])
  {
  }

  /** What the two writes of a close or reopen leave, by the fate of each. */
  lemma MarkFile(faults: Faults, d: Disk, year: int, state: ClosingState, reason: string)
    requires year in d.files
    ensures
      var f := d.files[year];
      var effect := MarkEffect(faults, d.clock, state, reason);
      var stated := if effect.state.None? then f else f.(meta := f.meta[STATE_KEY := StateText(state)]);
      var journaled := if effect.entry.None? then stated
        else stated.(meta := stated.meta[JOURNAL_KEY := AppendedText(JournalText(f), state, reason)]);
      Mark(faults, d, year, state, reason).disk.files == d.files[year := journaled]
  {
    hide Perform;
    hide AppendedText;
    var a := Perform(faults, d, year, StateWrite(state));
    MetaWritten(faults, d, year, STATE_KEY, StateText(state));
    assert d.files[year := d.files[year]] == d.files;
    if a.result.Ok? {
      var f := a.disk.files[year];
      assert JournalText(f) == JournalText(d.files[year]);
      MetaWritten(faults, a.disk, year, JOURNAL_KEY, AppendedText(JournalText(f), state, reason));
    }
  }

  lemma MarkRecorded(f: YearFile, state: Option<ClosingState>, history: seq<Entry>, next: ClosingState, reason: string)
    requires Recorded(f, state, history) && reason != "" && Trimmed(reason)
    ensures
      var stated := f.(meta := f.meta[STATE_KEY := StateText(next)]);
      && Recorded(stated, Some(next), history)
      && Recorded(stated.(meta := stated.meta[JOURNAL_KEY := AppendedText(JournalText(f), next, reason)]),
                  Some(next), history + [Entry(next, Flat(reason))])
  {
    hide AppendedText;
    hide TextOf;
    FlatClean(next, reason);
    EmptyText();
    AppendedHistory(history, next, reason);
  }

  lemma EmptyText()
    ensures TextOf([]) == ""
  {
  }

  /** The year's name in its metadata. */
  ghost predicate Named(d: Disk, year: int) {
    OpenYear(d, year).Ok?
  }

  lemma StillNamed(d: Disk, later: Disk, year: int)
    requires Named(d, year) && year in later.files
    requires MetaValue(later.files[year], YEAR_KEY) == MetaValue(d.files[year], YEAR_KEY)
    ensures Named(later, year)
  {
  }

  ghost predicate Tracks(d: Disk, year: int, state: Option<ClosingState>, history: seq<Entry>) {
    Named(d, year) && Recorded(d.files[year], state, history)
  }

  lemma MarkTracks(faults: Faults, d: Disk, year: int, next: ClosingState, reason: string,
                   state: Option<ClosingState>, history: seq<Entry>)
    requires Tracks(d, year, state, history) && reason != "" && Trimmed(reason)
    ensures
      var effect := MarkEffect(faults, d.clock, next, reason);
      Tracks(Mark(faults, d, year, next, reason).disk, year,
             if effect.state.Some? then effect.state else state,
             history + if effect.entry.Some? then [effect.entry.value] else [])
  {
    hide Mark;
    hide Recorded;
    hide AppendedText;
    hide Flat;
    MarkFile(faults, d, year, next, reason);
    MarkRecorded(d.files[year], state, history, next, reason);
    StillNamed(d, Mark(faults, d, year, next, reason).disk, year);
    assert history + [] == history;
  }

  lemma InsertKeepsMeta(faults: Faults, d: Disk, year: int, w: RowWrite)
    requires year in d.files
    ensures year in Perform(faults, d, year, w).disk.files
    ensures Perform(faults, d, year, w).disk.files[year].meta == d.files[year].meta
  {
  }

  lemma StepTracks(faults: Faults, d: Disk, year: int, action: Action, state: Option<ClosingState>, history: seq<Entry>)
    requires Tracks(d, year, state, history)
    ensures
      var effect := EffectOf(faults, d, year, action);
      Tracks(Step(faults, d, year, action), year,
             if effect.state.Some? then effect.state else state,
             history + if effect.entry.Some? then [effect.entry.value] else [])
  {
    hide Mark;
    hide Perform;
    hide MarkEffect;
    hide StatementsOf;
    assert history + [] == history;
    match action
    case Insert(w) =>
      InsertKeepsMeta(faults, d, year, w);
    case CloseYear =>
      if StatementsOf(d.files[year], year).Ok? {
        MarkTracks(faults, d, year, ClosingState.Closed, CLOSE_REASON, state, history);
      }
    case ReopenYear(reason) =>
      if Trim(reason) != "" {
        TrimmedTrim(reason);
        MarkTracks(faults, d, year, ClosingState.Open, Trim(reason), state, history);
      }
  }

  lemma {:induction false} RunTracks(faults: Faults, d: Disk, year: int, actions: seq<Action>)
    requires Tracks(d, year, None, [])
    ensures
      var effects := Effects(faults, d, year, actions);
      Tracks(Run(faults, d, year, actions), year, StateAfter(effects), History(effects))
  {
    hide Step;
    hide Tracks;
    hide EffectOf;
    if actions != [] {
      var n := |actions| - 1;
      RunTracks(faults, d, year, actions[..n]);
      var before := Effects(faults, d, year, actions[..n]);
      var last := EffectOf(faults, Run(faults, d, year, actions[..n]), year, actions[n]);
      StepTracks(faults, Run(faults, d, year, actions[..n]), year, actions[n], StateAfter(before), History(before));
      assert (before + [last])[..n] == before;
    }
  }

  /** Over any run, with any write failing: the journal reads back as the entries journaled, and the close state is
    * the state set last. */
  lemma RunJournaled(faults: Faults, d: Disk, year: int, actions: seq<Action>)
    requires Tracks(d, year, None, [])
    ensures
      var effects := Effects(faults, d, year, actions);
      var after := Run(faults, d, year, actions);
      && CloseJournal(after, year) == Ok(History(effects))
      && CloseState(after, year) == Ok(OrOpen(StateAfter(effects)))
  {
    hide Run;
    hide Effects;
    hide TextOf;
    hide ParseJournal;
    var effects := Effects(faults, d, year, actions);
    RunTracks(faults, d, year, actions);
    ParseText(History(effects));
  }

  // ----- success and the journal

  /** The entry that a successful close or reopen stands for. */
  function SuccessEntry(faults: Faults, d: Disk, year: int, action: Action): Option<Entry> {
    match action
    case Insert(_) => None
    case CloseYear =>
      if CloseOf(faults, d, year).result.Ok? then Some(Entry(ClosingState.Closed, Flat(CLOSE_REASON))) else None
    case ReopenYear(reason) =>
      if ReopenOf(faults, d, year, reason).result.Ok? then Some(Entry(ClosingState.Open, Flat(Trim(reason)))) else None
  }

  /** The entries of the calls that reported success. */
  function Successes(faults: Faults, d: Disk, year: int, actions: seq<Action>): seq<Entry> {
    if actions == [] then [] else
    var n := |actions| - 1;
    var last := SuccessEntry(faults, Run(faults, d, year, actions[..n]), year, actions[n]);
    Successes(faults, d, year, actions[..n]) + if last.Some? then [last.value] else []
  }

  lemma MarkSucceeds(faults: Faults, d: Disk, year: int, state: ClosingState, reason: string)
    requires year in d.files
    ensures Mark(faults, d, year, state, reason).result.Ok? <==> faults(d.clock).Done? && faults(d.clock + 1).Done?
  {
    hide Perform;
    MetaWritten(faults, d, year, STATE_KEY, StateText(state));
    var a := Perform(faults, d, year, StateWrite(state));
    if a.result.Ok? {
      MetaWritten(faults, a.disk, year, JOURNAL_KEY, AppendedText(JournalText(a.disk.files[year]), state, reason));
    }
  }

  lemma JournalReadable(d: Disk, year: int, state: Option<ClosingState>, history: seq<Entry>)
    requires Tracks(d, year, state, history)
    ensures CloseJournal(d, year).Ok?
  {
    hide ParseJournal;
    hide TextOf;
    ParseText(history);
  }

  /** The text with a blank for every line break and tab. */
  predicate Spaced(r: string, s: string) {
    |r| == |s| && forall i :: 0 <= i < |s| ==> r[i] == if s[i] == '\n' || s[i] == '\t' then ' ' else s[i]
  }

  /** A reopen that succeeds returns the journal with one entry more: open, for the trimmed reason on one line. */
  lemma ReopenReturns(faults: Faults, d: Disk, year: int, reason: string, state: Option<ClosingState>,
                      history: seq<Entry>)
    requires Tracks(d, year, state, history) && ReopenOf(faults, d, year, reason).result.Ok?
    ensures
      var journal := ReopenOf(faults, d, year, reason).result.value;
      && |journal| == |history| + 1 && journal[..|history|] == history
      && journal[|history|].state == ClosingState.Open && Spaced(journal[|history|].reason, Trim(reason))
  {
    hide Mark;
    hide CloseJournal;
    hide CloseState;
    hide Recorded;
    hide Trim;
    ReopenSucceeds(faults, d, year, reason, state, history);
    StepTracks(faults, d, year, ReopenYear(reason), state, history);
    var effect := EffectOf(faults, d, year, ReopenYear(reason));
    TracksRead(Step(faults, d, year, ReopenYear(reason)), year, effect.state, history + [effect.entry.value]);
  }

  /** The call journals an entry and yet reports an error. */
  predicate Unheard(faults: Faults, d: Disk, year: int, action: Action) {
    Passes(d, year, action) && faults(d.clock).Done? && faults(d.clock + 1).Unreported?
  }

  lemma ReopenSucceeds(faults: Faults, d: Disk, year: int, reason: string, state: Option<ClosingState>,
                       history: seq<Entry>)
    requires Tracks(d, year, state, history) && Trim(reason) != ""
    ensures ReopenOf(faults, d, year, reason).result.Ok? <==> faults(d.clock).Done? && faults(d.clock + 1).Done?
  {
    hide Mark;
    hide CloseJournal;
    hide Flat;
    hide Recorded;
    MarkSucceeds(faults, d, year, ClosingState.Open, Trim(reason));
    StepTracks(faults, d, year, ReopenYear(reason), state, history);
    var effect := EffectOf(faults, d, year, ReopenYear(reason));
    JournalReadable(
      Step(faults, d, year, ReopenYear(reason)), year,
      if effect.state.Some? then effect.state else state,
      history + if effect.entry.Some? then [effect.entry.value] else []);
  }

  /** A reported success is journaled; the call journals nothing else unless its journal write goes unreported. */
  lemma SuccessJournaled(faults: Faults, d: Disk, year: int, action: Action, state: Option<ClosingState>,
                         history: seq<Entry>)
    requires Tracks(d, year, state, history)
    ensures
      var effect, success := EffectOf(faults, d, year, action), SuccessEntry(faults, d, year, action);
      && (success.Some? ==> effect.entry == success)
      && (effect.entry == success <==> !Unheard(faults, d, year, action))
  {
    hide StatementsOf;
    hide Mark;
    hide Flat;
    hide CloseJournal;
    hide Recorded;
    match action
    case Insert(_) =>
    case CloseYear =>
      MarkSucceeds(faults, d, year, ClosingState.Closed, CLOSE_REASON);
    case ReopenYear(reason) =>
      if Trim(reason) != "" {
        ReopenSucceeds(faults, d, year, reason, state, history);
        hide ReopenOf;
      }
  }

  lemma {:induction false} SuccessesCount(faults: Faults, d: Disk, year: int, actions: seq<Action>)
    requires Tracks(d, year, None, [])
    ensures
      var history, successes := History(Effects(faults, d, year, actions)), Successes(faults, d, year, actions);
      var heard := forall k :: 0 <= k < |actions| ==>
        !Unheard(faults, Run(faults, d, year, actions[..k]), year, actions[k]);
      && |successes| <= |history|
      && (heard ==> history == successes)
      && (!heard ==> |successes| < |history|)
  {
    hide Tracks;
    hide EffectOf;
    hide SuccessEntry;
    hide Unheard;
    hide Run;
    if actions != [] {
      var n := |actions| - 1;
      SuccessesCount(faults, d, year, actions[..n]);
      RunTracks(faults, d, year, actions[..n]);
      var before := Effects(faults, d, year, actions[..n]);
      SuccessJournaled(
        faults, Run(faults, d, year, actions[..n]), year, actions[n], StateAfter(before), History(before));
      assert Effects(faults, d, year, actions)[..n] == before;
      assert forall k :: 0 <= k < n ==> actions[..n][..k] == actions[..k] && actions[..n][k] == actions[k];
    }
  }

  /** The journal is the history of the calls that reported success exactly when no journal write went unreported. */
  lemma JournalOfSuccesses(faults: Faults, d: Disk, year: int, actions: seq<Action>)
    requires Tracks(d, year, None, [])
    ensures CloseJournal(Run(faults, d, year, actions), year) == Ok(Successes(faults, d, year, actions))
      <==> forall k :: 0 <= k < |actions| ==> !Unheard(faults, Run(faults, d, year, actions[..k]), year, actions[k])
  {
    hide Tracks;
    hide Unheard;
    hide CloseJournal;
    hide Run;
    RunJournaled(faults, d, year, actions);
    SuccessesCount(faults, d, year, actions);
  }

  // ----- state and journal

  /** The close state is that of the last journal entry, or open if there is none. */
  predicate Agrees(d: Disk, year: int) {
    var journal := CloseJournal(d, year);
    journal.Ok? && CloseState(d, year) == Ok(JournaledState(journal.value))
  }

  /** The state write takes effect and the journal write does not. */
  predicate Tears(faults: Faults, clock: nat) {
    faults(clock).Unreported? || (faults(clock).Done? && faults(clock + 1).Lost?)
  }

  /** The call's state write stands alone, and changes the state. */
  predicate Diverges(faults: Faults, d: Disk, year: int, action: Action) {
    Passes(d, year, action) && Tears(faults, d.clock) && CloseState(d, year) != Ok(Target(action))
  }

  lemma TracksRead(d: Disk, year: int, state: Option<ClosingState>, history: seq<Entry>)
    requires Tracks(d, year, state, history)
    ensures CloseState(d, year) == Ok(OrOpen(state)) && CloseJournal(d, year) == Ok(history)
  {
    hide ParseJournal;
    hide TextOf;
    ParseText(history);
    assert TextOf([]) == "" by { EmptyText(); }
  }

  /** State and journal that agree before a call agree after it exactly when the call does not diverge. */
  lemma StepAgrees(faults: Faults, d: Disk, year: int, action: Action, state: Option<ClosingState>, history: seq<Entry>)
    requires Tracks(d, year, state, history) && Agrees(d, year)
    ensures Agrees(Step(faults, d, year, action), year) <==> !Diverges(faults, d, year, action)
  {
    hide Tracks;
    hide Step;
    hide CloseState;
    hide CloseJournal;
    hide Passes;
    var effect := EffectOf(faults, d, year, action);
    StepTracks(faults, d, year, action, state, history);
    TracksRead(d, year, state, history);
    TracksRead(Step(faults, d, year, action), year,
               if effect.state.Some? then effect.state else state,
               history + if effect.entry.Some? then [effect.entry.value] else []);
  }

  /** A call with both writes in effect makes them agree, whatever was before. */
  lemma MarkedAgrees(faults: Faults, d: Disk, year: int, action: Action, state: Option<ClosingState>,
                     history: seq<Entry>)
    requires Tracks(d, year, state, history) && Passes(d, year, action)
    requires faults(d.clock).Done? && !faults(d.clock + 1).Lost?
    ensures Agrees(Step(faults, d, year, action), year)
  {
    hide Tracks;
    hide Step;
    hide CloseState;
    hide CloseJournal;
    hide Passes;
    var effect := EffectOf(faults, d, year, action);
    StepTracks(faults, d, year, action, state, history);
    TracksRead(Step(faults, d, year, action), year, effect.state, history + [effect.entry.value]);
  }

  lemma {:induction false} AgreesUntil(faults: Faults, d: Disk, year: int, actions: seq<Action>, n: nat)
    requires Tracks(d, year, None, []) && n <= |actions|
    requires forall k :: 0 <= k < n ==> !Diverges(faults, Run(faults, d, year, actions[..k]), year, actions[k])
    ensures Agrees(Run(faults, d, year, actions[..n]), year)
  {
    hide Tracks;
    hide Diverges;
    hide Agrees;
    if n == 0 {
      StartAgrees(d, year);
    } else {
      AgreesUntil(faults, d, year, actions, n - 1);
      PrefixAgrees(faults, d, year, actions, n - 1);
    }
  }

  lemma StartAgrees(d: Disk, year: int)
    requires Tracks(d, year, None, [])
    ensures Agrees(d, year)
  {
    hide Tracks;
    TracksRead(d, year, None, []);
  }

  lemma PrefixAgrees(faults: Faults, d: Disk, year: int, actions: seq<Action>, k: nat)
    requires Tracks(d, year, None, []) && k < |actions| && Agrees(Run(faults, d, year, actions[..k]), year)
    ensures Agrees(Run(faults, d, year, actions[..k + 1]), year)
       <==> !Diverges(faults, Run(faults, d, year, actions[..k]), year, actions[k])
  {
    hide Tracks;
    hide Diverges;
    hide Agrees;
    hide Step;
    assert actions[..k + 1][..k] == actions[..k];
    var before := Effects(faults, d, year, actions[..k]);
    RunTracks(faults, d, year, actions[..k]);
    StepAgrees(faults, Run(faults, d, year, actions[..k]), year, actions[k], StateAfter(before), History(before));
  }

  /** State and journal agree all along a run exactly when none of its calls diverges. */
  lemma RunAgrees(faults: Faults, d: Disk, year: int, actions: seq<Action>)
    requires Tracks(d, year, None, [])
    ensures (forall k :: 0 <= k <= |actions| ==> Agrees(Run(faults, d, year, actions[..k]), year))
       <==> forall k :: 0 <= k < |actions| ==> !Diverges(faults, Run(faults, d, year, actions[..k]), year, actions[k])
  {
    hide Tracks;
    hide Diverges;
    hide Agrees;
    hide Run;
    if forall k :: 0 <= k < |actions| ==> !Diverges(faults, Run(faults, d, year, actions[..k]), year, actions[k]) {
      forall k | 0 <= k <= |actions| ensures Agrees(Run(faults, d, year, actions[..k]), year) {
        AgreesUntil(faults, d, year, actions, k);
      }
    } else {
      var k :| 0 <= k < |actions| && Diverges(faults, Run(faults, d, year, actions[..k]), year, actions[k]);
      if Agrees(Run(faults, d, year, actions[..k]), year) {
        PrefixAgrees(faults, d, year, actions, k);
      }
    }
  }

  // ----- state and journal at the end of a run

  /** The call sets the state, whether or not it journals it. */
  predicate Sets(faults: Faults, d: Disk, year: int, action: Action) {
    Passes(d, year, action) && !faults(d.clock).Lost?
  }

  /** The call's state write stands alone, and the last journal entry has another state. */
  predicate Strays(faults: Faults, d: Disk, year: int, action: Action) {
    && Passes(d, year, action) && Tears(faults, d.clock)
    && CloseJournal(d, year).Ok? && JournaledState(CloseJournal(d, year).value) != Target(action)
  }

  /** A call that sets the state decides agreement by itself; any other leaves it as it was. */
  lemma StepSettles(faults: Faults, d: Disk, year: int, action: Action, state: Option<ClosingState>,
                    history: seq<Entry>)
    requires Tracks(d, year, state, history)
    ensures Agrees(Step(faults, d, year, action), year) <==>
      if Sets(faults, d, year, action) then !Strays(faults, d, year, action) else Agrees(d, year)
  {
    hide Tracks;
    hide Step;
    hide CloseState;
    hide CloseJournal;
    hide Passes;
    var effect := EffectOf(faults, d, year, action);
    StepTracks(faults, d, year, action, state, history);
    TracksRead(d, year, state, history);
    TracksRead(Step(faults, d, year, action), year,
               if effect.state.Some? then effect.state else state,
               history + if effect.entry.Some? then [effect.entry.value] else []);
  }

  /** Call `k` is the last of the run that sets the state. */
  ghost predicate SetsLast(faults: Faults, d: Disk, year: int, actions: seq<Action>, k: nat) {
    && k < |actions| && Sets(faults, Run(faults, d, year, actions[..k]), year, actions[k])
    && forall j :: k < j < |actions| ==> !Sets(faults, Run(faults, d, year, actions[..j]), year, actions[j])
  }

  lemma SetsLastPrefix(faults: Faults, d: Disk, year: int, actions: seq<Action>, k: nat)
    requires actions != []
    ensures
      var n := |actions| - 1;
      SetsLast(faults, d, year, actions, k) <==>
        if Sets(faults, Run(faults, d, year, actions[..n]), year, actions[n]) then k == n
        else SetsLast(faults, d, year, actions[..n], k)
  {
    hide Run;
    hide Sets;
    var n := |actions| - 1;
    assert forall j :: 0 <= j < n ==> actions[..n][..j] == actions[..j] && actions[..n][j] == actions[j];
  }

  /** The last call of the run that sets the state, if any does, does not stray. */
  ghost predicate EndsHealed(faults: Faults, d: Disk, year: int, actions: seq<Action>) {
    forall k: nat :: SetsLast(faults, d, year, actions, k) ==>
      !Strays(faults, Run(faults, d, year, actions[..k]), year, actions[k])
  }

  lemma EndsHealedPrefix(faults: Faults, d: Disk, year: int, actions: seq<Action>)
    requires actions != []
    ensures
      var n := |actions| - 1;
      var last := Run(faults, d, year, actions[..n]);
      EndsHealed(faults, d, year, actions) <==>
        if Sets(faults, last, year, actions[n]) then !Strays(faults, last, year, actions[n])
        else EndsHealed(faults, d, year, actions[..n])
  {
    hide Run;
    hide Sets;
    hide Strays;
    hide SetsLast;
    var n := |actions| - 1;
    forall k: nat ensures SetsLast(faults, d, year, actions, k) <==>
      if Sets(faults, Run(faults, d, year, actions[..n]), year, actions[n]) then k == n
      else SetsLast(faults, d, year, actions[..n], k)
    {
      SetsLastPrefix(faults, d, year, actions, k);
    }
    forall k: nat | SetsLast(faults, d, year, actions[..n], k)
      ensures k < n && actions[..n][..k] == actions[..k] && actions[..n][k] == actions[k]
    {
      SetsLastWithin(faults, d, year, actions[..n], k);
    }
  }

  lemma SetsLastWithin(faults: Faults, d: Disk, year: int, actions: seq<Action>, k: nat)
    requires SetsLast(faults, d, year, actions, k)
    ensures k < |actions|
  {
  }

  /** At the end of a run state and journal agree exactly when the last call that set the state, if any did, did not
    * stray: whatever was torn before it is healed. */
  lemma {:induction false} RunEndAgrees(faults: Faults, d: Disk, year: int, actions: seq<Action>)
    requires Tracks(d, year, None, [])
    ensures Agrees(Run(faults, d, year, actions), year) <==>
      forall k: nat :: SetsLast(faults, d, year, actions, k) ==>
        !Strays(faults, Run(faults, d, year, actions[..k]), year, actions[k])
  {
    hide Tracks;
    hide Agrees;
    hide Sets;
    hide Strays;
    hide Step;
    if actions == [] {
      StartAgrees(d, year);
    } else {
      var n := |actions| - 1;
      var init, before := actions[..n], Effects(faults, d, year, actions[..n]);
      RunEndAgrees(faults, d, year, init);
      assert EndsHealed(faults, d, year, init) <==> Agrees(Run(faults, d, year, init), year);
      RunTracks(faults, d, year, init);
      StepSettles(faults, Run(faults, d, year, init), year, actions[n], StateAfter(before), History(before));
      EndsHealedPrefix(faults, d, year, actions);
      assert EndsHealed(faults, d, year, actions) <==> Agrees(Run(faults, d, year, actions), year);
    }
  }

  // ----- what a failed call reports

  /** What a call reports that does not get as far as its writes, and that it leaves everything as it was. */
  lemma RefusedCalls(faults: Faults, d: Disk, year: int, reason: string)
    ensures OpenYear(d, year).Err? ==>
      CloseOf(faults, d, year) == Call(Err(StoreFailed(OpenYear(d, year).error)), d)
    ensures OpenYear(d, year).Ok? && StatementsOf(d.files[year], year).Err? ==>
      CloseOf(faults, d, year) == Call(Err(StatementsOf(d.files[year], year).error), d)
    ensures AllWhite(reason) ==> ReopenOf(faults, d, year, reason) == Call(Err(InvalidState), d)
    ensures !AllWhite(reason) && OpenYear(d, year).Err? ==>
      ReopenOf(faults, d, year, reason) == Call(Err(StoreFailed(OpenYear(d, year).error)), d)
  {
    hide Mark;
    hide StatementsOf;
    hide AllWhite;
    hide Trim;
    TrimEmpty(reason);
  }

  /** A call that passes its checks reports a storage failure exactly when one of its writes is not reported done. */
  lemma FailedWrites(faults: Faults, d: Disk, year: int, action: Action)
    requires Passes(d, year, action) && !(faults(d.clock).Done? && faults(d.clock + 1).Done?)
    ensures action.CloseYear? ==> CloseOf(faults, d, year).result == Err(StoreFailed(Failed))
    ensures action.ReopenYear? ==> ReopenOf(faults, d, year, action.reason).result == Err(StoreFailed(Failed))
  {
    hide Mark;
    hide StatementsOf;
    hide Trim;
    MarkFails(faults, d, year, Target(action), ReasonOf(action));
  }

  lemma MarkFails(faults: Faults, d: Disk, year: int, state: ClosingState, reason: string)
    requires year in d.files && !(faults(d.clock).Done? && faults(d.clock + 1).Done?)
    ensures Mark(faults, d, year, state, reason).result == Err(Failed)
  {
    hide AppendedText;
  }

  // ----- closed years are frozen

  /** The year's content without its metadata. */
  function Rows(f: YearFile): YearFile {
    f.(meta := map[])
  }

  lemma SameTrialBalance(f: YearFile, g: YearFile)
    requires f.accounts == g.accounts && f.postings == g.postings
    ensures TrialBalanceData(f) == TrialBalanceData(g)
  {
    hide LeftJoin;
    hide TrialRowOf;
    hide Distinct;
    hide Sort;
    hide Filter;
    assert Joined(f) == Joined(g);
    assert Grouped(f) == Grouped(g);
  }

  lemma SameBalanceCheck(f: YearFile, g: YearFile)
    requires f.vouchers == g.vouchers && f.postings == g.postings
    ensures EnsureVouchersBalanced(f) == EnsureVouchersBalanced(g)
  {
    hide Violations;
    hide Sort;
    assert StoreViolations(f) == StoreViolations(g);
  }

  /** The statements depend on the rows only. */
  lemma StatementsOfRows(f: YearFile, g: YearFile, year: int)
    requires Rows(f) == Rows(g)
    ensures StatementsOf(f, year) == StatementsOf(g, year)
  {
    hide EnsureVouchersBalanced;
    hide TrialBalanceData;
    hide Table;
    hide SumOf;
    assert Rows(f).accounts == f.accounts && Rows(f).vouchers == f.vouchers && Rows(f).postings == f.postings;
    assert Rows(g).accounts == g.accounts && Rows(g).vouchers == g.vouchers && Rows(g).postings == g.postings;
    SameTrialBalance(f, g);
    SameBalanceCheck(f, g);
    assert TrialBalanceOf(f, year) == TrialBalanceOf(g, year);
  }

  /** Only the one year's file changes, and closing or reopening changes its metadata alone. */
  lemma MarkKeepsRows(faults: Faults, d: Disk, year: int, state: ClosingState, reason: string)
    requires year in d.files
    ensures
      var later := Mark(faults, d, year, state, reason).disk;
      && year in later.files
      && Rows(later.files[year]) == Rows(d.files[year])
      && (IsClosed(later.files[year]) <==>
            if faults(d.clock).Lost? then IsClosed(d.files[year]) else state.Closed?)
      && forall y :: y != year ==>
        (y in later.files <==> y in d.files) && (y in d.files ==> later.files[y] == d.files[y])
  {
    hide Mark;
    hide AppendedText;
    MarkFile(faults, d, year, state, reason);
  }

  /** A closed year keeps its rows, and stays closed unless the call sets it open. */
  lemma StepFrozen(faults: Faults, d: Disk, year: int, action: Action)
    requires year in d.files && IsClosed(d.files[year])
    ensures
      var later := Step(faults, d, year, action);
      && year in later.files && Rows(later.files[year]) == Rows(d.files[year])
      && (IsClosed(later.files[year]) <==> EffectOf(faults, d, year, action).state != Some(ClosingState.Open))
  {
    hide Mark;
    hide StatementsOf;
    hide IsClosed;
    match action
    case Insert(w) =>
      assert Apply(d.files[year], w) == Err(YearFiles.Closed);
    case CloseYear =>
      MarkKeepsRows(faults, d, year, ClosingState.Closed, CLOSE_REASON);
    case ReopenYear(reason) =>
      MarkKeepsRows(faults, d, year, ClosingState.Open, Trim(reason));
  }

  /** Until a call sets it open, a closed year stays closed, and neither its rows nor its statements change. */
  lemma {:induction false} RunFrozen(faults: Faults, d: Disk, year: int, actions: seq<Action>)
    requires year in d.files && IsClosed(d.files[year])
    requires forall e :: e in Effects(faults, d, year, actions) ==> e.state != Some(ClosingState.Open)
    ensures
      var later := Run(faults, d, year, actions);
      && year in later.files && IsClosed(later.files[year])
      && Rows(later.files[year]) == Rows(d.files[year])
      && StatementsOf(later.files[year], year) == StatementsOf(d.files[year], year)
  {
    hide Step;
    hide IsClosed;
    hide StatementsOf;
    hide Rows;
    hide EffectOf;
    if actions != [] {
      var n := |actions| - 1;
      var effects := Effects(faults, d, year, actions);
      assert effects[..n] == Effects(faults, d, year, actions[..n]);
      assert forall e :: e in effects[..n] ==> e in effects;
      assert effects[n] in effects;
      RunFrozen(faults, d, year, actions[..n]);
      StepFrozen(faults, Run(faults, d, year, actions[..n]), year, actions[n]);
    }
    StatementsOfRows(Run(faults, d, year, actions).files[year], d.files[year], year);
  }

  /** A close that reports success leaves the year closed, with the statements it returned. */
  lemma CloseCloses(faults: Faults, d: Disk, year: int)
    ensures CloseOf(faults, d, year).result.Ok? ==>
      var later := CloseOf(faults, d, year).disk;
      && year in later.files && IsClosed(later.files[year])
      && StatementsOf(later.files[year], year) == CloseOf(faults, d, year).result
  {
    hide Mark;
    hide StatementsOf;
    hide AppendedText;
    if CloseOf(faults, d, year).result.Err? {
      return;
    }
    MarkKeepsRows(faults, d, year, ClosingState.Closed, CLOSE_REASON);
    MarkSucceeds(faults, d, year, ClosingState.Closed, CLOSE_REASON);
    MarkFile(faults, d, year, ClosingState.Closed, CLOSE_REASON);
    StatementsOfRows(CloseOf(faults, d, year).disk.files[year], d.files[year], year);
  }

  // ----- a torn close, and an unheard one

  /** The second write is lost. */
  function SecondLost(): Faults {
    (t: nat) => if t == 1 then Lost else Done
  }

  /** The second write takes effect, and is reported as failed. */
  function SecondUnreported(): Faults {
    (t: nat) => if t == 1 then Unreported else Done
  }

  lemma EmptyYearCloses(year: i32)
    ensures StatementsOf(NamedYear(year), year).Ok?
  {
    var f := NamedYear(year);
    VouchersBalancedExact(f);
    TrialBalanceExact(f);
    var rows := TrialBalanceData(f).value;
    assert Map(RowFor(f.postings), f.accounts) == [];
    assert |multiset(rows)| == 0;
    assert Map(OfYear(year), rows) == [];
    EmptyTable(true);
    EmptyTable(false);
  }

  lemma EmptyTable(income: bool)
    ensures Table([], income) == Ok([])
  {
    assert ShownRows([], income) == [];
    assert Map(Label, []) == [];
  }

  function OneEmptyYear(year: i32): Disk {
    Disk(map[year as int := NamedYear(year)], None, 0)
  }

  lemma EmptyYearTracks(year: i32)
    ensures Tracks(OneEmptyYear(year), year, None, [])
  {
    assert IsI32(year) && IsI64(year);
    ParsePrintInt(year);
  }

  lemma TornEffect(year: i32)
    ensures EffectOf(SecondLost(), OneEmptyYear(year), year, CloseYear) == Effect(Some(ClosingState.Closed), None)
  {
    hide StatementsOf;
    EmptyYearCloses(year);
    EmptyYearTracks(year);
  }

  lemma OneStep(faults: Faults, d: Disk, year: int, action: Action)
    ensures Effects(faults, d, year, [action]) == [EffectOf(faults, d, year, action)]
  {
    hide EffectOf;
    assert [action][..0] == [];
    assert Effects(faults, d, year, []) == [] && Run(faults, d, year, []) == d;
  }

  /** The state can run ahead of the journal: a close whose journal write is lost closes the year unjournaled. */
  lemma TornClose(year: i32)
    ensures
      var d := OneEmptyYear(year);
      && Tracks(d, year, None, [])
      && CloseState(Run(SecondLost(), d, year, [CloseYear]), year) == Ok(ClosingState.Closed)
      && CloseJournal(Run(SecondLost(), d, year, [CloseYear]), year) == Ok([])
  {
    hide Tracks;
    hide Run;
    hide Effects;
    hide EffectOf;
    hide CloseState;
    hide CloseJournal;
    hide OneEmptyYear;
    var d := OneEmptyYear(year);
    EmptyYearTracks(year);
    RunJournaled(SecondLost(), d, year, [CloseYear]);
    OneStep(SecondLost(), d, year, CloseYear);
    TornEffect(year);
    var effects := Effects(SecondLost(), d, year, [CloseYear]);
    assert effects[..0] == [];
    assert History([]) == [] && History(effects) == [];
  }

  lemma OneEntry(e: Effect)
    requires e.entry.Some?
    ensures History([e]) == [e.entry.value]
  {
    assert [e][..0] == [] && History([]) == [];
  }

  lemma UnheardEffect(year: i32)
    ensures
      var d := OneEmptyYear(year);
      && Unheard(SecondUnreported(), d, year, CloseYear)
      && EffectOf(SecondUnreported(), d, year, CloseYear).entry == Some(Entry(ClosingState.Closed, Flat(CLOSE_REASON)))
  {
    hide StatementsOf;
    hide Flat;
    EmptyYearCloses(year);
    EmptyYearTracks(year);
  }

  lemma CloseReasonFlat()
    ensures Flat(CLOSE_REASON) == "closed by close_year"
  {
  }

  /** The journal can hold an entry of a call that failed: a close whose journal write goes unreported. */
  lemma UnheardClose(year: i32)
    ensures
      var d := OneEmptyYear(year);
      && Tracks(d, year, None, [])
      && CloseOf(SecondUnreported(), d, year).result.Err?
      && CloseJournal(Run(SecondUnreported(), d, year, [CloseYear]), year) ==
        Ok([Entry(ClosingState.Closed, "closed by close_year")])
  {
    hide Tracks;
    hide Run;
    hide Effects;
    hide EffectOf;
    hide CloseOf;
    hide CloseState;
    hide CloseJournal;
    hide OneEmptyYear;
    hide Unheard;
    hide Flat;
    var d := OneEmptyYear(year);
    EmptyYearTracks(year);
    RunJournaled(SecondUnreported(), d, year, [CloseYear]);
    OneStep(SecondUnreported(), d, year, CloseYear);
    UnheardEffect(year);
    SuccessJournaled(SecondUnreported(), d, year, CloseYear, None, []);
    assert Flat(CLOSE_REASON) == "closed by close_year" by { CloseReasonFlat(); }
    var effects := Effects(SecondUnreported(), d, year, [CloseYear]);
    assert effects == [EffectOf(SecondUnreported(), d, year, CloseYear)];
    OneEntry(effects[0]);
  }
}
