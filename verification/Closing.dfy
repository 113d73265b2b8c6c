/** Closing and reopening a year: state and journal in the year file's metadata. */
module Closing {
  import opened Wrappers
  import opened Text
  import opened Ledger
  import opened YearFiles
  import opened LedgerSets
  import opened Statements
  import opened Journal

  const JOURNAL_KEY := "closing_journal"
  const CLOSE_REASON := "closed by close_year"

  function MetaValue(f: YearFile, key: string): Option<string> {
    if key in f.meta then Some(f.meta[key]) else None
  }

  function JournalText(f: YearFile): string {
    if JOURNAL_KEY in f.meta then f.meta[JOURNAL_KEY] else ""
  }

  function Opened(d: Disk, year: int): Result<YearFile, CloseError> {
    match OpenYear(d, year) case Ok(f) => Ok(f) case Err(e) => Err(StoreFailed(e))
  }

  /** `close_state`: open unless the metadata says otherwise. */
  function CloseState(d: Disk, year: int): Result<ClosingState, CloseError> {
    var f :- Opened(d, year);
    match MetaValue(f, STATE_KEY)
    case None => Ok(ClosingState.Open)
    case Some(text) => if ParseState(text).Some? then Ok(ParseState(text).value) else Err(InvalidState)
  }

  /** `close_journal`. */
  function CloseJournal(d: Disk, year: int): Result<seq<Entry>, CloseError> {
    var f :- Opened(d, year);
    match MetaValue(f, JOURNAL_KEY)
    case None => Ok([])
    case Some(text) => if ParseJournal(text).Some? then Ok(ParseJournal(text).value) else Err(InvalidState)
  }

  function StateWrite(state: ClosingState): Write {
    SetMeta(STATE_KEY, StateText(state))
  }

  function JournalWrite(f: YearFile, state: ClosingState, reason: string): Write {
    SetMeta(JOURNAL_KEY, AppendedText(JournalText(f), state, reason))
  }

  /** The state, then the journal entry: two writes, of which the second may fail alone. */
  function Mark(faults: Faults, d: Disk, year: int, state: ClosingState, reason: string): Attempted
    requires year in d.files
  {
    var a := Perform(faults, d, year, StateWrite(state));
    if a.result.Err? then a
    else Perform(faults, a.disk, year, JournalWrite(a.disk.files[year], state, reason))
  }

  datatype Call<T> = Call(result: Result<T, CloseError>, disk: Disk)

  function CloseOf(faults: Faults, d: Disk, year: int): Call<FinancialStatements> {
    match Opened(d, year)
    case Err(e) => Call(Err(e), d)
    case Ok(f) =>
      var statements := StatementsOf(f, year);
      if statements.Err? then Call(Err(statements.error), d) else
      var a := Mark(faults, d, year, ClosingState.Closed, CLOSE_REASON);
      Call(if a.result.Err? then Err(StoreFailed(a.result.error)) else Ok(statements.value), a.disk)
  }

  function ReopenOf(faults: Faults, d: Disk, year: int, reason: string): Call<seq<Entry>> {
    if Trim(reason) == "" then Call(Err(InvalidState), d) else
    match Opened(d, year)
    case Err(e) => Call(Err(e), d)
    case Ok(_) =>
      var a := Mark(faults, d, year, ClosingState.Open, Trim(reason));
      Call(if a.result.Err? then Err(StoreFailed(a.result.error)) else CloseJournal(a.disk, year), a.disk)
  }

  // ----- the methods

  /** `append_journal`. */
  method AppendJournal(store: YearStore, state: ClosingState, reason: string) returns (r: Result<(), StoreError>)
    requires store.Valid()
    modifies store`content, store.mount
    ensures Attempted(r, store.mount.disk) ==
      Perform(store.mount.faults, old(store.mount.disk), store.year, JournalWrite(old(store.content), state, reason))
    ensures r.Ok? ==> store.Valid()
  {
    var journal := if JOURNAL_KEY in store.content.meta then store.content.meta[JOURNAL_KEY] else "";
    if journal != "" && journal[|journal| - 1] != '\n' {
      journal := journal + "\n";
    }
    journal := journal + StateText(state);
    journal := journal + "\t";
    journal := journal + Flat(reason);
    r := store.Mutate(SetMeta(JOURNAL_KEY, journal));
  }

  method MarkYear(store: YearStore, state: ClosingState, reason: string) returns (r: Result<(), StoreError>)
    requires store.Valid()
    modifies store`content, store.mount
    ensures Attempted(r, store.mount.disk) == Mark(store.mount.faults, old(store.mount.disk), store.year, state, reason)
  {
    hide Perform;
    r := store.Mutate(StateWrite(state));
    if r.Ok? {
      r := AppendJournal(store, state, reason);
    }
  }

  /** `close_year`: statements first, so that only a year that can be stated closes. */
  method CloseYear(ledger: LedgerSet, year: int) returns (r: Result<FinancialStatements, CloseError>)
    modifies ledger.mount
    ensures Call(r, ledger.mount.disk) == CloseOf(ledger.mount.faults, old(ledger.mount.disk), year)
  {
    hide Mark;
    hide StatementsOf;
    var file := Opened(ledger.mount.disk, year);
    if file.Err? {
      return Err(file.error);
    }
    var statements := StatementsOf(file.value, year);
    if statements.Err? {
      return Err(statements.error);
    }
    var store := new YearStore(ledger.mount, year);
    var marked := MarkYear(store, ClosingState.Closed, CLOSE_REASON);
    r := if marked.Err? then Err(StoreFailed(marked.error)) else Ok(statements.value);
  }

  /** `reopen_year`: refused without a reason; returns the whole journal. */
  method ReopenYear(ledger: LedgerSet, year: int, reason: string) returns (r: Result<seq<Entry>, CloseError>)
    modifies ledger.mount
    ensures Call(r, ledger.mount.disk) == ReopenOf(ledger.mount.faults, old(ledger.mount.disk), year, reason)
  {
    hide Mark;
    hide CloseJournal;
    var trimmed := Trim(reason);
    if trimmed == "" {
      return Err(InvalidState);
    }
    var file := Opened(ledger.mount.disk, year);
    if file.Err? {
      return Err(file.error);
    }
    var store := new YearStore(ledger.mount, year);
    var marked := MarkYear(store, ClosingState.Open, trimmed);
    r := if marked.Err? then Err(StoreFailed(marked.error)) else CloseJournal(ledger.mount.disk, year);
  }
}
