/** Profile-driven admission of statement lines into a snapshot. */
module Admission {
  import opened Wrappers
  import opened Numbers
  import opened Text
  import opened Calendar
  import opened Fields
  import opened AmountText
  import opened StatementData

  datatype DateFormat = Iso8601 | DayMonthYearSlash

  datatype AmountLayout = Signed(column: nat) | DebitCredit(debit: nat, credit: nat)

  datatype Profile = Profile(
    version: nat,
    id: string,
    delimiter: byte,
    hasHeader: bool,
    dateColumn: nat,
    dateFormat: DateFormat,
    amount: AmountLayout,
    decimalSeparator: byte,
    fractionalDigits: byte,
    currency: string,
    currencyColumn: Option<nat>,
    identityColumn: nat,
    descriptionColumn: Option<nat>
  )

  datatype StatementError =
    | UnsupportedProfileVersion(version: nat)
    | InvalidProfile(reason: string)
    | InvalidEncoding
    | MissingColumn(column: nat)
    | MissingOrInvalidDate
    | MissingSourceIdentity
    | DuplicateSourceIdentity(identity: string)
    | MixedCurrency(expected: string, found: string)
    | BadAmount(error: AmountError)
    | MalformedRow

  datatype Rejected = Rejected(ordinal: nat, original: string, reason: StatementError)

  const PROFILE_VERSION: nat := 1
  const ROW_VERSION: nat := 1

  function ValidateProfile(p: Profile): Result<(), StatementError> {
    if p.version != PROFILE_VERSION then Err(UnsupportedProfileVersion(p.version))
    else if p.id == "" || p.currency == "" then Err(InvalidProfile("profile id and currency must be non-empty"))
    else if p.delimiter as char in {'\n', '\r', QUOTE} || p.delimiter >= 0x80 then
      Err(InvalidProfile("delimiter must be a safe single ASCII byte"))
    else if !(p.decimalSeparator as char in {'.', ','}) || p.fractionalDigits > 2 then
      Err(InvalidProfile("decimal rule must declare separator and zero through two digits"))
    else Ok(())
  }

  // ----- dates

  function DateParts(text: string, separator: char): Option<(nat, nat, nat)> {
    var parts := Split(text, separator);
    if |parts| != 3 then None else
    var a :- ParseUnsigned(parts[0], U32_MAX);
    var b :- ParseUnsigned(parts[1], U32_MAX);
    var c :- ParseUnsigned(parts[2], U32_MAX);
    Some((a, b, c))
  }

  function ParseDate(text: string, format: DateFormat): Option<Date> {
    match format
    case Iso8601 =>
      var (year, month, day) :- DateParts(text, '-');
      Some(Date(year, month, day))
    case DayMonthYearSlash =>
      var (day, month, year) :- DateParts(text, '/');
      Some(Date(year, month, day))
  }

  function CanonicalDate(text: string, format: DateFormat): Result<string, StatementError> {
    match ParseDate(text, format)
    case None => Err(MissingOrInvalidDate)
    case Some(d) =>
      if Valid(d) && d.year != 0 then Ok(IsoText(d)) else Err(MissingOrInvalidDate)
  }

  // ----- one row

  function Field(fields: seq<string>, column: nat): Result<string, StatementError> {
    if column < |fields| then Ok(Trim(fields[column])) else Err(MissingColumn(column))
  }

  function AmountOf(p: Profile, text: string, negate: bool): Result<i64, StatementError>
    requires p.fractionalDigits <= 2
  {
    match StatementAmountSpec(text, p.decimalSeparator as char, p.fractionalDigits, negate)
    case Ok(minor) => Ok(minor)
    case Err(e) => Err(BadAmount(e))
  }

  function AmountField(p: Profile, fields: seq<string>): Result<i64, StatementError>
    requires p.fractionalDigits <= 2
  {
    match p.amount
    case Signed(column) =>
      var text :- Field(fields, column);
      AmountOf(p, text, false)
    case DebitCredit(debitColumn, creditColumn) =>
      var debit :- Field(fields, debitColumn);
      var credit :- Field(fields, creditColumn);
      if debit != "" && credit == "" then AmountOf(p, debit, true)
      else if debit == "" && credit != "" then AmountOf(p, credit, false)
      else Err(BadAmount(AmbiguousSign))
  }

  function CheckCurrency(p: Profile, fields: seq<string>): Result<(), StatementError> {
    if p.currencyColumn.None? then Ok(()) else
    var found :- Field(fields, p.currencyColumn.value);
    if found != p.currency then Err(MixedCurrency(p.currency, found)) else Ok(())
  }

  function Description(p: Profile, fields: seq<string>): Result<Option<string>, StatementError> {
    if p.descriptionColumn.None? then Ok(None) else
    var text :- Field(fields, p.descriptionColumn.value);
    Ok(if text == "" then None else Some(text))
  }

  /** Reads one row, given the identities that are taken. */
  function ParseRow(p: Profile, sourceRef: string, ordinal: nat, raw: string, taken: set<string>)
    : Result<StatementRow, StatementError>
    requires p.fractionalDigits <= 2
  {
    match SplitLine(raw, p.delimiter as char)
    case None => Err(MalformedRow)
    case Some(fields) =>
      var identity :- Field(fields, p.identityColumn);
      if identity == "" then Err(MissingSourceIdentity)
      else if identity in taken then Err(DuplicateSourceIdentity(identity))
      else
        var dateText :- Field(fields, p.dateColumn);
        var date :- CanonicalDate(dateText, p.dateFormat);
        var _ :- CheckCurrency(p, fields);
        var amount :- AmountField(p, fields);
        var description :- Description(p, fields);
        Ok(StatementRow(ROW_VERSION, date, amount, p.currency, description, identity, sourceRef, ordinal, p.id, raw))
  }

  // ----- all lines

  datatype State = State(
    rows: seq<StatementRow>,
    rejected: seq<Rejected>,
    taken: set<string>,
    total: i64,
    headerPending: bool
  )

  function Start(p: Profile): State {
    State([], [], {}, 0, p.hasHeader)
  }

  /** The effect of line number `index`. */
  function Step(p: Profile, sourceRef: string, st: State, index: nat, line: string): State
    requires p.fractionalDigits <= 2
  {
    var raw := DropReturn(line);
    if raw == "" then st
    else if st.headerPending then st.(headerPending := false)
    else
      match ParseRow(p, sourceRef, index + 1, raw, st.taken)
      case Err(reason) => st.(rejected := st.rejected + [Rejected(index + 1, raw, reason)])
      case Ok(row) =>
        var taken := st.taken + {row.identity};
        if IsI64(st.total + row.amount)
        then st.(rows := st.rows + [row], taken := taken, total := st.total + row.amount)
        else st.(rejected := st.rejected + [Rejected(index + 1, raw, BadAmount(ArithmeticOverflow))], taken := taken)
  }

  function Run(p: Profile, sourceRef: string, lines: seq<string>): State
    requires p.fractionalDigits <= 2
  {
    if lines == [] then Start(p)
    else Step(p, sourceRef, Run(p, sourceRef, lines[..|lines| - 1]), |lines| - 1, lines[|lines| - 1])
  }

  lemma RunSnoc(p: Profile, sourceRef: string, lines: seq<string>, line: string)
    requires p.fractionalDigits <= 2
    ensures Run(p, sourceRef, lines + [line]) == Step(p, sourceRef, Run(p, sourceRef, lines), |lines|, line)
  {
    hide Step;
    assert (lines + [line])[..|lines|] == lines;
  }

  datatype Admitted = Admitted(snapshot: Snapshot, rejected: seq<Rejected>)

  /** Admission of a statement; `text` is absent when the bytes are not UTF-8. */
  function AdmitSpec(p: Profile, sourceRef: string, cutoff: string, text: Option<string>, balances: seq<LedgerBalance>)
    : Result<Admitted, StatementError>
  {
    var _ :- ValidateProfile(p);
    if sourceRef == "" || cutoff == "" then Err(InvalidProfile("source_ref and cutoff must be non-empty"))
    else if text.None? then Err(InvalidEncoding)
    else
      var st := Run(p, sourceRef, Lines(text.value));
      Ok(Admitted(Snapshot(cutoff, sourceRef, p.id, st.rows, st.total, balances), st.rejected))
  }

  /** The accumulators of one admission. */
  class Admitter {
    var rows: seq<StatementRow>
    var rejected: seq<Rejected>
    var taken: set<string>
    var total: i64
    var headerPending: bool

    ghost function Value(): State
      reads this
    {
      State(rows, rejected, taken, total, headerPending)
    }

    constructor (p: Profile)
      ensures Value() == Start(p)
    {
      rows, rejected, taken, total, headerPending := [], [], {}, 0, p.hasHeader;
    }

    /** Reads a row and, if it is admitted, reserves its identity. */
    method ReserveRow(p: Profile, sourceRef: string, ordinal: nat, raw: string)
      returns (r: Result<StatementRow, StatementError>)
      requires p.fractionalDigits <= 2
      modifies this`taken
      ensures r == ParseRow(p, sourceRef, ordinal, raw, old(taken))
      ensures taken == if r.Ok? then old(taken) + {r.value.identity} else old(taken)
    {
      hide ParseRow;
      r := ParseRow(p, sourceRef, ordinal, raw, taken);
      if r.Ok? {
        taken := taken + {r.value.identity};
      }
    }

    method AdmitLine(p: Profile, sourceRef: string, index: nat, line: string)
      requires p.fractionalDigits <= 2
      modifies this
      ensures Value() == Step(p, sourceRef, old(Value()), index, line)
    {
      hide ParseRow;
      var raw := DropReturn(line);
      if raw == "" {
        return;
      }
      if headerPending {
        headerPending := false;
        return;
      }
      var parsed := ReserveRow(p, sourceRef, index + 1, raw);
      match parsed
      case Err(reason) =>
        rejected := rejected + [Rejected(index + 1, raw, reason)];
      case Ok(row) =>
        if IsI64(total + row.amount) {
          total := total + row.amount;
          rows := rows + [row];
        } else {
          rejected := rejected + [Rejected(index + 1, raw, BadAmount(ArithmeticOverflow))];
        }
    }
  }

  method AdmitStatement(p: Profile, sourceRef: string, cutoff: string, text: Option<string>,
                        balances: seq<LedgerBalance>)
    returns (r: Result<Admitted, StatementError>)
    ensures r == AdmitSpec(p, sourceRef, cutoff, text, balances)
  {
    hide Step;
    var _ :- ValidateProfile(p);
    if sourceRef == "" || cutoff == "" {
      return Err(InvalidProfile("source_ref and cutoff must be non-empty"));
    }
    if text.None? {
      return Err(InvalidEncoding);
    }
    var lines := Lines(text.value);
    var admitter := new Admitter(p);
    for i := 0 to |lines|
      invariant admitter.Value() == Run(p, sourceRef, lines[..i])
    {
      admitter.AdmitLine(p, sourceRef, i, lines[i]);
      assert lines[..i + 1][..i] == lines[..i];
    }
    assert lines[..|lines|] == lines;
    r := Ok(Admitted(Snapshot(cutoff, sourceRef, p.id, admitter.rows, admitter.total, balances), admitter.rejected));
  }
}
