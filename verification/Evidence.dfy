/** The frozen inputs of a reconciliation, their validation and their dates. */
module Evidence {
  import opened Wrappers
  import opened Numbers
  import opened Sequences
  import opened Text
  import opened Calendar
  import opened StatementData

  datatype Movement = Movement(voucherId: i64, amount: i64, currency: string, date: string, text: Option<string>)

  datatype Inputs = Inputs(snapshotRef: string, reviewerRef: string, statement: Snapshot, movements: seq<Movement>)

  datatype Error =
    | InvalidBounds
    | WorkBoundExceeded
    | InvalidInput(reason: string)
    | InvalidDecisionRef
    | UnknownEvidence
    | WrongReviewer
    | DuplicateCoverage
    | EmptyAcceptedSet
    | ArithmeticOverflow
    | CertificateMismatch
    | IncompleteClose

  function RowCurrency(r: StatementRow): string { r.currency }
  function MovementCurrency(m: Movement): string { m.currency }
  function VoucherId(m: Movement): int { m.voucherId }
  function MovementAmount(m: Movement): int { m.amount }

  function RowIds(inputs: Inputs): seq<string> { Map(Identity, inputs.statement.rows) }
  function VoucherIds(inputs: Inputs): seq<int> { Map(VoucherId, inputs.movements) }

  function CheckedTotal(xs: seq<int>): Result<int, Error> {
    match CheckedSum(xs)
    case Some(total) => Ok(total)
    case None => Err(ArithmeticOverflow)
  }

  // ----- validation

  /** What the inputs must satisfy. */
  ghost predicate ValidInputs(inputs: Inputs) {
    var rows, movements := inputs.statement.rows, inputs.movements;
    && inputs.snapshotRef != "" && inputs.reviewerRef != "" && inputs.statement.cutoff != ""
    && NoDup(RowIds(inputs)) && (forall i :: 0 <= i < |rows| ==> rows[i].identity != "")
    && NoDup(VoucherIds(inputs))
    && OneCurrency(Currencies(rows, movements))
    && CheckedSum(Map(RowAmount, rows)) == Some(inputs.statement.total)
  }

  function Currencies(rows: seq<StatementRow>, movements: seq<Movement>): seq<string> {
    Map(RowCurrency, rows) + Map(MovementCurrency, movements)
  }

  ghost predicate OneCurrency(currencies: seq<string>) {
    && (forall i :: 0 <= i < |currencies| ==> currencies[i] != "")
    && (forall i, j :: 0 <= i < j < |currencies| ==> currencies[i] == currencies[j])
  }

  /** The check of one more row. */
  function CheckRow(before: seq<StatementRow>, currency: Option<string>,
                    row: StatementRow): Result<Option<string>, Error> {
    if row.identity == "" || row.identity in Map(Identity, before) then
      Err(InvalidInput("duplicate statement row identity"))
    else if row.currency == "" then Err(InvalidInput("empty currency"))
    else if currency.Some? && currency.value != row.currency then Err(InvalidInput("mixed currency"))
    else Ok(Some(row.currency))
  }

  /** The currency of the rows, if they pass; one row at a time. */
  function CheckRows(rows: seq<StatementRow>): Result<Option<string>, Error> {
    if rows == [] then Ok(None) else
    var before, row := rows[..|rows| - 1], rows[|rows| - 1];
    var currency :- CheckRows(before);
    CheckRow(before, currency, row)
  }

  /** The check of one more movement. */
  function CheckMovement(before: seq<Movement>, currency: Option<string>,
                         movement: Movement): Result<Option<string>, Error> {
    if movement.currency == "" || movement.voucherId in Map(VoucherId, before) then
      Err(InvalidInput("duplicate ledger voucher identity"))
    else if currency.Some? && currency.value != movement.currency then Err(InvalidInput("mixed currency"))
    else Ok(Some(movement.currency))
  }

  /** The currency of rows and movements, if the movements pass too. */
  function CheckMovements(currency: Option<string>, movements: seq<Movement>): Result<Option<string>, Error> {
    if movements == [] then Ok(currency) else
    var before, movement := movements[..|movements| - 1], movements[|movements| - 1];
    var currency :- CheckMovements(currency, before);
    CheckMovement(before, currency, movement)
  }

  function ValidateInputs(inputs: Inputs): Result<(), Error> {
    if inputs.snapshotRef == "" || inputs.reviewerRef == "" || inputs.statement.cutoff == "" then
      Err(InvalidInput("empty snapshot identity or cutoff"))
    else
      var currency :- CheckRows(inputs.statement.rows);
      var _ :- CheckMovements(currency, inputs.movements);
      var total :- CheckedTotal(Map(RowAmount, inputs.statement.rows));
      if total != inputs.statement.total then Err(InvalidInput("fabricated statement total"))
      else Ok(())
  }

  lemma {:induction false} CheckRowsPrefix(rows: seq<StatementRow>, k: nat)
    requires k <= |rows| && CheckRows(rows[..k]).Err?
    ensures CheckRows(rows) == CheckRows(rows[..k])
  {
    if k < |rows| {
      assert rows[..|rows| - 1][..k] == rows[..k];
      CheckRowsPrefix(rows[..|rows| - 1], k);
    } else {
      assert rows[..k] == rows;
    }
  }

  lemma {:induction false} CheckMovementsPrefix(currency: Option<string>, movements: seq<Movement>, k: nat)
    requires k <= |movements| && CheckMovements(currency, movements[..k]).Err?
    ensures CheckMovements(currency, movements) == CheckMovements(currency, movements[..k])
  {
    if k < |movements| {
      assert movements[..|movements| - 1][..k] == movements[..k];
      CheckMovementsPrefix(currency, movements[..|movements| - 1], k);
    } else {
      assert movements[..k] == movements;
    }
  }

  lemma CheckRowsNext(rows: seq<StatementRow>, i: nat)
    requires i < |rows| && CheckRows(rows[..i]).Ok?
    ensures CheckRows(rows[..i + 1]) == CheckRow(rows[..i], CheckRows(rows[..i]).value, rows[i])
  {
    assert rows[..i + 1][..i] == rows[..i];
  }

  ghost predicate SeenRows(seen: set<string>, rows: seq<StatementRow>) {
    seen == Elements(Map(Identity, rows))
  }

  lemma SeenRowsNext(seen: set<string>, rows: seq<StatementRow>, i: nat)
    requires i < |rows| && SeenRows(seen, rows[..i])
    ensures rows[i].identity in seen <==> rows[i].identity in Map(Identity, rows[..i])
    ensures SeenRows(seen + {rows[i].identity}, rows[..i + 1])
  {
    assert rows[..i + 1] == rows[..i] + [rows[i]];
    MapSnoc(Identity, rows[..i], rows[i]);
    ElementsConcat(Map(Identity, rows[..i]), [Identity(rows[i])]);
  }

  method ValidateRows(rows: seq<StatementRow>) returns (r: Result<Option<string>, Error>)
    ensures r == CheckRows(rows)
  {
    var seen: set<string> := {};
    var currency: Option<string> := None;
    assert CheckRows(rows[..0]) == Ok(currency) && SeenRows(seen, rows[..0]);
    hide CheckRows;
    hide SeenRows;
    for i := 0 to |rows|
      invariant CheckRows(rows[..i]) == Ok(currency)
      invariant SeenRows(seen, rows[..i])
    {
      var row := rows[i];
      CheckRowsNext(rows, i);
      SeenRowsNext(seen, rows, i);
      if row.identity == "" || row.identity in seen {
        CheckRowsPrefix(rows, i + 1);
        return Err(InvalidInput("duplicate statement row identity"));
      }
      seen := seen + {row.identity};
      if row.currency == "" {
        CheckRowsPrefix(rows, i + 1);
        return Err(InvalidInput("empty currency"));
      }
      if currency.Some? && currency.value != row.currency {
        CheckRowsPrefix(rows, i + 1);
        return Err(InvalidInput("mixed currency"));
      }
      currency := Some(row.currency);
    }
    assert rows[..|rows|] == rows;
    r := Ok(currency);
  }

  lemma CheckMovementsNext(start: Option<string>, movements: seq<Movement>, i: nat)
    requires i < |movements| && CheckMovements(start, movements[..i]).Ok?
    ensures CheckMovements(start, movements[..i + 1]) ==
      CheckMovement(movements[..i], CheckMovements(start, movements[..i]).value, movements[i])
  {
    assert movements[..i + 1][..i] == movements[..i];
  }

  ghost predicate SeenMovements(seen: set<int>, movements: seq<Movement>) {
    seen == Elements(Map(VoucherId, movements))
  }

  lemma SeenMovementsNext(seen: set<int>, movements: seq<Movement>, i: nat)
    requires i < |movements| && SeenMovements(seen, movements[..i])
    ensures movements[i].voucherId in seen <==> movements[i].voucherId in Map(VoucherId, movements[..i])
    ensures SeenMovements(seen + {movements[i].voucherId}, movements[..i + 1])
  {
    assert movements[..i + 1] == movements[..i] + [movements[i]];
    MapSnoc(VoucherId, movements[..i], movements[i]);
    ElementsConcat(Map(VoucherId, movements[..i]), [VoucherId(movements[i])]);
  }

  method ValidateMovements(start: Option<string>, movements: seq<Movement>) returns (r: Result<Option<string>, Error>)
    ensures r == CheckMovements(start, movements)
  {
    var seen: set<int> := {};
    var currency := start;
    assert CheckMovements(start, movements[..0]) == Ok(currency) && SeenMovements(seen, movements[..0]);
    hide CheckMovements;
    hide SeenMovements;
    for i := 0 to |movements|
      invariant CheckMovements(start, movements[..i]) == Ok(currency)
      invariant SeenMovements(seen, movements[..i])
    {
      var movement := movements[i];
      CheckMovementsNext(start, movements, i);
      SeenMovementsNext(seen, movements, i);
      if movement.currency == "" || movement.voucherId in seen {
        CheckMovementsPrefix(start, movements, i + 1);
        return Err(InvalidInput("duplicate ledger voucher identity"));
      }
      seen := seen + {movement.voucherId};
      if currency.Some? && currency.value != movement.currency {
        CheckMovementsPrefix(start, movements, i + 1);
        return Err(InvalidInput("mixed currency"));
      }
      currency := Some(movement.currency);
    }
    assert movements[..|movements|] == movements;
    r := Ok(currency);
  }

  method Validate(inputs: Inputs) returns (r: Result<(), Error>)
    ensures r == ValidateInputs(inputs)
  {
    if inputs.snapshotRef == "" || inputs.reviewerRef == "" || inputs.statement.cutoff == "" {
      return Err(InvalidInput("empty snapshot identity or cutoff"));
    }
    var currency :- ValidateRows(inputs.statement.rows);
    var _ :- ValidateMovements(currency, inputs.movements);
    var total :- CheckedTotal(Map(RowAmount, inputs.statement.rows));
    if total != inputs.statement.total {
      return Err(InvalidInput("fabricated statement total"));
    }
    r := Ok(());
  }

  lemma OneCurrencySnoc(currencies: seq<string>, c: string)
    ensures OneCurrency(currencies + [c]) <==>
      OneCurrency(currencies) && c != "" && (currencies == [] || currencies[0] == c)
  {
    var all := currencies + [c];
    assert all[|currencies|] == c;
    assert forall i :: 0 <= i < |currencies| ==> all[i] == currencies[i];
  }

  lemma OneCurrencyPrefix(a: seq<string>, b: seq<string>)
    requires OneCurrency(a + b)
    ensures OneCurrency(a)
  {
    assert forall i :: 0 <= i < |a| ==> (a + b)[i] == a[i];
  }

  /** What the row checks amount to. */
  ghost predicate RowsPass(rows: seq<StatementRow>) {
    && NoDup(Map(Identity, rows))
    && (forall i :: 0 <= i < |rows| ==> rows[i].identity != "")
    && OneCurrency(Map(RowCurrency, rows))
  }

  function First(currencies: seq<string>): Option<string> {
    if currencies == [] then None else Some(currencies[0])
  }

  lemma RowsPassSnoc(before: seq<StatementRow>, row: StatementRow)
    ensures RowsPass(before + [row]) <==>
      && RowsPass(before) && row.identity != "" && row.identity !in Map(Identity, before)
      && row.currency != "" && (before == [] || before[0].currency == row.currency)
  {
    hide NoDup;
    hide OneCurrency;
    MapSnoc(Identity, before, row);
    MapSnoc(RowCurrency, before, row);
    NoDupSnoc(Map(Identity, before), row.identity);
    OneCurrencySnoc(Map(RowCurrency, before), row.currency);
    var rows := before + [row];
    assert rows[|before|] == row;
    assert forall i :: 0 <= i < |before| ==> rows[i] == before[i];
  }

  lemma CheckRowsSnoc(before: seq<StatementRow>, row: StatementRow)
    ensures CheckRows(before + [row]) ==
      if CheckRows(before).Err? then CheckRows(before) else CheckRow(before, CheckRows(before).value, row)
  {
    hide CheckRow;
    assert (before + [row])[..|before|] == before;
  }

  lemma NoRowsPass()
    ensures RowsPass([]) && CheckRows([]) == Ok(None)
  {
  }

  lemma {:induction false} CheckRowsExact(rows: seq<StatementRow>)
    ensures CheckRows(rows).Ok? <==> RowsPass(rows)
    ensures CheckRows(rows).Ok? ==> CheckRows(rows).value == First(Map(RowCurrency, rows))
  {
    hide CheckRows;
    hide RowsPass;
    if rows == [] {
      NoRowsPass();
    } else {
      var before, row := rows[..|rows| - 1], rows[|rows| - 1];
      assert rows == before + [row];
      CheckRowsExact(before);
      CheckRowsSnoc(before, row);
      RowsPassSnoc(before, row);
    }
  }

  lemma CheckMovementsSnoc(start: Option<string>, before: seq<Movement>, movement: Movement)
    ensures CheckMovements(start, before + [movement]) == (
      if CheckMovements(start, before).Err? then CheckMovements(start, before)
      else CheckMovement(before, CheckMovements(start, before).value, movement))
  {
    hide CheckMovement;
    assert (before + [movement])[..|before|] == before;
  }

  lemma NoMovementsPass(start: Option<string>)
    ensures CheckMovements(start, []) == Ok(start)
  {
  }

  /** What the movement checks amount to, behind rows with these currencies. */
  ghost predicate MovementsPass(currencies: seq<string>, movements: seq<Movement>) {
    NoDup(Map(VoucherId, movements)) && OneCurrency(currencies + Map(MovementCurrency, movements))
  }

  function FirstOf(currencies: seq<string>, movements: seq<Movement>): Option<string> {
    First(currencies + Map(MovementCurrency, movements))
  }

  lemma MovementsPassSnoc(currencies: seq<string>, before: seq<Movement>, movement: Movement)
    ensures MovementsPass(currencies, before + [movement]) <==>
      && MovementsPass(currencies, before) && movement.voucherId !in Map(VoucherId, before) && movement.currency != ""
      && FirstOf(currencies, before + [movement]) == Some(movement.currency)
    ensures FirstOf(currencies, before + [movement]) ==
      if FirstOf(currencies, before).Some? then FirstOf(currencies, before) else Some(movement.currency)
  {
    hide NoDup;
    hide OneCurrency;
    MapSnoc(VoucherId, before, movement);
    MapSnoc(MovementCurrency, before, movement);
    var init := currencies + Map(MovementCurrency, before);
    assert currencies + Map(MovementCurrency, before + [movement]) == init + [movement.currency];
    NoDupSnoc(Map(VoucherId, before), movement.voucherId);
    OneCurrencySnoc(init, movement.currency);
  }

  lemma NoMovementsMore(currencies: seq<string>)
    requires OneCurrency(currencies)
    ensures MovementsPass(currencies, []) && FirstOf(currencies, []) == First(currencies)
  {
    assert currencies + Map(MovementCurrency, []) == currencies;
  }

  lemma {:induction false} CheckMovementsExact(currencies: seq<string>, movements: seq<Movement>)
    requires OneCurrency(currencies)
    ensures
      var r := CheckMovements(First(currencies), movements);
      && (r.Ok? <==> MovementsPass(currencies, movements))
      && (r.Ok? ==> r.value == FirstOf(currencies, movements))
  {
    hide OneCurrency;
    hide CheckMovements;
    hide MovementsPass;
    hide First;
    hide FirstOf;
    if movements == [] {
      NoMovementsPass(First(currencies));
      NoMovementsMore(currencies);
    } else {
      var before, movement := movements[..|movements| - 1], movements[|movements| - 1];
      assert movements == before + [movement];
      CheckMovementsExact(currencies, before);
      CheckMovementsSnoc(First(currencies), before, movement);
      MovementsPassSnoc(currencies, before, movement);
    }
  }

  /** The validator passes exactly the valid inputs. */
  lemma ValidateExact(inputs: Inputs)
    ensures ValidateInputs(inputs).Ok? <==> ValidInputs(inputs)
  {
    hide NoDup;
    hide OneCurrency;
    hide CheckRows;
    hide CheckMovements;
    var rows, movements := inputs.statement.rows, inputs.movements;
    CheckRowsExact(rows);
    if OneCurrency(Currencies(rows, movements)) {
      OneCurrencyPrefix(Map(RowCurrency, rows), Map(MovementCurrency, movements));
    }
    if OneCurrency(Map(RowCurrency, rows)) {
      CheckMovementsExact(Map(RowCurrency, rows), movements);
    }
  }

  // ----- dates

  /** The ordinal of a `year-month-day` text; absent when it is not one. */
  function DateOrdinal(text: string): Option<int> {
    var parts := Split(text, '-');
    if |parts| != 3 then None else
    var year :- ParseI64(parts[0]);
    var month :- ParseI64(parts[1]);
    var day :- ParseI64(parts[2]);
    if 1 <= month <= 12 && 1 <= day <= 31 then Some(Ordinal(Date(year, month, day))) else None
  }

  function Abs(x: int): nat {
    if x < 0 then -x else x
  }

  function DateDistance(left: string, right: string): Result<nat, Error> {
    match (DateOrdinal(left), DateOrdinal(right))
    case (Some(l), Some(r)) => if Abs(l - r) <= U32_MAX then Ok(Abs(l - r)) else Err(ArithmeticOverflow)
    case _ => Err(InvalidInput("invalid date"))
  }

  lemma IsoTextOrdinal(d: Date)
    requires Valid(d) && 0 <= d.year <= I64_MAX
    ensures DateOrdinal(IsoText(d)) == Some(Ordinal(d))
  {
    hide Ordinal;
    hide Split;
    hide Padded;
    IsoTextSplits(d);
    var y, m, n := Padded(d.year, 4), Padded(d.month, 2), Padded(d.day, 2);
    assert ParseI64(y) == Some(d.year) && ParseI64(m) == Some(d.month) && ParseI64(n) == Some(d.day);
  }

  /** The sum of the rows is only taken of valid rows and movements; every other refusal is an invalid input. */
  lemma ValidateRefusals(inputs: Inputs)
    ensures
      var r, rows := ValidateInputs(inputs), inputs.statement.rows;
      && (r == Err(ArithmeticOverflow) <==>
            && inputs.snapshotRef != "" && inputs.reviewerRef != "" && inputs.statement.cutoff != ""
            && RowsPass(rows) && MovementsPass(Map(RowCurrency, rows), inputs.movements)
            && CheckedSum(Map(RowAmount, rows)) == None)
      && (r.Err? ==> r.error == ArithmeticOverflow || r.error.InvalidInput?)
  {
    hide OneCurrency;
    hide NoDup;
    var rows := inputs.statement.rows;
    CheckRowsExact(rows);
    RowErrors(rows);
    if RowsPass(rows) {
      CheckMovementsExact(Map(RowCurrency, rows), inputs.movements);
      MovementErrors(First(Map(RowCurrency, rows)), inputs.movements);
    }
    hide CheckRows;
    hide CheckMovements;
    hide CheckedSum;
  }

  lemma {:induction false} RowErrors(rows: seq<StatementRow>)
    ensures CheckRows(rows).Err? ==> CheckRows(rows).error.InvalidInput?
  {
    if rows != [] {
      RowErrors(rows[..|rows| - 1]);
    }
  }

  lemma {:induction false} MovementErrors(start: Option<string>, movements: seq<Movement>)
    ensures CheckMovements(start, movements).Err? ==> CheckMovements(start, movements).error.InvalidInput?
  {
    if movements != [] {
      MovementErrors(start, movements[..|movements| - 1]);
    }
  }

  /** A date text that distances are measured from: year, month and day with hyphens, within their ranges. The day need
    * not exist in the month. */
  ghost predicate DaySpelled(text: string, year: int, month: int, day: int) {
    && (exists a, b, c :: ThreeNumerals(text, '-', a, b, c, year, month, day, 9223372036854775807))
    && 1 <= month <= 12 && 1 <= day <= 31
  }

  lemma DaySpelledOnce(text: string, year: int, month: int, day: int)
    requires DaySpelled(text, year, month, day)
    ensures DateOrdinal(text) == Some(Ordinal(Date(year, month, day)))
  {
    hide Split;
    hide Ordinal;
    hide ParseI64;
    hide ParseUnsigned;
    hide Numeral;
    var a, b, c :| ThreeNumerals(text, '-', a, b, c, year, month, day, 9223372036854775807);
    NumeralsSplit(text, '-', a, b, c, year, month, day, 9223372036854775807);
    UnsignedParsed(a);
    UnsignedParsed(b);
    UnsignedParsed(c);
    NumeralParsed(a, year, I64_MAX);
    NumeralParsed(b, month, I64_MAX);
    NumeralParsed(c, day, I64_MAX);
  }

  /** A date text has a day number exactly when it spells a day so. */
  lemma DateOrdinalExact(text: string)
    ensures DateOrdinal(text).Some? <==> exists year, month, day :: DaySpelled(text, year, month, day)
  {
    if DateOrdinal(text).Some? {
      hide Split;
      hide Ordinal;
      hide ParseI64;
      hide ParseUnsigned;
      hide Numeral;
      var parts := Split(text, '-');
      ThreePieces(text, '-');
      UnsignedParsed(parts[0]);
      UnsignedParsed(parts[1]);
      UnsignedParsed(parts[2]);
      var year, month, day := ParseI64(parts[0]).value, ParseI64(parts[1]).value, ParseI64(parts[2]).value;
      NumeralParsed(parts[0], year, I64_MAX);
      NumeralParsed(parts[1], month, I64_MAX);
      NumeralParsed(parts[2], day, I64_MAX);
      assert ThreeNumerals(text, '-', parts[0], parts[1], parts[2], year, month, day, 9223372036854775807);
      assert DaySpelled(text, year, month, day);
    }
    if year, month, day :| DaySpelled(text, year, month, day) {
      DaySpelledOnce(text, year, month, day);
    }
  }

  /** Up to this year the day numbers are 64-bit integers. */
  const LAST_YEAR: int := I64_MAX / 366

  lemma OrdinalFits(d: Date)
    requires Valid(d) && 0 <= d.year <= LAST_YEAR
    ensures IsI64(Ordinal(d))
  {
    var adjusted := if d.month <= 2 then d.year - 1 else d.year;
    MarchStartFlat(adjusted);
    hide MarchStart;
    assert LAST_YEAR * 366 <= I64_MAX;
  }

  /**
   The distance of two dates is the true number of days between them, and it is
   refused only when it exceeds `u32`.
   */
  lemma DistanceCountsDays(a: Date, n: nat)
    requires Valid(a) && 0 <= a.year <= LAST_YEAR && 0 <= DaysAfter(a, n).year <= LAST_YEAR
    ensures IsI64(Ordinal(a)) && IsI64(Ordinal(DaysAfter(a, n)))
    ensures
      var b := DaysAfter(a, n);
      && DateDistance(IsoText(a), IsoText(b)) == (if n <= U32_MAX then Ok(n) else Err(ArithmeticOverflow))
      && DateDistance(IsoText(b), IsoText(a)) == DateDistance(IsoText(a), IsoText(b))
  {
    hide Ordinal;
    hide DateOrdinal;
    hide IsoText;
    hide DaysAfter;
    IsoTextOrdinal(a);
    IsoTextOrdinal(DaysAfter(a, n));
    OrdinalDaysAfter(a, n);
    OrdinalFits(a);
    OrdinalFits(DaysAfter(a, n));
  }

  /** The distance is a metric on all texts it accepts. */
  lemma DistanceMetric(x: string, y: string, z: string)
    ensures DateDistance(x, y) == DateDistance(y, x)
    ensures DateDistance(x, y).Ok? && DateDistance(y, z).Ok? && DateDistance(x, z).Ok? ==>
      DateDistance(x, z).value <= DateDistance(x, y).value + DateDistance(y, z).value
  {
    hide DateOrdinal;
  }
}
