/** Rendering records in a profile's layout, and reading them back. */
module Layouts {
  import opened Wrappers
  import opened Numbers
  import opened Sequences
  import opened Text
  import opened Calendar
  import opened Fields
  import opened AmountText
  import opened StatementData
  import opened Admission

  /** The dates a statement can carry. */
  type StatementDate = d: Date | Valid(d) && 1 <= d.year <= U32_MAX witness Date(1, 1, 1)

  /** What a statement says, whatever its layout. */
  datatype Entry = Entry(id: string, date: StatementDate, amount: i64, description: string)

  // ----- rendering values

  /** An amount's magnitude with the declared number of fractional digits. */
  function NumberText(m: nat, separator: char, digits: nat): string
    requires digits <= 2
  {
    Print(m / 100) + (if digits == 0 then "" else [separator] + FractionText(m, digits))
  }

  function DateText(d: Date, format: DateFormat): string
    requires d.year >= 0 && d.month >= 0 && d.day >= 0
  {
    match format
    case Iso8601 => IsoText(d)
    case DayMonthYearSlash => Padded(d.day, 2) + ['/'] + Padded(d.month, 2) + ['/'] + Padded(d.year, 4)
  }

  function Magnitude(amount: i64): nat {
    if amount < 0 then -(amount as int) else amount as int
  }

  function AmountNumber(p: Profile, amount: i64): string
    requires p.fractionalDigits <= 2
  {
    NumberText(Magnitude(amount), p.decimalSeparator as char, p.fractionalDigits)
  }

  // ----- rendering lines

  /** What the profile expects in a column; absent for columns it does not name. */
  function Cell(p: Profile, e: Entry, column: nat): Option<string>
    requires p.fractionalDigits <= 2
  {
    if column == p.identityColumn then Some(e.id)
    else if column == p.dateColumn then Some(DateText(e.date, p.dateFormat))
    else if p.amount.Signed? && column == p.amount.column then
      Some((if e.amount < 0 then "-" else "") + AmountNumber(p, e.amount))
    else if p.amount.DebitCredit? && column == p.amount.debit then
      Some(if e.amount < 0 then AmountNumber(p, e.amount) else "")
    else if p.amount.DebitCredit? && column == p.amount.credit then
      Some(if e.amount < 0 then "" else AmountNumber(p, e.amount))
    else if p.currencyColumn == Some(column) then Some(p.currency)
    else if p.descriptionColumn == Some(column) then Some(e.description)
    else None
  }

  function Columns(p: Profile): seq<nat> {
    [p.identityColumn, p.dateColumn]
    + (match p.amount case Signed(c) => [c] case DebitCredit(d, c) => [d, c])
    + (if p.currencyColumn.Some? then [p.currencyColumn.value] else [])
    + (if p.descriptionColumn.Some? then [p.descriptionColumn.value] else [])
  }

  /** A valid profile with distinct columns; a currency that stands in a column is trimmed and on one line. */
  ghost predicate Usable(p: Profile) {
    && ValidateProfile(p).Ok? && p.fractionalDigits <= 2 && NoDup(Columns(p))
    && (p.currencyColumn.Some? ==> Trimmed(p.currency) && OneLine(p.currency))
  }

  /** The magnitude needs no more fractional digits than there are. */
  predicate Representable(m: nat, digits: nat)
    requires digits <= 2
  {
    m % Scale(2 - digits) == 0
  }

  /** A record with a trimmed identity, an amount the profile can express, and a description that is trimmed and on
    * one line where the profile has a column for it. */
  ghost predicate Expressible(p: Profile, e: Entry)
    requires p.fractionalDigits <= 2
  {
    && e.id != "" && Trimmed(e.id) && OneLine(e.id)
    && e.amount > I64_MIN && Representable(Magnitude(e.amount), p.fractionalDigits)
    && (p.descriptionColumn.Some? ==> Trimmed(e.description) && OneLine(e.description))
  }

  predicate OneLine(s: string) {
    '\n' !in s && (s == "" || s[|s| - 1] != '\r')
  }

  /** A rendering: what stands in unnamed columns, and which fields are enclosed in quotes. */
  datatype Rendering = Rendering(filler: seq<string>, enclosed: seq<bool>)

  function FieldsOf(p: Profile, e: Entry, filler: seq<string>): (fields: seq<string>)
    requires p.fractionalDigits <= 2
    ensures |fields| == |filler|
    ensures forall i :: 0 <= i < |filler| ==>
      fields[i] == if Cell(p, e, i).Some? then Cell(p, e, i).value else filler[i]
  {
    seq(|filler|, i requires 0 <= i < |filler| => if Cell(p, e, i).Some? then Cell(p, e, i).value else filler[i])
  }

  ghost predicate Renders(p: Profile, e: Entry, r: Rendering)
    requires p.fractionalDigits <= 2
  {
    && (forall c :: c in Columns(p) ==> c < |r.filler|)
    && (forall i :: 0 <= i < |r.filler| ==> OneLine(r.filler[i]))
    && RenderableLine(FieldsOf(p, e, r.filler), r.enclosed, p.delimiter as char)
  }

  function LineOf(p: Profile, e: Entry, r: Rendering): string
    requires p.fractionalDigits <= 2
    requires r.filler != [] && |r.enclosed| == |r.filler|
  {
    RenderLine(FieldsOf(p, e, r.filler), r.enclosed, p.delimiter as char)
  }

  // ----- values read back

  lemma PlainEnds(s: string)
    requires s != "" && (IsDigit(s[0]) || s[0] == '-') && IsDigit(s[|s| - 1])
    ensures Trimmed(s)
  {
  }

  /** The fractional digits of a number. */
  function FractionText(m: nat, digits: nat): (s: string)
    requires digits <= 2
    ensures AllDigits(s) && |s| == digits
    ensures Value(s) == (if digits == 0 then 0 else if digits == 1 then m % 100 / 10 else m % 100)
  {
    assert Pow10(2) == 100;
    if digits == 0 then ""
    else if digits == 1 then
      var s := [Digit(m % 100 / 10)];
      assert s[..0] == "";
      s
    else Padded(m % 100, 2)
  }

  lemma NumberTextCharacters(m: nat, separator: char, digits: nat)
    requires digits <= 2 && (separator == '.' || separator == ',')
    ensures
      var s := NumberText(m, separator, digits);
      && s != "" && IsDigit(s[0]) && IsDigit(s[|s| - 1]) && !HasParenthesis(s) && '\n' !in s
  {
    hide Print;
    hide Value;
    hide FractionText;
  }

  lemma NumberTextShape(m: nat, separator: char, digits: nat)
    requires digits <= 2 && (separator == '.' || separator == ',')
    ensures
      var s := NumberText(m, separator, digits);
      && Decimal(s, separator)
      && Whole(s, separator) == Print(m / 100) && Fraction(s, separator) == FractionText(m, digits)
  {
    hide Split;
    hide Print;
    hide Value;
    hide FractionText;
    var whole, fraction := Print(m / 100), FractionText(m, digits);
    if digits == 0 {
      SplitFree(whole, separator);
      assert whole + "" == whole;
    } else {
      SplitFree(fraction, separator);
      SplitAt(whole, fraction, separator);
      assert NumberText(m, separator, digits) == whole + [separator] + fraction;
    }
  }

  lemma HundredthsOf(m: nat, digits: nat, whole: string, fraction: string)
    requires digits <= 2 && Representable(m, digits)
    requires AllDigits(whole) && Value(whole) == m / 100
    requires AllDigits(fraction) && |fraction| == digits
    requires Value(fraction) == (if digits == 0 then 0 else if digits == 1 then m % 100 / 10 else m % 100)
    ensures Hundredths(whole, fraction) == m
  {
  }

  /** A number is read back, with the sign that its column or its minus gives it. */
  lemma NumberParses(m: nat, separator: char, digits: nat, negate: bool)
    requires digits <= 2 && (separator == '.' || separator == ',')
    requires m <= I64_MAX && Representable(m, digits)
    ensures
      var s := NumberText(m, separator, digits);
      && StatementAmountSpec(s, separator, digits, negate) == Ok(WithSign(negate, m))
      && StatementAmountSpec("-" + s, separator, digits, false) == Ok(WithSign(true, m))
  {
    hide Split;
    hide Print;
    hide Value;
    hide ByteLength;
    hide Decimal;
    hide Whole;
    hide Fraction;
    var s := NumberText(m, separator, digits);
    NumberTextCharacters(m, separator, digits);
    NumberTextShape(m, separator, digits);
    hide NumberText;
    HundredthsOf(m, digits, Whole(s, separator), Fraction(s, separator));
    assert Unsigned(s) == s;
    assert ("-" + s)[1..] == s;
    assert !HasParenthesis("-" + s);
  }

  lemma DateTextEnds(d: Date, format: DateFormat)
    requires Valid(d) && 1 <= d.year <= U32_MAX
    ensures Trimmed(DateText(d, format)) && OneLine(DateText(d, format)) && DateText(d, format) != ""
  {
    hide Padded;
    PlainEnds(DateText(d, format));
  }

  lemma DateParses(d: Date, format: DateFormat)
    requires Valid(d) && 1 <= d.year <= U32_MAX
    ensures CanonicalDate(DateText(d, format), format) == Ok(IsoText(d))
    ensures Trimmed(DateText(d, format)) && OneLine(DateText(d, format)) && DateText(d, format) != ""
  {
    hide Split;
    hide Padded;
    hide ParseUnsigned;
    DateTextEnds(d, format);
    var y, m, n := Padded(d.year, 4), Padded(d.month, 2), Padded(d.day, 2);
    ParsePadded(d.year, 4, U32_MAX);
    ParsePadded(d.month, 2, U32_MAX);
    ParsePadded(d.day, 2, U32_MAX);
    match format
    case Iso8601 =>
      IsoTextSplits(d);
      hide IsoText;
      assert DateParts(IsoText(d), '-') == Some((d.year as nat, d.month as nat, d.day as nat));
    case DayMonthYearSlash =>
      SplitThree(n, m, y, '/');
      hide IsoText;
  }

  // ----- rows read back

  lemma {:induction false} FieldAt(p: Profile, e: Entry, filler: seq<string>, column: nat)
    requires p.fractionalDigits <= 2
    requires column < |filler| && Cell(p, e, column).Some? && Trimmed(Cell(p, e, column).value)
    ensures Field(FieldsOf(p, e, filler), column) == Ok(Cell(p, e, column).value)
  {
    hide Cell;
    TrimTrimmed(Cell(p, e, column).value);
  }

  lemma ColumnsDistinct(p: Profile)
    requires NoDup(Columns(p))
    ensures p.identityColumn != p.dateColumn
    ensures match p.amount
      case Signed(c) => c != p.identityColumn && c != p.dateColumn
      case DebitCredit(d, c) =>
        d != c && d != p.identityColumn && d != p.dateColumn && c != p.identityColumn && c != p.dateColumn
    ensures p.currencyColumn.Some? ==>
      var k := p.currencyColumn.value;
      && k != p.identityColumn && k != p.dateColumn
      && (p.amount.Signed? ==> k != p.amount.column)
      && (p.amount.DebitCredit? ==> k != p.amount.debit && k != p.amount.credit)
    ensures p.descriptionColumn.Some? ==>
      var k := p.descriptionColumn.value;
      && k != p.identityColumn && k != p.dateColumn && p.currencyColumn != Some(k)
      && (p.amount.Signed? ==> k != p.amount.column)
      && (p.amount.DebitCredit? ==> k != p.amount.debit && k != p.amount.credit)
  {
    var cs := Columns(p);
    assert cs[0] == p.identityColumn && cs[1] == p.dateColumn;
    match p.amount
    case Signed(c) =>
      assert cs[2] == c;
      assert p.currencyColumn.Some? ==> cs[3] == p.currencyColumn.value;
      assert p.descriptionColumn.Some? ==> cs[|cs| - 1] == p.descriptionColumn.value;
    case DebitCredit(d, c) =>
      assert cs[2] == d && cs[3] == c;
      assert p.currencyColumn.Some? ==> cs[4] == p.currencyColumn.value;
      assert p.descriptionColumn.Some? ==> cs[|cs| - 1] == p.descriptionColumn.value;
  }

  /** What each named column holds. */
  lemma CellsOf(p: Profile, e: Entry)
    requires p.fractionalDigits <= 2 && NoDup(Columns(p))
    ensures Cell(p, e, p.identityColumn) == Some(e.id)
    ensures Cell(p, e, p.dateColumn) == Some(DateText(e.date, p.dateFormat))
    ensures match p.amount
      case Signed(c) => Cell(p, e, c) == Some((if e.amount < 0 then "-" else "") + AmountNumber(p, e.amount))
      case DebitCredit(d, c) =>
        && Cell(p, e, d) == Some(if e.amount < 0 then AmountNumber(p, e.amount) else "")
        && Cell(p, e, c) == Some(if e.amount < 0 then "" else AmountNumber(p, e.amount))
    ensures p.currencyColumn.Some? ==> Cell(p, e, p.currencyColumn.value) == Some(p.currency)
    ensures p.descriptionColumn.Some? ==> Cell(p, e, p.descriptionColumn.value) == Some(e.description)
  {
    hide DateText;
    hide AmountNumber;
    hide NoDup;
    ColumnsDistinct(p);
    hide Columns;
  }

  lemma ColumnsWithin(p: Profile, n: nat)
    requires forall c :: c in Columns(p) ==> c < n
    ensures p.identityColumn < n && p.dateColumn < n
    ensures p.amount.Signed? ==> p.amount.column < n
    ensures p.amount.DebitCredit? ==> p.amount.debit < n && p.amount.credit < n
    ensures p.currencyColumn.Some? ==> p.currencyColumn.value < n
    ensures p.descriptionColumn.Some? ==> p.descriptionColumn.value < n
  {
    var cs := Columns(p);
    assert cs[0] in cs && cs[1] in cs && cs[2] in cs;
    assert p.amount.DebitCredit? ==> cs[3] in cs;
    assert p.currencyColumn.Some? ==> p.currencyColumn.value in cs;
    assert p.descriptionColumn.Some? ==> cs[|cs| - 1] in cs;
  }

  lemma NumberTrimmed(p: Profile, amount: i64)
    requires p.fractionalDigits <= 2 && p.decimalSeparator as char in {'.', ','}
    ensures Trimmed(AmountNumber(p, amount)) && Trimmed("-" + AmountNumber(p, amount)) && AmountNumber(p, amount) != ""
    ensures OneLine(AmountNumber(p, amount)) && OneLine("-" + AmountNumber(p, amount))
  {
    NumberTextCharacters(Magnitude(amount), p.decimalSeparator as char, p.fractionalDigits);
    hide NumberText;
    var s := AmountNumber(p, amount);
    PlainEnds(s);
    PlainEnds("-" + s);
  }

  lemma AmountOfNumber(p: Profile, amount: i64)
    requires ValidateProfile(p).Ok? && amount > I64_MIN
    requires Representable(Magnitude(amount), p.fractionalDigits)
    ensures amount >= 0 ==> AmountOf(p, AmountNumber(p, amount), false) == Ok(amount)
    ensures amount < 0 ==> AmountOf(p, "-" + AmountNumber(p, amount), false) == Ok(amount)
    ensures amount < 0 ==> AmountOf(p, AmountNumber(p, amount), true) == Ok(amount)
  {
    hide StatementAmountSpec;
    hide NumberText;
    hide Representable;
    assert IsI64(amount);
    NumberParses(Magnitude(amount), p.decimalSeparator as char, p.fractionalDigits, false);
    NumberParses(Magnitude(amount), p.decimalSeparator as char, p.fractionalDigits, true);
  }

  lemma SignedReadBack(p: Profile, fields: seq<string>, c: nat, amount: i64)
    requires p.fractionalDigits <= 2 && p.amount == Signed(c)
    requires Field(fields, c) == Ok((if amount < 0 then "-" else "") + AmountNumber(p, amount))
    requires amount >= 0 ==> AmountOf(p, AmountNumber(p, amount), false) == Ok(amount)
    requires amount < 0 ==> AmountOf(p, "-" + AmountNumber(p, amount), false) == Ok(amount)
    ensures AmountField(p, fields) == Ok(amount)
  {
    hide Field;
    hide AmountOf;
    hide AmountNumber;
    assert "" + AmountNumber(p, amount) == AmountNumber(p, amount);
  }

  lemma DebitCreditReadBack(p: Profile, fields: seq<string>, d: nat, c: nat, amount: i64)
    requires p.fractionalDigits <= 2 && p.amount == DebitCredit(d, c) && AmountNumber(p, amount) != ""
    requires Field(fields, d) == Ok(if amount < 0 then AmountNumber(p, amount) else "")
    requires Field(fields, c) == Ok(if amount < 0 then "" else AmountNumber(p, amount))
    requires amount >= 0 ==> AmountOf(p, AmountNumber(p, amount), false) == Ok(amount)
    requires amount < 0 ==> AmountOf(p, AmountNumber(p, amount), true) == Ok(amount)
    ensures AmountField(p, fields) == Ok(amount)
  {
    hide Field;
    hide AmountOf;
    hide AmountNumber;
  }

  lemma EmptyTrimmed()
    ensures Trimmed("")
  {
  }

  lemma UsableDigits(p: Profile)
    requires ValidateProfile(p).Ok?
    ensures p.fractionalDigits <= 2 && p.decimalSeparator as char in {'.', ','}
  {
  }

  lemma SignedColumn(p: Profile, e: Entry, filler: seq<string>)
    requires Usable(p) && Expressible(p, e) && p.amount.Signed?
    requires forall c :: c in Columns(p) ==> c < |filler|
    ensures AmountField(p, FieldsOf(p, e, filler)) == Ok(e.amount)
  {
    hide Cell;
    hide AmountNumber;
    hide AmountOf;
    hide AmountField;
    hide Columns;
    hide NoDup;
    hide Representable;
    hide Magnitude;
    hide Field;
    hide FieldsOf;
    hide Trimmed;
    hide OneLine;
    hide ValidateProfile;
    UsableDigits(p);
    CellsOf(p, e);
    ColumnsWithin(p, |filler|);
    NumberTrimmed(p, e.amount);
    AmountOfNumber(p, e.amount);
    assert "" + AmountNumber(p, e.amount) == AmountNumber(p, e.amount);
    FieldAt(p, e, filler, p.amount.column);
    SignedReadBack(p, FieldsOf(p, e, filler), p.amount.column, e.amount);
  }

  lemma DebitCreditColumns(p: Profile, e: Entry, filler: seq<string>)
    requires Usable(p) && Expressible(p, e) && p.amount.DebitCredit?
    requires forall c :: c in Columns(p) ==> c < |filler|
    ensures AmountField(p, FieldsOf(p, e, filler)) == Ok(e.amount)
  {
    hide Cell;
    hide AmountNumber;
    hide AmountOf;
    hide AmountField;
    hide Columns;
    hide NoDup;
    hide Representable;
    hide Magnitude;
    hide Field;
    hide FieldsOf;
    hide Trimmed;
    hide OneLine;
    hide ValidateProfile;
    UsableDigits(p);
    CellsOf(p, e);
    ColumnsWithin(p, |filler|);
    NumberTrimmed(p, e.amount);
    AmountOfNumber(p, e.amount);
    EmptyTrimmed();
    FieldAt(p, e, filler, p.amount.debit);
    FieldAt(p, e, filler, p.amount.credit);
    DebitCreditReadBack(p, FieldsOf(p, e, filler), p.amount.debit, p.amount.credit, e.amount);
  }

  /** The amount columns are read back as the amount. */
  lemma AmountReadBack(p: Profile, e: Entry, filler: seq<string>)
    requires Usable(p) && Expressible(p, e)
    requires forall c :: c in Columns(p) ==> c < |filler|
    ensures AmountField(p, FieldsOf(p, e, filler)) == Ok(e.amount)
  {
    if p.amount.Signed? {
      SignedColumn(p, e, filler);
    } else {
      DebitCreditColumns(p, e, filler);
    }
  }

  /** The row that an entry becomes. */
  function RowOf(p: Profile, sourceRef: string, ordinal: nat, raw: string, e: Entry): StatementRow
  {
    StatementRow(
      ROW_VERSION, IsoText(e.date), e.amount, p.currency,
      if p.descriptionColumn.None? || e.description == "" then None else Some(e.description),
      e.id, sourceRef, ordinal, p.id, raw)
  }

  /** A rendered entry with a free identity is read back as itself. */
  lemma RowReadBack(p: Profile, sourceRef: string, ordinal: nat, e: Entry, r: Rendering, taken: set<string>)
    requires Usable(p) && Expressible(p, e) && Renders(p, e, r) && e.id !in taken
    ensures ParseRow(p, sourceRef, ordinal, LineOf(p, e, r), taken)
         == Ok(RowOf(p, sourceRef, ordinal, LineOf(p, e, r), e))
  {
    hide Cell;
    hide AmountField;
    hide CanonicalDate;
    hide DateText;
    hide IsoText;
    hide NoDup;
    hide Fields.SplitLine;
    hide Fields.RenderLine;
    hide Columns;
    var fields := FieldsOf(p, e, r.filler);
    SplitRoundTrip(fields, r.enclosed, p.delimiter as char);
    CellsOf(p, e);
    ColumnsWithin(p, |r.filler|);
    DateParses(e.date, p.dateFormat);
    FieldAt(p, e, r.filler, p.identityColumn);
    FieldAt(p, e, r.filler, p.dateColumn);
    AmountReadBack(p, e, r.filler);
    if p.currencyColumn.Some? {
      FieldAt(p, e, r.filler, p.currencyColumn.value);
    }
    if p.descriptionColumn.Some? {
      FieldAt(p, e, r.filler, p.descriptionColumn.value);
    }
  }
}
