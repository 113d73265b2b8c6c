/** Which lines are admitted, as which rows, and why the others are not: field by field. */
module AdmissionRules {
  import opened Wrappers
  import opened Numbers
  import opened Text
  import opened Calendar
  import opened Fields
  import opened AmountText
  import opened StatementData
  import opened Admission
  import opened AdmissionProperties

  // ----- dates

  /** Year, month and day with hyphens, or day, month and year with slashes. */
  ghost predicate DateSpelled(text: string, format: DateFormat, d: Date) {
    match format
    case Iso8601 => exists a, b, c :: ThreeNumerals(text, '-', a, b, c, d.year, d.month, d.day, 4294967295)
    case DayMonthYearSlash => exists a, b, c :: ThreeNumerals(text, '/', a, b, c, d.day, d.month, d.year, 4294967295)
  }

  lemma PartsParsed(text: string, sep: char, x: nat, y: nat, z: nat)
    requires sep == '-' || sep == '/'
    ensures DateParts(text, sep) == Some((x, y, z)) <==>
      exists a, b, c :: ThreeNumerals(text, sep, a, b, c, x, y, z, 4294967295)
  {
    hide Split;
    hide Numeral;
    hide ParseUnsigned;
    if DateParts(text, sep) == Some((x, y, z)) {
      var parts := Split(text, sep);
      NumeralParsed(parts[0], x, U32_MAX);
      NumeralParsed(parts[1], y, U32_MAX);
      NumeralParsed(parts[2], z, U32_MAX);
      ThreePieces(text, sep);
      assert ThreeNumerals(text, sep, parts[0], parts[1], parts[2], x, y, z, 4294967295);
    }
    if a, b, c :| ThreeNumerals(text, sep, a, b, c, x, y, z, 4294967295) {
      NumeralsSplit(text, sep, a, b, c, x, y, z, 4294967295);
      NumeralParsed(a, x, U32_MAX);
      NumeralParsed(b, y, U32_MAX);
      NumeralParsed(c, z, U32_MAX);
    }
  }

  lemma DateParsed(text: string, format: DateFormat, d: Date)
    ensures ParseDate(text, format) == Some(d) <==> DateSpelled(text, format, d)
  {
    hide Numeral;
    if ParseDate(text, format).Some? {
      YearBound(text, format);
    }
    hide DateParts;
    if d.year >= 0 && d.month >= 0 && d.day >= 0 {
      PartsParsed(text, '-', d.year, d.month, d.day);
      PartsParsed(text, '/', d.day, d.month, d.year);
    }
  }

  /** The text spells a calendar date from year one on, of this ISO text. */
  ghost predicate DateReads(text: string, format: DateFormat, iso: string) {
    exists d :: DateSpelled(text, format, d) && Valid(d) && d.year >= 1 && iso == IsoText(d)
  }

  lemma CanonicalDateExact(text: string, format: DateFormat, iso: string)
    ensures CanonicalDate(text, format) == Ok(iso) <==> DateReads(text, format, iso)
    ensures CanonicalDate(text, format).Err? ==> CanonicalDate(text, format) == Err(MissingOrInvalidDate)
  {
    hide ParseDate;
    hide DateSpelled;
    hide IsoText;
    if ParseDate(text, format).Some? {
      YearBound(text, format);
      DateParsed(text, format, ParseDate(text, format).value);
    }
    if d :| DateSpelled(text, format, d) && Valid(d) && d.year >= 1 && iso == IsoText(d) {
      DateParsed(text, format, d);
    }
  }

  // ----- amounts

  /** The trimmed text of a column is an amount of `v`; `debit` turns its sign. */
  ghost predicate ColumnAmount(p: Profile, fields: seq<string>, column: nat, debit: bool, v: int)
    requires p.fractionalDigits <= 2
  {
    && column < |fields|
    && StatementAmount(Trim(fields[column]), p.decimalSeparator as char, p.fractionalDigits, debit, v)
  }

  /** A signed column, or exactly one of a debit and a credit column. */
  ghost predicate AmountReads(p: Profile, fields: seq<string>, v: int)
    requires p.fractionalDigits <= 2
  {
    match p.amount
    case Signed(column) => ColumnAmount(p, fields, column, false, v)
    case DebitCredit(debit, credit) =>
      && debit < |fields| && credit < |fields|
      && if Trim(fields[credit]) == "" then ColumnAmount(p, fields, debit, true, v)
         else Trim(fields[debit]) == "" && ColumnAmount(p, fields, credit, false, v)
  }

  lemma ColumnAmountExact(p: Profile, fields: seq<string>, column: nat, debit: bool, v: int)
    requires p.fractionalDigits <= 2 && p.decimalSeparator as char in {'.', ','} && column < |fields|
    ensures AmountOf(p, Trim(fields[column]), debit) == Ok(v) <==> ColumnAmount(p, fields, column, debit, v)
  {
    hide StatementAmountSpec;
    hide StatementAmount;
    hide Trim;
    StatementAmountExact(Trim(fields[column]), p.decimalSeparator as char, p.fractionalDigits, debit, v);
  }

  lemma AmountNonEmpty(p: Profile, fields: seq<string>, column: nat, debit: bool, v: int)
    requires p.fractionalDigits <= 2 && column < |fields|
    ensures ColumnAmount(p, fields, column, debit, v) ==> Trim(fields[column]) != ""
  {
    hide StatementAmount;
    hide Trim;
    if ColumnAmount(p, fields, column, debit, v) {
      SpelledNonEmpty(Trim(fields[column]), p.decimalSeparator as char, p.fractionalDigits, debit, v);
    }
  }

  /** The amount columns are read as `v` exactly when they say so; both or neither filled is refused. */
  lemma AmountFieldExact(p: Profile, fields: seq<string>, v: int)
    requires p.fractionalDigits <= 2 && p.decimalSeparator as char in {'.', ','}
    ensures AmountField(p, fields) == Ok(v) <==> AmountReads(p, fields, v)
  {
    hide AmountOf;
    hide StatementAmount;
    hide Trim;
    match p.amount
    case Signed(column) =>
      if column < |fields| {
        ColumnAmountExact(p, fields, column, false, v);
      }
    case DebitCredit(debit, credit) =>
      if debit < |fields| && credit < |fields| {
        ColumnAmountExact(p, fields, debit, true, v);
        ColumnAmountExact(p, fields, credit, false, v);
        AmountNonEmpty(p, fields, debit, true, v);
        AmountNonEmpty(p, fields, credit, false, v);
      }
  }

  /** Debit and credit are both filled, or both are empty. */
  predicate BothOrNeither(p: Profile, fields: seq<string>) {
    && p.amount.DebitCredit? && p.amount.debit < |fields| && p.amount.credit < |fields|
    && (Trim(fields[p.amount.debit]) == "" <==> Trim(fields[p.amount.credit]) == "")
  }

  /** The trimmed text of a column is no amount, for this reason. */
  predicate ColumnRefused(p: Profile, fields: seq<string>, column: nat, debit: bool, error: AmountError)
    requires p.fractionalDigits <= 2
  {
    && column < |fields|
    && StatementAmountSpec(Trim(fields[column]), p.decimalSeparator as char, p.fractionalDigits, debit) == Err(error)
  }

  /** The amount columns say no amount, for this reason. */
  predicate AmountRefused(p: Profile, fields: seq<string>, error: AmountError)
    requires p.fractionalDigits <= 2
  {
    match p.amount
    case Signed(column) => ColumnRefused(p, fields, column, false, error)
    case DebitCredit(debit, credit) =>
      && debit < |fields| && credit < |fields|
      && if BothOrNeither(p, fields) then error == AmbiguousSign
         else if Trim(fields[credit]) == "" then ColumnRefused(p, fields, debit, true, error)
         else ColumnRefused(p, fields, credit, false, error)
  }

  lemma AmountFieldRefused(p: Profile, fields: seq<string>)
    requires p.fractionalDigits <= 2
    ensures AmountField(p, fields).Err? ==>
      AmountField(p, fields).error.BadAmount? || AmountField(p, fields).error.MissingColumn?
    ensures forall error :: AmountField(p, fields) == Err(BadAmount(error)) <==> AmountRefused(p, fields, error)
  {
    hide StatementAmountSpec;
    hide Trim;
  }

  // ----- one row

  /** The identity column holds the identity, which is not empty. */
  predicate IdentityReads(p: Profile, fields: seq<string>, identity: string) {
    p.identityColumn < |fields| && identity == Trim(fields[p.identityColumn]) && identity != ""
  }

  ghost predicate DateColumnReads(p: Profile, fields: seq<string>, date: string) {
    p.dateColumn < |fields| && DateReads(Trim(fields[p.dateColumn]), p.dateFormat, date)
  }

  /** Where there is a currency column, it holds the profile's currency. */
  predicate CurrencyReads(p: Profile, fields: seq<string>) {
    match p.currencyColumn
    case None => true
    case Some(column) => column < |fields| && Trim(fields[column]) == p.currency
  }

  /** Where there is a description column, a text that is not empty is the description. */
  predicate DescriptionReads(p: Profile, fields: seq<string>, description: Option<string>) {
    match p.descriptionColumn
    case None => description == None
    case Some(column) =>
      column < |fields| && description == if Trim(fields[column]) == "" then None else Some(Trim(fields[column]))
  }

  /** The fields say this row. */
  ghost predicate FieldsSay(p: Profile, fields: seq<string>, identity: string, date: string, amount: int,
                            description: Option<string>)
    requires p.fractionalDigits <= 2
  {
    && IdentityReads(p, fields, identity) && DateColumnReads(p, fields, date) && CurrencyReads(p, fields)
    && AmountReads(p, fields, amount) && DescriptionReads(p, fields, description)
  }

  /** The row is what the line says, found in this source under this number. */
  ghost predicate LineSays(p: Profile, sourceRef: string, ordinal: nat, raw: string, row: StatementRow)
    requires p.fractionalDigits <= 2
  {
    && SplitLine(raw, p.delimiter as char).Some?
    && FieldsSay(p, SplitLine(raw, p.delimiter as char).value, row.identity, row.date, row.amount, row.description)
    && row.version == 1 && row.currency == p.currency && row.sourceRef == sourceRef && row.ordinal == ordinal
    && row.profileId == p.id && row.original == raw
  }

  /** A line is parsed to a row exactly when its fields say that row and the identity is free. */
  lemma ParseRowExact(p: Profile, sourceRef: string, ordinal: nat, raw: string, taken: set<string>, row: StatementRow)
    requires p.fractionalDigits <= 2 && p.decimalSeparator as char in {'.', ','}
    ensures ParseRow(p, sourceRef, ordinal, raw, taken) == Ok(row) <==>
      LineSays(p, sourceRef, ordinal, raw, row) && row.identity !in taken
  {
    hide SplitLine;
    hide CanonicalDate;
    hide DateReads;
    hide AmountField;
    hide AmountReads;
    hide Trim;
    if SplitLine(raw, p.delimiter as char).Some? {
      var fields := SplitLine(raw, p.delimiter as char).value;
      AmountFieldExact(p, fields, row.amount);
      if p.dateColumn < |fields| {
        CanonicalDateExact(Trim(fields[p.dateColumn]), p.dateFormat, row.date);
      }
    }
  }

  /** The fields up to the date are in order, and the identity is free. */
  ghost predicate DatedFields(p: Profile, fields: seq<string>, taken: set<string>) {
    && (exists identity :: IdentityReads(p, fields, identity) && identity !in taken)
    && exists date :: DateColumnReads(p, fields, date)
  }

  /** Why a line is refused, in the order of the checks. */
  lemma ParseRowRefusals(p: Profile, sourceRef: string, ordinal: nat, raw: string, taken: set<string>)
    requires p.fractionalDigits <= 2
    ensures
      var r := ParseRow(p, sourceRef, ordinal, raw, taken);
      && (r == Err(MalformedRow) <==> Quotes(raw) % 2 == 1)
      && (SplitLine(raw, p.delimiter as char).Some? ==>
            var fields := SplitLine(raw, p.delimiter as char).value;
            var dated := DatedFields(p, fields, taken);
            && (r == Err(MissingSourceIdentity) <==>
              p.identityColumn < |fields| && Trim(fields[p.identityColumn]) == "")
            && (forall x :: r == Err(DuplicateSourceIdentity(x)) <==> IdentityReads(p, fields, x) && x in taken)
            && (r == Err(MissingOrInvalidDate) <==>
                  && (exists identity :: IdentityReads(p, fields, identity) && identity !in taken)
                  && p.dateColumn < |fields| && !exists date :: DateColumnReads(p, fields, date))
            && (forall expected, found :: r == Err(MixedCurrency(expected, found)) <==>
                  && dated && p.currencyColumn.Some? && p.currencyColumn.value < |fields|
                  && found == Trim(fields[p.currencyColumn.value]) != p.currency && expected == p.currency)
            && (forall error :: r == Err(BadAmount(error)) <==>
                  dated && CurrencyReads(p, fields) && AmountRefused(p, fields, error)))
  {
    hide SplitLine;
    hide CanonicalDate;
    hide DateReads;
    hide AmountField;
    hide AmountRefused;
    hide Trim;
    hide Quotes;
    SplitRefusesOddQuotes(raw, p.delimiter as char);
    if SplitLine(raw, p.delimiter as char).Some? {
      var fields := SplitLine(raw, p.delimiter as char).value;
      AmountFieldRefused(p, fields);
      if p.dateColumn < |fields| {
        DateAccepted(p, fields);
      }
    }
  }

  lemma DateAccepted(p: Profile, fields: seq<string>)
    requires p.dateColumn < |fields|
    ensures
      var r := CanonicalDate(Trim(fields[p.dateColumn]), p.dateFormat);
      && (r.Ok? <==> exists date :: DateColumnReads(p, fields, date))
      && (r.Err? ==> r == Err(MissingOrInvalidDate))
  {
    hide CanonicalDate;
    hide DateReads;
    hide Trim;
    var text := Trim(fields[p.dateColumn]);
    if CanonicalDate(text, p.dateFormat).Ok? {
      var date := CanonicalDate(text, p.dateFormat).value;
      CanonicalDateExact(text, p.dateFormat, date);
      assert DateColumnReads(p, fields, date);
    } else {
      CanonicalDateExact(text, p.dateFormat, "");
    }
    if date :| DateColumnReads(p, fields, date) {
      CanonicalDateExact(text, p.dateFormat, date);
    }
  }
}
