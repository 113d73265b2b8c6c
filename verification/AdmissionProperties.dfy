/** What admission guarantees about its rows, its rejections and its snapshot. */
module AdmissionProperties {
  import opened Wrappers
  import opened Numbers
  import opened Sequences
  import opened Text
  import opened Calendar
  import opened StatementData
  import opened Admission
  import opened Evidence

  // ----- one row

  lemma CanonicalDateFacts(text: string, format: DateFormat) returns (d: Date)
    requires CanonicalDate(text, format).Ok?
    ensures Valid(d) && 1 <= d.year <= U32_MAX && CanonicalDate(text, format).value == IsoText(d)
  {
    hide IsoText;
    d := ParseDate(text, format).value;
    YearBound(text, format);
  }

  lemma YearBound(text: string, format: DateFormat)
    requires ParseDate(text, format).Some?
    ensures var d := ParseDate(text, format).value; 0 <= d.year <= U32_MAX && d.month >= 0 && d.day >= 0
  {
  }

  /** An admitted row has a fresh identity, the profile's currency and a canonical date. */
  lemma ParseRowFacts(p: Profile, sourceRef: string, ordinal: nat, raw: string, taken: set<string>) returns (d: Date)
    requires p.fractionalDigits <= 2 && ParseRow(p, sourceRef, ordinal, raw, taken).Ok?
    ensures
      var row := ParseRow(p, sourceRef, ordinal, raw, taken).value;
      && row.identity != "" && row.identity !in taken
      && row.currency == p.currency && row.ordinal == ordinal && row.original == raw
      && Valid(d) && 1 <= d.year <= U32_MAX && row.date == IsoText(d)
  {
    hide CanonicalDate;
    hide IsoText;
    var fields := Fields.SplitLine(raw, p.delimiter as char).value;
    var dateText := Field(fields, p.dateColumn).value;
    d := CanonicalDateFacts(dateText, p.dateFormat);
  }

  // ----- accounting

  /** A line with its ordinal. */
  datatype Record = Record(ordinal: nat, raw: string)

  function RowRecord(row: StatementRow): Record { Record(row.ordinal, row.original) }
  function RejectedRecord(r: Rejected): Record { Record(r.ordinal, r.original) }

  /** The non-empty lines. */
  function NonEmpty(lines: seq<string>): seq<Record> {
    if lines == [] then [] else
    var raw := DropReturn(lines[|lines| - 1]);
    NonEmpty(lines[..|lines| - 1]) + (if raw == "" then [] else [Record(|lines|, raw)])
  }

  /** The non-empty lines behind the header. */
  function Body(p: Profile, lines: seq<string>): seq<Record> {
    if p.hasHeader && NonEmpty(lines) != [] then NonEmpty(lines)[1..] else NonEmpty(lines)
  }

  predicate OrdinalsAscend(records: seq<Record>, below: nat) {
    && (forall i :: 0 <= i < |records| ==> records[i].ordinal <= below)
    && (forall i, j :: 0 <= i < j < |records| ==> records[i].ordinal < records[j].ordinal)
  }

  lemma OrdinalsAppend(records: seq<Record>, below: nat, raw: string)
    requires OrdinalsAscend(records, below)
    ensures OrdinalsAscend(records, below + 1)
    ensures OrdinalsAscend(records + [Record(below + 1, raw)], below + 1)
  {
  }

  /** The running account: each body line is either a row or a rejection. */
  ghost predicate Accounted(p: Profile, lines: seq<string>, st: State) {
    && st.headerPending == (p.hasHeader && NonEmpty(lines) == [])
    && multiset(Map(RowRecord, st.rows)) + multiset(Map(RejectedRecord, st.rejected)) == multiset(Body(p, lines))
    && OrdinalsAscend(Map(RowRecord, st.rows), |lines|)
    && OrdinalsAscend(Map(RejectedRecord, st.rejected), |lines|)
    && OrdinalsAscend(Body(p, lines), |lines|)
  }

  lemma NonEmptyStep(lines: seq<string>, line: string)
    ensures NonEmpty(lines + [line]) ==
      NonEmpty(lines) + if DropReturn(line) == "" then [] else [Record(|lines| + 1, DropReturn(line))]
  {
    hide DropReturn;
    assert (lines + [line])[..|lines + [line]| - 1] == lines;
  }

  lemma BodyStep(p: Profile, lines: seq<string>, line: string)
    ensures
      var raw := DropReturn(line);
      && (raw == "" ==> NonEmpty(lines + [line]) == NonEmpty(lines) && Body(p, lines + [line]) == Body(p, lines))
      && (raw != "" ==> NonEmpty(lines + [line]) != [])
      && (raw != "" && p.hasHeader && NonEmpty(lines) == [] ==> Body(p, lines + [line]) == Body(p, lines) == [])
      && (raw != "" && !(p.hasHeader && NonEmpty(lines) == []) ==>
            Body(p, lines + [line]) == Body(p, lines) + [Record(|lines| + 1, raw)])
  {
    NonEmptyStep(lines, line);
    hide NonEmpty;
    hide DropReturn;
    assert NonEmpty(lines) + [] == NonEmpty(lines);
  }

  lemma AccountRow(p: Profile, lines: seq<string>, line: string, st: State, after: State, row: StatementRow)
    requires Accounted(p, lines, st) && !st.headerPending && DropReturn(line) != ""
    requires RowRecord(row) == Record(|lines| + 1, DropReturn(line))
    requires after.rows == st.rows + [row] && after.rejected == st.rejected && !after.headerPending
    ensures Accounted(p, lines + [line], after)
  {
    hide Body;
    hide NonEmpty;
    hide OrdinalsAscend;
    BodyStep(p, lines, line);
    MapSnoc(RowRecord, st.rows, row);
    OrdinalsAppend(Map(RowRecord, st.rows), |lines|, DropReturn(line));
    OrdinalsAppend(Map(RejectedRecord, st.rejected), |lines|, DropReturn(line));
    OrdinalsAppend(Body(p, lines), |lines|, DropReturn(line));
  }

  lemma AccountRejection(p: Profile, lines: seq<string>, line: string, st: State, after: State, rejection: Rejected)
    requires Accounted(p, lines, st) && !st.headerPending && DropReturn(line) != ""
    requires RejectedRecord(rejection) == Record(|lines| + 1, DropReturn(line))
    requires after.rows == st.rows && after.rejected == st.rejected + [rejection] && !after.headerPending
    ensures Accounted(p, lines + [line], after)
  {
    hide Body;
    hide NonEmpty;
    hide OrdinalsAscend;
    BodyStep(p, lines, line);
    MapSnoc(RejectedRecord, st.rejected, rejection);
    OrdinalsAppend(Map(RowRecord, st.rows), |lines|, DropReturn(line));
    OrdinalsAppend(Map(RejectedRecord, st.rejected), |lines|, DropReturn(line));
    OrdinalsAppend(Body(p, lines), |lines|, DropReturn(line));
  }

  lemma AccountNothing(p: Profile, lines: seq<string>, line: string, st: State)
    requires Accounted(p, lines, st) && (DropReturn(line) == "" || st.headerPending)
    ensures Accounted(p, lines + [line], if DropReturn(line) == "" then st else st.(headerPending := false))
  {
    hide Body;
    hide NonEmpty;
    hide OrdinalsAscend;
    BodyStep(p, lines, line);
    OrdinalsAppend(Map(RowRecord, st.rows), |lines|, DropReturn(line));
    OrdinalsAppend(Map(RejectedRecord, st.rejected), |lines|, DropReturn(line));
    OrdinalsAppend(Body(p, lines), |lines|, DropReturn(line));
  }

  lemma StepAccounted(p: Profile, sourceRef: string, lines: seq<string>, line: string, st: State)
    requires p.fractionalDigits <= 2 && Accounted(p, lines, st)
    ensures Accounted(p, lines + [line], Step(p, sourceRef, st, |lines|, line))
  {
    hide ParseRow;
    hide Accounted;
    hide DropReturn;
    var raw, n := DropReturn(line), |lines|;
    var after := Step(p, sourceRef, st, n, line);
    if raw == "" || st.headerPending {
      AccountNothing(p, lines, line, st);
    } else if |after.rejected| > |st.rejected| {
      AccountRejection(p, lines, line, st, after, after.rejected[|st.rejected|]);
    } else {
      var d := ParseRowFacts(p, sourceRef, n + 1, raw, st.taken);
      AccountRow(p, lines, line, st, after, after.rows[|st.rows|]);
    }
  }

  /**
   Every non-empty line behind the header is accounted for once: it is a row or a
   rejection, with its own ordinal and bytes, and both lists are in line order.
   */
  lemma {:induction false} RunAccounted(p: Profile, sourceRef: string, lines: seq<string>)
    requires p.fractionalDigits <= 2
    ensures Accounted(p, lines, Run(p, sourceRef, lines))
  {
    hide Step;
    hide Accounted;
    if lines == [] {
      NothingAccounted(p);
    } else {
      var init, last := lines[..|lines| - 1], lines[|lines| - 1];
      assert lines == init + [last];
      RunAccounted(p, sourceRef, init);
      StepAccounted(p, sourceRef, init, last, Run(p, sourceRef, init));
    }
  }

  lemma NothingAccounted(p: Profile)
    ensures Accounted(p, [], Start(p))
  {
    assert Body(p, []) == [] && Map(RowRecord, []) == [] && Map(RejectedRecord, []) == [];
  }

  // ----- refused lines are inert

  /** The states differ at most in what they have rejected. */
  predicate SameAccepted(a: State, b: State) {
    a.rows == b.rows && a.taken == b.taken && a.total == b.total && a.headerPending == b.headerPending
  }

  lemma StepSame(p: Profile, sourceRef: string, a: State, b: State, index: nat, line: string)
    requires p.fractionalDigits <= 2 && SameAccepted(a, b)
    ensures SameAccepted(Step(p, sourceRef, a, index, line), Step(p, sourceRef, b, index, line))
  {
    hide ParseRow;
  }

  /** Line `i` reaches the row parser, and the row parser refuses it. */
  predicate Refuses(p: Profile, sourceRef: string, lines: seq<string>, i: nat)
    requires p.fractionalDigits <= 2 && i < |lines|
  {
    var st := Run(p, sourceRef, lines[..i]);
    var raw := DropReturn(lines[i]);
    raw != "" && !st.headerPending && ParseRow(p, sourceRef, i + 1, raw, st.taken).Err?
  }

  lemma RunLast(p: Profile, sourceRef: string, lines: seq<string>)
    requires p.fractionalDigits <= 2 && lines != []
    ensures Run(p, sourceRef, lines) ==
      Step(p, sourceRef, Run(p, sourceRef, lines[..|lines| - 1]), |lines| - 1, lines[|lines| - 1])
  {
    hide Step;
  }

  lemma EmptyInert(p: Profile, sourceRef: string, st: State, index: nat, line: string)
    requires p.fractionalDigits <= 2 && DropReturn(line) != "" && !st.headerPending
    requires ParseRow(p, sourceRef, index + 1, DropReturn(line), st.taken).Err?
    ensures SameAccepted(Step(p, sourceRef, st, index, line), Step(p, sourceRef, st, index, ""))
  {
    hide ParseRow;
  }

  /** Emptying a refused line changes nothing but the list of rejections. */
  lemma {:induction false} RefusedInert(p: Profile, sourceRef: string, lines: seq<string>, i: nat)
    requires p.fractionalDigits <= 2 && i < |lines| && Refuses(p, sourceRef, lines, i)
    ensures SameAccepted(Run(p, sourceRef, lines), Run(p, sourceRef, lines[i := ""]))
  {
    hide Step;
    hide ParseRow;
    hide Run;
    hide DropReturn;
    hide SameAccepted;
    var init, n := lines[..|lines| - 1], |lines| - 1;
    var other := lines[i := ""];
    RunLast(p, sourceRef, lines);
    RunLast(p, sourceRef, other);
    if i == n {
      assert other[..n] == init;
      EmptyInert(p, sourceRef, Run(p, sourceRef, init), n, lines[n]);
    } else {
      assert init[..i] == lines[..i];
      RefusedInert(p, sourceRef, init, i);
      assert other[..n] == init[i := ""];
      StepSame(p, sourceRef, Run(p, sourceRef, init), Run(p, sourceRef, other[..n]), n, lines[n]);
    }
  }

  /** The same for whole statements. */
  lemma RefusedInertSnapshot(p: Profile, sourceRef: string, cutoff: string, text: string, other: string,
                             balances: seq<LedgerBalance>, i: nat)
    requires AdmitSpec(p, sourceRef, cutoff, Some(text), balances).Ok?
    requires i < |Lines(text)| && Lines(other) == Lines(text)[i := ""]
    requires Refuses(p, sourceRef, Lines(text), i)
    ensures AdmitSpec(p, sourceRef, cutoff, Some(other), balances).Ok?
    ensures AdmitSpec(p, sourceRef, cutoff, Some(other), balances).value.snapshot
         == AdmitSpec(p, sourceRef, cutoff, Some(text), balances).value.snapshot
  {
    hide Lines;
    hide Run;
    RefusedInert(p, sourceRef, Lines(text), i);
  }

  /**
   A rejected line leaves the taken identities alone exactly when the row parser refused
   it: a row rejected because the running total overflows has reserved its identity.
   */
  lemma RejectionReserves(p: Profile, sourceRef: string, lines: seq<string>, i: nat)
    requires p.fractionalDigits <= 2 && i < |lines|
    requires |Run(p, sourceRef, lines[..i + 1]).rejected| > |Run(p, sourceRef, lines[..i]).rejected|
    ensures Run(p, sourceRef, lines[..i + 1]).taken == Run(p, sourceRef, lines[..i]).taken <==>
      Refuses(p, sourceRef, lines, i)
  {
    var st, raw := Run(p, sourceRef, lines[..i]), DropReturn(lines[i]);
    RunLast(p, sourceRef, lines[..i + 1]);
    assert lines[..i + 1][..i] == lines[..i];
    hide Run;
    hide ParseRow;
    hide DropReturn;
    if ParseRow(p, sourceRef, i + 1, raw, st.taken).Ok? {
      var d := ParseRowFacts(p, sourceRef, i + 1, raw, st.taken);
    }
  }

  // ----- the snapshot passes the reconciliation's validator

  /** What admission keeps about its rows. */
  ghost predicate Sound(p: Profile, st: State) {
    && NoDup(Map(Identity, st.rows)) && Elements(Map(Identity, st.rows)) <= st.taken
    && CheckedSum(Map(RowAmount, st.rows)) == Some(st.total)
    && (forall row :: row in st.rows ==> SoundRow(p, row))
  }

  ghost predicate SoundRow(p: Profile, row: StatementRow) {
    row.identity != "" && row.currency == p.currency && CanonicalText(row.date)
  }

  ghost predicate CanonicalText(text: string) {
    exists d :: Valid(d) && 1 <= d.year <= U32_MAX && text == IsoText(d)
  }

  lemma AppendSound(p: Profile, st: State, row: StatementRow, taken: set<string>)
    requires Sound(p, st) && SoundRow(p, row) && row.identity !in st.taken && taken == st.taken + {row.identity}
    requires IsI64(st.total + row.amount)
    ensures Sound(p, st.(rows := st.rows + [row], taken := taken, total := st.total + row.amount))
  {
    hide NoDup;
    hide SoundRow;
    MapSnoc(Identity, st.rows, row);
    MapSnoc(RowAmount, st.rows, row);
    ElementsConcat(Map(Identity, st.rows), [row.identity]);
    assert Elements([row.identity]) == {row.identity};
    assert row.identity in Map(Identity, st.rows) <==> row.identity in Elements(Map(Identity, st.rows));
    NoDupSnoc(Map(Identity, st.rows), row.identity);
    var sums := Map(RowAmount, st.rows) + [row.amount as int];
    assert sums[..|sums| - 1] == Map(RowAmount, st.rows);
  }

  lemma StepSound(p: Profile, sourceRef: string, st: State, index: nat, line: string)
    requires p.fractionalDigits <= 2 && Sound(p, st)
    ensures Sound(p, Step(p, sourceRef, st, index, line))
  {
    hide ParseRow;
    hide NoDup;
    hide IsoText;
    hide CheckedSum;
    var raw := DropReturn(line);
    var parsed := ParseRow(p, sourceRef, index + 1, raw, st.taken);
    if parsed.Ok? {
      var row := parsed.value;
      var d := ParseRowFacts(p, sourceRef, index + 1, raw, st.taken);
      assert CanonicalText(row.date);
      if IsI64(st.total + row.amount) {
        AppendSound(p, st, row, st.taken + {row.identity});
      }
    }
  }

  lemma {:induction false} RunSound(p: Profile, sourceRef: string, lines: seq<string>)
    requires p.fractionalDigits <= 2
    ensures Sound(p, Run(p, sourceRef, lines))
  {
    if lines != [] {
      hide Step;
      hide Sound;
      RunSound(p, sourceRef, lines[..|lines| - 1]);
      StepSound(p, sourceRef, Run(p, sourceRef, lines[..|lines| - 1]), |lines| - 1, lines[|lines| - 1]);
    }
  }

  lemma IsoTextCanonical(d: Date)
    requires Valid(d) && 1 <= d.year <= U32_MAX
    ensures CanonicalDate(IsoText(d), Iso8601) == Ok(IsoText(d))
  {
    hide Split;
    hide Padded;
    hide ParseUnsigned;
    IsoTextSplits(d);
    hide IsoText;
    ParsePadded(d.year, 4, U32_MAX);
    ParsePadded(d.month, 2, U32_MAX);
    ParsePadded(d.day, 2, U32_MAX);
    assert DateParts(IsoText(d), '-') == Some((d.year as nat, d.month as nat, d.day as nat));
  }

  lemma CanonicalTextDate(text: string)
    ensures CanonicalText(text) ==> DateOrdinal(text).Some? && CanonicalDate(text, Iso8601) == Ok(text)
  {
    hide DateOrdinal;
    hide CanonicalDate;
    hide IsoText;
    if !CanonicalText(text) {
      return;
    }
    var d :| Valid(d) && 1 <= d.year <= U32_MAX && text == IsoText(d);
    IsoTextOrdinal(d);
    IsoTextCanonical(d);
  }

  /**
   Every snapshot that admission returns is valid input to a reconciliation; each of its
   dates has an ordinal and is left alone by canonicalisation.
   */
  lemma SnapshotValid(p: Profile, sourceRef: string, cutoff: string, text: Option<string>, balances: seq<LedgerBalance>,
                      snapshotRef: string, reviewerRef: string)
    requires AdmitSpec(p, sourceRef, cutoff, text, balances).Ok? && snapshotRef != "" && reviewerRef != ""
    ensures
      var snapshot := AdmitSpec(p, sourceRef, cutoff, text, balances).value.snapshot;
      && ValidateInputs(Inputs(snapshotRef, reviewerRef, snapshot, [])).Ok?
      && forall row :: row in snapshot.rows ==>
           DateOrdinal(row.date).Some? && CanonicalDate(row.date, Iso8601) == Ok(row.date)
  {
    AdmittedSound(p, sourceRef, cutoff, text, balances);
    hide AdmitSpec;
    hide CheckedSum;
    hide SoundRow;
    hide CanonicalDate;
    hide DateOrdinal;
    hide NoDup;
    hide ValidateInputs;
    var snapshot := AdmitSpec(p, sourceRef, cutoff, text, balances).value.snapshot;
    SoundDates(p, snapshot.rows);
    var inputs := Inputs(snapshotRef, reviewerRef, snapshot, []);
    OneProfileCurrency(p, snapshot.rows);
    NoMovements(snapshot.rows);
    ValidateExact(inputs);
  }

  lemma AdmittedSound(p: Profile, sourceRef: string, cutoff: string, text: Option<string>, balances: seq<LedgerBalance>)
    requires AdmitSpec(p, sourceRef, cutoff, text, balances).Ok?
    ensures
      var snapshot := AdmitSpec(p, sourceRef, cutoff, text, balances).value.snapshot;
      && snapshot.cutoff != "" && p.currency != ""
      && NoDup(Map(Identity, snapshot.rows))
      && CheckedSum(Map(RowAmount, snapshot.rows)) == Some(snapshot.total)
      && forall row :: row in snapshot.rows ==> SoundRow(p, row)
  {
    hide Run;
    hide Lines;
    hide NoDup;
    hide CheckedSum;
    hide SoundRow;
    hide ValidateProfile;
    AdmittedCurrency(p, sourceRef, cutoff, text, balances);
    RunSound(p, sourceRef, Lines(text.value));
  }

  lemma AdmittedCurrency(p: Profile, sourceRef: string, cutoff: string, text: Option<string>,
                         balances: seq<LedgerBalance>)
    requires AdmitSpec(p, sourceRef, cutoff, text, balances).Ok?
    ensures p.fractionalDigits <= 2 && p.currency != "" && cutoff != ""
  {
    hide Run;
    hide Lines;
  }

  lemma SoundDates(p: Profile, rows: seq<StatementRow>)
    requires forall row :: row in rows ==> SoundRow(p, row)
    ensures forall row :: row in rows ==>
      DateOrdinal(row.date).Some? && CanonicalDate(row.date, Iso8601) == Ok(row.date)
  {
    hide CanonicalDate;
    hide DateOrdinal;
    hide CanonicalText;
    forall row | row in rows
      ensures DateOrdinal(row.date).Some? && CanonicalDate(row.date, Iso8601) == Ok(row.date)
    {
      assert SoundRow(p, row);
      CanonicalTextDate(row.date);
    }
  }

  lemma OneProfileCurrency(p: Profile, rows: seq<StatementRow>)
    requires p.currency != "" && forall row :: row in rows ==> SoundRow(p, row)
    ensures OneCurrency(Map(RowCurrency, rows)) && forall i :: 0 <= i < |rows| ==> rows[i].identity != ""
  {
    hide CanonicalText;
    forall i | 0 <= i < |rows| ensures rows[i].currency == p.currency && rows[i].identity != "" {
      assert rows[i] in rows;
    }
  }

  lemma NoMovements(rows: seq<StatementRow>)
    ensures Currencies(rows, []) == Map(RowCurrency, rows) && NoDup(Map(VoucherId, []))
  {
  }
}
