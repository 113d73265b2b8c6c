/** Whole statements: any layout of the same records is admitted as the same records. */
module LayoutIndependence {
  import opened Wrappers
  import opened Numbers
  import opened Sequences
  import opened Text
  import opened Calendar
  import opened Fields
  import opened StatementData
  import opened Admission
  import opened Layouts

  function EntryId(e: Entry): string { e.id }
  function EntryAmount(e: Entry): int { e.amount }

  // ----- lines and documents

  /** How a line ends: both line breaks that `str::lines` knows, and the end of the text. */
  datatype LineEnd = Newline | CrLf | EndOfText

  function EndText(end: LineEnd): string {
    match end case Newline => "\n" case CrLf => "\r\n" case EndOfText => ""
  }

  /** Only the last line can end with the text. */
  ghost predicate Ending(ends: seq<LineEnd>, count: nat) {
    |ends| == count && forall i :: 0 <= i < count && ends[i].EndOfText? ==> i == count - 1
  }

  function Document(lines: seq<string>, ends: seq<LineEnd>): string
    requires |ends| == |lines|
  {
    if lines == [] then "" else lines[0] + EndText(ends[0]) + Document(lines[1..], ends[1..])
  }

  lemma {:induction false} DoubledOneLine(s: string)
    requires '\n' !in s
    ensures '\n' !in Doubled(s)
  {
    if s != "" {
      DoubledOneLine(s[1..]);
    }
  }

  lemma RenderFieldOneLine(field: string, enclosed: bool)
    requires OneLine(field)
    ensures OneLine(RenderField(field, enclosed))
  {
    DoubledOneLine(field);
  }

  lemma {:induction false} RenderLineOneLine(fields: seq<string>, enclosed: seq<bool>, delimiter: char)
    requires RenderableLine(fields, enclosed, delimiter) && delimiter != '\n' && delimiter != '\r'
    requires forall i :: 0 <= i < |fields| ==> OneLine(fields[i])
    ensures OneLine(RenderLine(fields, enclosed, delimiter))
  {
    RenderFieldOneLine(fields[0], enclosed[0]);
    if |fields| > 1 {
      RenderLineOneLine(fields[1..], enclosed[1..], delimiter);
    }
  }

  lemma CellChoices(p: Profile, e: Entry, column: nat)
    requires p.fractionalDigits <= 2
    ensures
      var c, number := Cell(p, e, column), AmountNumber(p, e.amount);
      || c == None || c == Some(e.id) || c == Some(DateText(e.date, p.dateFormat))
      || c == Some(number) || c == Some("-" + number) || c == Some("")
      || (p.currencyColumn.Some? && c == Some(p.currency))
      || (p.descriptionColumn.Some? && c == Some(e.description))
  {
    hide AmountNumber;
    hide DateText;
    assert "" + AmountNumber(p, e.amount) == AmountNumber(p, e.amount);
  }

  lemma CellOneLine(p: Profile, e: Entry, column: nat)
    requires Usable(p) && Expressible(p, e)
    ensures Cell(p, e, column).Some? ==> OneLine(Cell(p, e, column).value)
  {
    hide Cell;
    hide AmountNumber;
    hide DateText;
    hide Columns;
    hide Trimmed;
    hide Representable;
    hide OneLine;
    hide NoDup;
    hide ValidateProfile;
    UsableDigits(p);
    CellChoices(p, e, column);
    NumberTrimmed(p, e.amount);
    DateParses(e.date, p.dateFormat);
    EmptyOneLine();
  }

  lemma EmptyOneLine()
    ensures OneLine("")
  {
  }

  lemma {:induction false} RenderedNonEmpty(fields: seq<string>, enclosed: seq<bool>, delimiter: char, k: nat)
    requires RenderableLine(fields, enclosed, delimiter) && k < |fields| && fields[k] != ""
    ensures RenderLine(fields, enclosed, delimiter) != ""
  {
    if k > 0 {
      RenderedNonEmpty(fields[1..], enclosed[1..], delimiter, k - 1);
    }
  }

  /** A rendered record is one non-empty line. */
  lemma LineOfOneLine(p: Profile, e: Entry, r: Rendering)
    requires Usable(p) && Expressible(p, e) && Renders(p, e, r)
    ensures OneLine(LineOf(p, e, r)) && LineOf(p, e, r) != ""
  {
    hide Cell;
    hide NoDup;
    hide OneLine;
    hide Trimmed;
    hide Representable;
    var fields := FieldsOf(p, e, r.filler);
    forall i | 0 <= i < |fields| ensures OneLine(fields[i]) {
      CellOneLine(p, e, i);
    }
    RenderLineOneLine(fields, r.enclosed, p.delimiter as char);
    IdentityCell(p, e);
    ColumnsWithin(p, |r.filler|);
    RenderedNonEmpty(fields, r.enclosed, p.delimiter as char, p.identityColumn);
  }

  lemma IdentityCell(p: Profile, e: Entry)
    requires p.fractionalDigits <= 2
    ensures Cell(p, e, p.identityColumn) == Some(e.id)
  {
  }

  lemma BrokenLine(line: string, end: LineEnd, rest: string)
    requires OneLine(line) && !end.EndOfText?
    ensures Lines(line + EndText(end) + rest) == [line] + Lines(rest)
  {
    hide Lines;
    var p := if end.CrLf? then line + "\r" else line;
    assert line + EndText(end) == p + ['\n'];
    LinesAt(p, rest);
    assert DropReturn(p) == line;
  }

  lemma UnbrokenLine(line: string)
    requires OneLine(line) && line != ""
    ensures Lines(line + "" + "") == [line]
  {
    assert line + "" + "" == line;
    SplitFree(line, '\n');
    assert [line][..0] == [];
  }

  /** Lines are read back from their document, whichever breaks end them. */
  lemma {:induction false} DocumentLines(lines: seq<string>, ends: seq<LineEnd>)
    requires forall i :: 0 <= i < |lines| ==> OneLine(lines[i])
    requires Ending(ends, |lines|) && (lines != [] && ends[|lines| - 1].EndOfText? ==> lines[|lines| - 1] != "")
    ensures Lines(Document(lines, ends)) == lines
  {
    hide OneLine;
    hide EndText;
    hide Lines;
    if lines == [] {
      NoLines();
    } else if ends[0].EndOfText? {
      assert lines == [lines[0]] && lines[1..] == [];
      EndOfTextEmpty();
      UnbrokenLine(lines[0]);
    } else {
      var rest := Document(lines[1..], ends[1..]);
      DocumentLines(lines[1..], ends[1..]);
      BrokenLine(lines[0], ends[0], rest);
      assert lines == [lines[0]] + lines[1..];
    }
  }

  lemma NoLines()
    ensures Lines("") == []
  {
    SplitFree("", '\n');
  }

  lemma EndOfTextEmpty()
    ensures EndText(EndOfText) == ""
  {
  }

  // ----- reading lines back

  /** A line that is read as `e`, wherever it stands, as long as its identity is free. */
  ghost predicate ReadsAs(p: Profile, sourceRef: string, line: string, e: Entry)
    requires p.fractionalDigits <= 2
  {
    && line != "" && DropReturn(line) == line
    && forall ordinal, taken :: e.id !in taken ==>
         ParseRow(p, sourceRef, ordinal, line, taken) == Ok(RowOf(p, sourceRef, ordinal, line, e))
  }

  lemma NothingDropped(s: string)
    requires OneLine(s)
    ensures DropReturn(s) == s
  {
  }

  lemma RenderedReadsAs(p: Profile, sourceRef: string, e: Entry, r: Rendering)
    requires Usable(p) && Expressible(p, e) && Renders(p, e, r)
    ensures ReadsAs(p, sourceRef, LineOf(p, e, r), e) && OneLine(LineOf(p, e, r))
  {
    UsableProfile(p);
    hide LineOf;
    hide ParseRow;
    hide RowOf;
    hide Usable;
    hide Expressible;
    hide OneLine;
    hide DropReturn;
    LineOfOneLine(p, e, r);
    NothingDropped(LineOf(p, e, r));
    forall ordinal, taken: set<string> | e.id !in taken
      ensures ParseRow(p, sourceRef, ordinal, LineOf(p, e, r), taken) ==
        Ok(RowOf(p, sourceRef, ordinal, LineOf(p, e, r), e))
    {
      RowReadBack(p, sourceRef, ordinal, e, r, taken);
    }
  }

  /** Lines that read as records with distinct identities and partial sums in range. */
  ghost predicate ReadAs(p: Profile, sourceRef: string, lines: seq<string>, entries: seq<Entry>)
    requires p.fractionalDigits <= 2
  {
    && |lines| == |entries|
    && (forall i :: 0 <= i < |lines| ==> ReadsAs(p, sourceRef, lines[i], entries[i]))
    && NoDup(Map(EntryId, entries))
    && CheckedSum(Map(EntryAmount, entries)).Some?
  }

  /** The row of record number `i`, behind `skipped` header lines. */
  function RowNumber(p: Profile, sourceRef: string, skipped: nat, lines: seq<string>, entries: seq<Entry>,
                     i: nat): StatementRow
    requires i < |lines| && i < |entries|
  {
    RowOf(p, sourceRef, skipped + i + 1, lines[i], entries[i])
  }

  /** The rows are those of the records, in order. */
  ghost predicate NumberedRows(p: Profile, sourceRef: string, skipped: nat, lines: seq<string>, entries: seq<Entry>,
                               rows: seq<StatementRow>)
    requires |lines| == |entries|
  {
    && |rows| == |entries|
    && forall i :: 0 <= i < |entries| ==> rows[i] == RowNumber(p, sourceRef, skipped, lines, entries, i)
  }

  lemma NumberedRowsSnoc(p: Profile, sourceRef: string, skipped: nat, lines: seq<string>, entries: seq<Entry>,
                         rows: seq<StatementRow>, line: string, e: Entry)
    requires |lines| == |entries| && NumberedRows(p, sourceRef, skipped, lines, entries, rows)
    ensures NumberedRows(p, sourceRef, skipped, lines + [line], entries + [e],
                         rows + [RowOf(p, sourceRef, skipped + |lines| + 1, line, e)])
  {
    hide RowOf;
  }

  /** Admission has taken exactly these records. */
  ghost predicate Taken(p: Profile, sourceRef: string, skipped: nat, lines: seq<string>, entries: seq<Entry>, st: State)
    requires |lines| == |entries|
  {
    && NumberedRows(p, sourceRef, skipped, lines, entries, st.rows)
    && st.rejected == [] && st.taken == Elements(Map(EntryId, entries))
    && CheckedSum(Map(EntryAmount, entries)) == Some(st.total) && !st.headerPending
  }

  lemma ReadAsPrefix(p: Profile, sourceRef: string, lines: seq<string>, entries: seq<Entry>)
    requires p.fractionalDigits <= 2 && ReadAs(p, sourceRef, lines, entries) && lines != []
    ensures
      var n := |lines| - 1;
      && |entries| == |lines|
      && ReadsAs(p, sourceRef, lines[n], entries[n]) && ReadAs(p, sourceRef, lines[..n], entries[..n])
      && entries[n].id !in Elements(Map(EntryId, entries[..n]))
      && CheckedSum(Map(EntryAmount, entries[..n])).Some?
      && IsI64(CheckedSum(Map(EntryAmount, entries[..n])).value + entries[n].amount)
      && CheckedSum(Map(EntryAmount, entries)) ==
        Some(CheckedSum(Map(EntryAmount, entries[..n])).value + entries[n].amount)
      && Elements(Map(EntryId, entries)) == Elements(Map(EntryId, entries[..n])) + {entries[n].id}
  {
    hide ReadsAs;
    var n := |lines| - 1;
    var init, e := entries[..n], entries[n];
    assert entries == init + [e];
    MapSnoc(EntryId, init, e);
    MapSnoc(EntryAmount, init, e);
    NoDupSnoc(Map(EntryId, init), e.id);
    ElementsConcat(Map(EntryId, init), [e.id]);
    assert Elements([e.id]) == {e.id};
    assert e.id in Elements(Map(EntryId, init)) <==> e.id in Map(EntryId, init);
    var sums := Map(EntryAmount, entries);
    assert sums[..n] == Map(EntryAmount, init);
  }

  lemma StepAccepts(p: Profile, sourceRef: string, st: State, index: nat, line: string, row: StatementRow)
    requires p.fractionalDigits <= 2 && line != "" && DropReturn(line) == line && !st.headerPending
    requires IsI64(st.total + row.amount)
    ensures ParseRow(p, sourceRef, index + 1, line, st.taken) == Ok(row) ==>
      Step(p, sourceRef, st, index, line)
        == st.(rows := st.rows + [row], taken := st.taken + {row.identity}, total := st.total + row.amount)
  {
    hide ParseRow;
    hide DropReturn;
  }

  lemma StepReads(p: Profile, sourceRef: string, st: State, index: nat, line: string, e: Entry)
    requires p.fractionalDigits <= 2 && ReadsAs(p, sourceRef, line, e)
    requires !st.headerPending && e.id !in st.taken && IsI64(st.total + e.amount)
    ensures Step(p, sourceRef, st, index, line)
         == st.(rows := st.rows + [RowOf(p, sourceRef, index + 1, line, e)], taken := st.taken + {e.id},
                total := st.total + e.amount)
  {
    hide ParseRow;
    hide Step;
    hide DropReturn;
    StepAccepts(p, sourceRef, st, index, line, RowOf(p, sourceRef, index + 1, line, e));
  }

  lemma TakenStep(p: Profile, sourceRef: string, skipped: nat, lines: seq<string>, entries: seq<Entry>, st: State)
    requires p.fractionalDigits <= 2 && ReadAs(p, sourceRef, lines, entries) && lines != []
    requires Taken(p, sourceRef, skipped, lines[..|lines| - 1], entries[..|lines| - 1], st)
    ensures Taken(p, sourceRef, skipped, lines, entries,
                  Step(p, sourceRef, st, skipped + |lines| - 1, lines[|lines| - 1]))
  {
    hide Step;
    hide ReadsAs;
    hide RowOf;
    hide CheckedSum;
    hide NoDup;
    hide NumberedRows;
    var n := |lines| - 1;
    ReadAsPrefix(p, sourceRef, lines, entries);
    hide ReadAs;
    StepReads(p, sourceRef, st, skipped + n, lines[n], entries[n]);
    NumberedRowsSnoc(p, sourceRef, skipped, lines[..n], entries[..n], st.rows, lines[n], entries[n]);
    assert lines[..n] + [lines[n]] == lines && entries[..n] + [entries[n]] == entries;
  }

  lemma TakenNothing(p: Profile, sourceRef: string, head: seq<string>)
    requires p.fractionalDigits <= 2
    requires if p.hasHeader then |head| == 1 && DropReturn(head[0]) != "" else head == []
    ensures Taken(p, sourceRef, |head|, [], [], Run(p, sourceRef, head))
  {
    assert Map(EntryId, []) == [] && Map(EntryAmount, []) == [];
    if p.hasHeader {
      assert head[..0] == [];
      assert Run(p, sourceRef, []) == Start(p);
    }
  }

  lemma LastApart(head: seq<string>, lines: seq<string>)
    requires lines != []
    ensures head + lines == head + lines[..|lines| - 1] + [lines[|lines| - 1]]
  {
  }

  lemma RunReadsStep(p: Profile, sourceRef: string, head: seq<string>, lines: seq<string>, entries: seq<Entry>)
    requires p.fractionalDigits <= 2 && ReadAs(p, sourceRef, lines, entries) && lines != []
    requires Taken(p, sourceRef, |head|, lines[..|lines| - 1], entries[..|lines| - 1],
                   Run(p, sourceRef, head + lines[..|lines| - 1]))
    ensures Taken(p, sourceRef, |head|, lines, entries, Run(p, sourceRef, head + lines))
  {
    hide Run;
    hide Step;
    hide Taken;
    var before := head + lines[..|lines| - 1];
    LastApart(head, lines);
    RunSnoc(p, sourceRef, before, lines[|lines| - 1]);
    TakenStep(p, sourceRef, |head|, lines, entries, Run(p, sourceRef, before));
  }

  /** The run over a header, if there is one, and such lines takes exactly the records. */
  lemma {:induction false} RunReads(p: Profile, sourceRef: string, head: seq<string>, lines: seq<string>,
                                    entries: seq<Entry>)
    requires p.fractionalDigits <= 2 && ReadAs(p, sourceRef, lines, entries)
    requires if p.hasHeader then |head| == 1 && DropReturn(head[0]) != "" else head == []
    ensures Taken(p, sourceRef, |head|, lines, entries, Run(p, sourceRef, head + lines))
    decreases |lines|
  {
    hide Run;
    hide ReadsAs;
    hide Taken;
    hide DropReturn;
    if lines == [] {
      assert head + lines == head;
      TakenNothing(p, sourceRef, head);
    } else {
      ReadAsPrefix(p, sourceRef, lines, entries);
      RunReads(p, sourceRef, head, lines[..|lines| - 1], entries[..|lines| - 1]);
      RunReadsStep(p, sourceRef, head, lines, entries);
    }
  }

  // ----- whole statements

  /** A profile, a header line, a rendering of each record, and how each line ends. */
  datatype Layout = Layout(profile: Profile, header: string, renderings: seq<Rendering>, ends: seq<LineEnd>)

  /** Records with distinct identities and partial sums in range, laid out properly. */
  ghost predicate LaysOut(l: Layout, entries: seq<Entry>) {
    && Usable(l.profile)
    && l.header != "" && OneLine(l.header)
    && |l.renderings| == |entries|
    && Ending(l.ends, |Head(l)| + |entries|)
    && (forall i :: 0 <= i < |entries| ==>
          Expressible(l.profile, entries[i]) && Renders(l.profile, entries[i], l.renderings[i]))
    && NoDup(Map(EntryId, entries))
    && CheckedSum(Map(EntryAmount, entries)).Some?
  }

  ghost function Head(l: Layout): seq<string> {
    if l.profile.hasHeader then [l.header] else []
  }

  ghost function RecordLines(l: Layout, entries: seq<Entry>): (lines: seq<string>)
    requires LaysOut(l, entries)
    ensures |lines| == |entries|
    ensures forall i :: 0 <= i < |lines| ==> lines[i] == LineOf(l.profile, entries[i], l.renderings[i])
  {
    seq(|entries|, i requires 0 <= i < |entries| => LineOf(l.profile, entries[i], l.renderings[i]))
  }

  /** The statement's text. */
  ghost function TextOf(l: Layout, entries: seq<Entry>): string
    requires LaysOut(l, entries)
  {
    Document(Head(l) + RecordLines(l, entries), l.ends)
  }

  lemma TextLines(l: Layout, sourceRef: string, entries: seq<Entry>)
    requires LaysOut(l, entries)
    ensures Lines(TextOf(l, entries)) == Head(l) + RecordLines(l, entries)
    ensures ReadAs(l.profile, sourceRef, RecordLines(l, entries), entries)
  {
    hide Expressible;
    hide Renders;
    hide Usable;
    hide ReadsAs;
    hide OneLine;
    hide NoDup;
    hide LineOf;
    hide Lines;
    UsableProfile(l.profile);
    var lines := RecordLines(l, entries);
    forall i | 0 <= i < |lines|
      ensures ReadsAs(l.profile, sourceRef, lines[i], entries[i]) && OneLine(lines[i]) && lines[i] != ""
    {
      RenderedReadsAs(l.profile, sourceRef, entries[i], l.renderings[i]);
      LineOfOneLine(l.profile, entries[i], l.renderings[i]);
    }
    DocumentLines(Head(l) + lines, l.ends);
  }

  lemma UsableProfile(p: Profile)
    requires Usable(p)
    ensures ValidateProfile(p).Ok? && p.fractionalDigits <= 2
  {
  }

  /** What admission makes of one record, apart from where it was found. */
  ghost predicate Carries(p: Profile, row: StatementRow, e: Entry) {
    && row.identity == e.id && row.date == IsoText(e.date) && row.amount == e.amount
    && row.description == if p.descriptionColumn.None? || e.description == "" then None else Some(e.description)
  }

  /**
   A statement in any layout is admitted without rejections, as exactly its records in
   order, with their exact total.
   */
  lemma LayoutAdmitted(l: Layout, entries: seq<Entry>, sourceRef: string, cutoff: string, balances: seq<LedgerBalance>)
    requires LaysOut(l, entries) && sourceRef != "" && cutoff != ""
    ensures
      var r := AdmitSpec(l.profile, sourceRef, cutoff, Some(TextOf(l, entries)), balances);
      && r.Ok? && r.value.rejected == []
      && |r.value.snapshot.rows| == |entries|
      && (forall i :: 0 <= i < |entries| ==> Carries(l.profile, r.value.snapshot.rows[i], entries[i]))
      && r.value.snapshot.total == SumOf(EntryAmount, entries)
  {
    hide Run;
    hide Lines;
    hide ReadAs;
    hide CheckedSum;
    hide RecordLines;
    hide IsoText;
    UsableProfile(l.profile);
    HeadShape(l, entries);
    hide LaysOut;
    TextLines(l, sourceRef, entries);
    hide TextOf;
    RunReads(l.profile, sourceRef, Head(l), RecordLines(l, entries), entries);
  }

  lemma HeadShape(l: Layout, entries: seq<Entry>)
    requires LaysOut(l, entries)
    ensures if l.profile.hasHeader then |Head(l)| == 1 && DropReturn(Head(l)[0]) != "" else Head(l) == []
  {
    hide Usable;
    hide Expressible;
    hide Renders;
    hide NoDup;
    hide CheckedSum;
  }

  /** Equal in all that a record says; descriptions only where both profiles keep them. */
  predicate SameRecord(p: Profile, q: Profile, x: StatementRow, y: StatementRow) {
    && x.identity == y.identity && x.date == y.date && x.amount == y.amount
    && (p.descriptionColumn.Some? && q.descriptionColumn.Some? ==> x.description == y.description)
  }

  /** Two layouts of the same records are admitted as the same records. */
  lemma LayoutsAgree(a: Layout, b: Layout, entries: seq<Entry>, sourceA: string, sourceB: string, cutoff: string,
                     balances: seq<LedgerBalance>)
    requires LaysOut(a, entries) && LaysOut(b, entries)
    requires sourceA != "" && sourceB != "" && cutoff != ""
    ensures
      var ra := AdmitSpec(a.profile, sourceA, cutoff, Some(TextOf(a, entries)), balances);
      var rb := AdmitSpec(b.profile, sourceB, cutoff, Some(TextOf(b, entries)), balances);
      && ra.Ok? && rb.Ok? && |ra.value.snapshot.rows| == |rb.value.snapshot.rows|
      && (forall i :: 0 <= i < |ra.value.snapshot.rows| ==>
            SameRecord(a.profile, b.profile, ra.value.snapshot.rows[i], rb.value.snapshot.rows[i]))
      && ra.value.snapshot.total == rb.value.snapshot.total
  {
    hide AdmitSpec;
    hide LaysOut;
    hide TextOf;
    hide IsoText;
    hide SumOf;
    LayoutAdmitted(a, entries, sourceA, cutoff, balances);
    LayoutAdmitted(b, entries, sourceB, cutoff, balances);
  }
}
