/** The text journal of closes and reopens. */
module Journal {
  import opened Wrappers
  import opened Sequences
  import opened Text

  datatype ClosingState = Open | Review | Closed

  function StateText(s: ClosingState): string {
    match s case Open => "open" case Review => "review" case Closed => "closed"
  }

  function ParseState(s: string): Option<ClosingState> {
    if s == "open" then Some(Open)
    else if s == "review" then Some(Review)
    else if s == "closed" then Some(Closed)
    else None
  }

  datatype Entry = Entry(state: ClosingState, reason: string)

  /** `replace(['\n', '\t'], " ")`. */
  function Flat(s: string): (r: string)
    ensures |r| == |s|
    ensures forall i :: 0 <= i < |s| ==> r[i] == if s[i] == '\n' || s[i] == '\t' then ' ' else s[i]
  {
    seq(|s|, i requires 0 <= i < |s| => if s[i] == '\n' || s[i] == '\t' then ' ' else s[i])
  }

  function Line(e: Entry): string {
    StateText(e.state) + "\t" + e.reason
  }

  /** The journal with one more entry, as `append_journal` writes it. */
  function AppendedText(journal: string, state: ClosingState, reason: string): string {
    (if journal != "" && journal[|journal| - 1] != '\n' then journal + "\n" else journal) +
    StateText(state) + "\t" + Flat(reason)
  }

  /** `str::split_once`: before and behind the first separator. */
  function SplitOnce(s: string, sep: char): Option<(string, string)> {
    if s == "" then None
    else if s[0] == sep then Some(("", s[1..]))
    else
      var rest :- SplitOnce(s[1..], sep);
      Some(([s[0]] + rest.0, rest.1))
  }

  function ParseEntry(line: string): Option<Entry> {
    var parts :- SplitOnce(line, '\t');
    var state :- ParseState(parts.0);
    Some(Entry(state, parts.1))
  }

  predicate NotBlank(line: string) {
    Trim(line) != ""
  }

  function ParseEntries(lines: seq<string>): Option<seq<Entry>> {
    if lines == [] then Some([]) else
    var before :- ParseEntries(lines[..|lines| - 1]);
    var last :- ParseEntry(lines[|lines| - 1]);
    Some(before + [last])
  }

  /** `parse_journal`: absent when a line has no separator or an unknown state. */
  function ParseJournal(text: string): Option<seq<Entry>> {
    ParseEntries(Filter(NotBlank, Lines(text)))
  }

  // ----- entries as written

  /** The reason sits on one line, without tabs, and neither begins nor ends with white space. */
  predicate Clean(e: Entry) {
    e.reason != "" && Trimmed(e.reason) && Free(e.reason, '\n') && Free(e.reason, '\t')
  }

  ghost predicate AllClean(history: seq<Entry>) {
    forall e :: e in history ==> Clean(e)
  }

  lemma FlatClean(state: ClosingState, reason: string)
    requires reason != "" && Trimmed(reason)
    ensures Clean(Entry(state, Flat(reason)))
  {
  }

  lemma {:induction false} SplitOnceAt(p: string, rest: string, sep: char)
    requires Free(p, sep)
    ensures SplitOnce(p + [sep] + rest, sep) == Some((p, rest))
  {
    var s := p + [sep] + rest;
    if p == "" {
      assert s[1..] == rest;
    } else {
      assert s[1..] == p[1..] + [sep] + rest;
      SplitOnceAt(p[1..], rest, sep);
      assert [p[0]] + p[1..] == p;
    }
  }

  lemma ParseLine(e: Entry)
    ensures ParseEntry(Line(e)) == Some(e)
  {
    SplitOnceAt(StateText(e.state), e.reason, '\t');
    assert Line(e) == StateText(e.state) + ['\t'] + e.reason;
  }

  /** A written line has no line break, is not blank, and does not end in white space. */
  lemma LineShape(e: Entry)
    requires Clean(e)
    ensures Free(Line(e), '\n') && Trimmed(Line(e)) && |Line(e)| > 1
    ensures NotBlank(Line(e))
  {
    assert Free(StateText(e.state), '\n');
    var l := Line(e);
    assert l[|l| - 1] == e.reason[|e.reason| - 1] && l[0] == StateText(e.state)[0];
    TrimTrimmed(l);
  }

  // ----- the journal of a history

  function TextOf(history: seq<Entry>): string {
    if history == [] then "" else Join(Map(Line, history), '\n')
  }

  lemma {:induction false} JoinSnoc(pieces: seq<string>, last: string, sep: char)
    requires pieces != []
    ensures Join(pieces + [last], sep) == Join(pieces, sep) + [sep] + last
  {
    var all := pieces + [last];
    if |pieces| == 1 {
      assert all[1..] == [last];
    } else {
      JoinSnoc(pieces[1..], last, sep);
      assert all[1..] == pieces[1..] + [last];
    }
  }

  lemma JoinEnd(pieces: seq<string>, sep: char)
    requires pieces != [] && pieces[|pieces| - 1] != ""
    ensures Join(pieces, sep) != ""
    ensures Join(pieces, sep)[|Join(pieces, sep)| - 1] == pieces[|pieces| - 1][|pieces[|pieces| - 1]| - 1]
  {
    if |pieces| > 1 {
      var n := |pieces| - 1;
      JoinSnoc(pieces[..n], pieces[n], sep);
      assert pieces == pieces[..n] + [pieces[n]];
    }
  }

  /** Appending to the journal of a history gives the journal of the longer history. */
  lemma AppendedHistory(history: seq<Entry>, state: ClosingState, reason: string)
    requires AllClean(history)
    ensures AppendedText(TextOf(history), state, reason) == TextOf(history + [Entry(state, Flat(reason))])
  {
    hide Flat;
    hide Join;
    hide Clean;
    hide Line;
    var e := Entry(state, Flat(reason));
    MapSnoc(Line, history, e);
    if history == [] {
      assert history + [e] == [e];
      JoinedAlone(e);
    } else {
      var lines := Map(Line, history);
      LastLine(history);
      JoinSnoc(lines, Line(e), '\n');
    }
    assert Line(e) == StateText(state) + "\t" + Flat(reason) by {
      LineParts(e);
    }
  }

  lemma LineParts(e: Entry)
    ensures Line(e) == StateText(e.state) + "\t" + e.reason
  {
  }

  lemma LastLine(history: seq<Entry>)
    requires history != [] && AllClean(history)
    ensures TextOf(history) != "" && TextOf(history)[|TextOf(history)| - 1] != '\n'
  {
    hide Join;
    var n := |history| - 1;
    LineShape(history[n]);
    assert Map(Line, history)[n] == Line(history[n]);
    JoinEnd(Map(Line, history), '\n');
  }

  lemma JoinedAlone(e: Entry)
    ensures Join(Map(Line, [e]), '\n') == Line(e)
  {
  }

  lemma ParseEntriesSnoc(lines: seq<string>, line: string)
    requires ParseEntries(lines).Some? && ParseEntry(line).Some?
    ensures ParseEntries(lines + [line]) == Some(ParseEntries(lines).value + [ParseEntry(line).value])
  {
    hide ParseEntry;
    assert (lines + [line])[..|lines + [line]| - 1] == lines;
  }

  lemma {:induction false} ParseLines(history: seq<Entry>)
    ensures ParseEntries(Map(Line, history)) == Some(history)
  {
    hide ParseEntry;
    hide Line;
    if history != [] {
      var n := |history| - 1;
      ParseLines(history[..n]);
      ParseLine(history[n]);
      MapSnoc(Line, history[..n], history[n]);
      assert history == history[..n] + [history[n]];
      hide ParseEntries;
      ParseEntriesSnoc(Map(Line, history[..n]), Line(history[n]));
    }
  }

  lemma NoneBlank(history: seq<Entry>)
    requires AllClean(history)
    ensures Filter(NotBlank, Map(Line, history)) == Map(Line, history)
  {
    hide NotBlank;
    hide Line;
    hide Clean;
    var lines := Map(Line, history);
    forall l | l in lines ensures NotBlank(l) {
      var i :| 0 <= i < |lines| && lines[i] == l;
      LineShape(history[i]);
    }
    FilterAll(NotBlank, lines);
  }

  /** Lines that need no ending of their own are read back from their joined text. */
  lemma LinesOfJoined(lines: seq<string>)
    requires lines != []
    requires forall i :: 0 <= i < |lines| ==> Free(lines[i], '\n') && DropReturn(lines[i]) == lines[i] && lines[i] != ""
    ensures Lines(Join(lines, '\n')) == lines
  {
    hide Split;
    hide Join;
    hide DropReturn;
    hide Free;
    JoinSplits(lines, '\n');
    hide LinesOfPieces;
    KeptWhole(lines);
  }

  lemma KeptWhole(pieces: seq<string>)
    requires pieces != [] && pieces[|pieces| - 1] != ""
    requires forall i :: 0 <= i < |pieces| ==> DropReturn(pieces[i]) == pieces[i]
    ensures LinesOfPieces(pieces) == pieces
  {
    hide DropReturn;
    var n := |pieces| - 1;
    assert pieces == pieces[..n] + [pieces[n]];
    assert TerminatedLines(pieces[..n]) == pieces[..n];
  }

  lemma LineUnbroken(e: Entry)
    requires Clean(e)
    ensures Free(Line(e), '\n') && DropReturn(Line(e)) == Line(e) && Line(e) != ""
  {
    hide Line;
    LineShape(e);
  }

  lemma NoLinesOfText()
    ensures Lines(TextOf([])) == []
  {
    SplitFree("", '\n');
  }

  /** The lines of a journal are the lines of its entries. */
  lemma LinesOfText(history: seq<Entry>)
    requires AllClean(history)
    ensures Lines(TextOf(history)) == Map(Line, history)
  {
    hide Line;
    hide Clean;
    hide DropReturn;
    hide Lines;
    if history == [] {
      NoLinesOfText();
    } else {
      var lines := Map(Line, history);
      forall i | 0 <= i < |lines| ensures Free(lines[i], '\n') && DropReturn(lines[i]) == lines[i] && lines[i] != "" {
        assert history[i] in history;
        LineUnbroken(history[i]);
      }
      LinesOfJoined(lines);
    }
  }

  /** Reading the journal of a history gives back the history. */
  lemma ParseText(history: seq<Entry>)
    requires AllClean(history)
    ensures ParseJournal(TextOf(history)) == Some(history)
  {
    LinesOfText(history);
    NoneBlank(history);
    ParseLines(history);
  }

  // ----- any text

  /** The line has something other than white space on it. */
  predicate Marked(line: string) {
    exists i :: 0 <= i < |line| && !IsWhite(line[i])
  }

  lemma MarkedExact(line: string)
    ensures NotBlank(line) <==> Marked(line)
  {
    TrimEmpty(line);
  }

  lemma {:induction false} SplitOnceJoins(s: string, sep: char)
    ensures SplitOnce(s, sep).Some? ==> s == SplitOnce(s, sep).value.0 + [sep] + SplitOnce(s, sep).value.1
  {
    if s != "" && s[0] != sep {
      SplitOnceJoins(s[1..], sep);
      assert s == [s[0]] + s[1..];
    }
  }

  /** A line is an entry exactly when it is the name of a state, a tab and the reason, whatever the reason. */
  lemma EntryExact(line: string, e: Entry)
    ensures ParseEntry(line) == Some(e) <==>
      line == (match e.state case Open => "open" case Review => "review" case Closed => "closed") + "\t" + e.reason
  {
    SplitOnceJoins(line, '\t');
    LineParts(e);
    if line == Line(e) {
      ParseLine(e);
    }
    hide SplitOnce;
  }

  lemma {:induction false} EntriesExact(lines: seq<string>, history: seq<Entry>)
    ensures ParseEntries(lines) == Some(history) <==>
      |history| == |lines| && forall i :: 0 <= i < |lines| ==> ParseEntry(lines[i]) == Some(history[i])
  {
    hide ParseEntry;
    if lines != [] {
      var n := |lines| - 1;
      if history != [] {
        EntriesExact(lines[..n], history[..|history| - 1]);
        assert history == history[..|history| - 1] + [history[|history| - 1]];
      }
      if ParseEntries(lines[..n]).Some? {
        EntriesExact(lines[..n], ParseEntries(lines[..n]).value);
      }
    }
  }

  /** Any text is the journal of a history exactly when its lines, but for those of white space only,
    are its entries. */
  lemma JournalExact(text: string, history: seq<Entry>)
    ensures ParseJournal(text) == Some(history) <==>
      var lines := Filter(Marked, Lines(text));
      |lines| == |history| && forall i :: 0 <= i < |lines| ==> ParseEntry(lines[i]) == Some(history[i])
  {
    hide Lines;
    hide ParseEntry;
    hide ParseEntries;
    hide NotBlank;
    hide Marked;
    forall line | line in Lines(text) ensures NotBlank(line) == Marked(line) {
      MarkedExact(line);
    }
    FilterSame(NotBlank, Marked, Lines(text));
    EntriesExact(Filter(Marked, Lines(text)), history);
  }
}
