/** Splitting one delimited line into fields, and the quoting it undoes. */
module Fields {
  import opened Wrappers

  const QUOTE: char := '"'

  // ----- splitting

  /**
   The splitter from some point of a line on: what is `rest`, whether it is inside
   quotes, the field being read, and the fields read. Absent when a quote stays open.
   */
  function SplitFrom(rest: string, delimiter: char, quoted: bool, current: string,
                     fields: seq<string>): Option<seq<string>> {
    if rest == "" then (if quoted then None else Some(fields + [current]))
    else if rest[0] == QUOTE && quoted && |rest| > 1 && rest[1] == QUOTE then
      SplitFrom(rest[2..], delimiter, quoted, current + [QUOTE], fields)
    else if rest[0] == QUOTE then SplitFrom(rest[1..], delimiter, !quoted, current, fields)
    else if rest[0] == delimiter && !quoted then SplitFrom(rest[1..], delimiter, quoted, "", fields + [current])
    else SplitFrom(rest[1..], delimiter, quoted, current + [rest[0]], fields)
  }

  function SplitLine(line: string, delimiter: char): Option<seq<string>> {
    SplitFrom(line, delimiter, false, "", [])
  }

  method SplitFields(line: string, delimiter: char) returns (r: Option<seq<string>>)
    ensures r == SplitLine(line, delimiter)
  {
    var fields: seq<string>, current, quoted, i := [], "", false, 0;
    while i < |line|
      invariant 0 <= i <= |line|
      invariant SplitFrom(line[i..], delimiter, quoted, current, fields) == SplitLine(line, delimiter)
    {
      var ch := line[i];
      i := i + 1;
      if ch == QUOTE && quoted && i < |line| && line[i] == QUOTE {
        current := current + [QUOTE];
        i := i + 1;
      } else if ch == QUOTE {
        quoted := !quoted;
      } else if ch == delimiter && !quoted {
        fields, current := fields + [current], "";
      } else {
        current := current + [ch];
      }
    }
    if quoted {
      return None;
    }
    r := Some(fields + [current]);
  }

  // ----- refusal

  function Quotes(s: string): nat {
    if s == "" then 0 else (if s[0] == QUOTE then 1 else 0) + Quotes(s[1..])
  }

  lemma {:induction false} SplitFromRefuses(rest: string, delimiter: char, quoted: bool, current: string,
                                            fields: seq<string>)
    ensures SplitFrom(rest, delimiter, quoted, current, fields).None? <==>
      (Quotes(rest) + (if quoted then 1 else 0)) % 2 == 1
    decreases |rest|
  {
    if rest != "" {
      if rest[0] == QUOTE && quoted && |rest| > 1 && rest[1] == QUOTE {
        assert rest[1..][1..] == rest[2..];
        SplitFromRefuses(rest[2..], delimiter, quoted, current + [QUOTE], fields);
      } else if rest[0] == QUOTE {
        SplitFromRefuses(rest[1..], delimiter, !quoted, current, fields);
      } else if rest[0] == delimiter && !quoted {
        SplitFromRefuses(rest[1..], delimiter, quoted, "", fields + [current]);
      } else {
        SplitFromRefuses(rest[1..], delimiter, quoted, current + [rest[0]], fields);
      }
    }
  }

  /** A line is malformed exactly when it holds an odd number of quotes. */
  lemma SplitRefusesOddQuotes(line: string, delimiter: char)
    ensures SplitLine(line, delimiter).None? <==> Quotes(line) % 2 == 1
  {
    SplitFromRefuses(line, delimiter, false, "", []);
  }

  // ----- rendering (section 2, items 5 to 7, of RFC 4180)

  /** Every quote doubled. */
  function Doubled(s: string): string {
    if s == "" then "" else (if s[0] == QUOTE then [QUOTE, QUOTE] else [s[0]]) + Doubled(s[1..])
  }

  /** A field, enclosed in quotes or bare. */
  function RenderField(field: string, enclosed: bool): string {
    if enclosed then [QUOTE] + Doubled(field) + [QUOTE] else field
  }

  /** A field that holds a quote or the delimiter must be enclosed. */
  predicate Renderable(field: string, enclosed: bool, delimiter: char) {
    enclosed || (QUOTE !in field && delimiter !in field)
  }

  function RenderLine(fields: seq<string>, enclosed: seq<bool>, delimiter: char): string
    requires fields != [] && |enclosed| == |fields|
  {
    if |fields| == 1 then RenderField(fields[0], enclosed[0])
    else RenderField(fields[0], enclosed[0]) + [delimiter] + RenderLine(fields[1..], enclosed[1..], delimiter)
  }

  predicate RenderableLine(fields: seq<string>, enclosed: seq<bool>, delimiter: char) {
    && fields != [] && |enclosed| == |fields| && delimiter != QUOTE
    && forall i :: 0 <= i < |fields| ==> Renderable(fields[i], enclosed[i], delimiter)
  }

  lemma {:induction false} SplitEnclosed(field: string, rest: string, delimiter: char, current: string,
                                         fields: seq<string>)
    requires rest == "" || rest[0] != QUOTE
    ensures SplitFrom(Doubled(field) + [QUOTE] + rest, delimiter, true, current, fields)
         == SplitFrom(rest, delimiter, false, current + field, fields)
    decreases |field|
  {
    var s := Doubled(field) + [QUOTE] + rest;
    if field == "" {
      assert s == [QUOTE] + rest && s[1..] == rest;
      assert current + field == current;
    } else {
      var tail := Doubled(field[1..]) + [QUOTE] + rest;
      SplitEnclosed(field[1..], rest, delimiter, current + [field[0]], fields);
      assert current + [field[0]] + field[1..] == current + field;
      if field[0] == QUOTE {
        assert s == [QUOTE, QUOTE] + tail && s[2..] == tail;
      } else {
        assert s == [field[0]] + tail && s[1..] == tail;
      }
    }
  }

  lemma {:induction false} SplitBare(field: string, rest: string, delimiter: char, current: string, fields: seq<string>)
    requires QUOTE !in field && delimiter !in field
    ensures SplitFrom(field + rest, delimiter, false, current, fields) ==
      SplitFrom(rest, delimiter, false, current + field, fields)
    decreases |field|
  {
    if field == "" {
      assert field + rest == rest && current + field == current;
    } else {
      assert (field + rest)[1..] == field[1..] + rest;
      SplitBare(field[1..], rest, delimiter, current + [field[0]], fields);
      assert current + [field[0]] + field[1..] == current + field;
    }
  }

  lemma SplitRendered(field: string, enclosed: bool, rest: string, delimiter: char, fields: seq<string>)
    requires Renderable(field, enclosed, delimiter) && (rest == "" || rest[0] != QUOTE)
    ensures SplitFrom(RenderField(field, enclosed) + rest, delimiter, false, "", fields)
         == SplitFrom(rest, delimiter, false, field, fields)
  {
    assert "" + field == field;
    if enclosed {
      var s := RenderField(field, enclosed) + rest;
      assert s == [QUOTE] + (Doubled(field) + [QUOTE] + rest);
      assert s[1..] == Doubled(field) + [QUOTE] + rest;
      SplitEnclosed(field, rest, delimiter, "", fields);
    } else {
      SplitBare(field, rest, delimiter, "", fields);
    }
  }

  lemma SplitDelimiter(rest: string, delimiter: char, field: string, fields: seq<string>)
    requires delimiter != QUOTE
    ensures SplitFrom([delimiter] + rest, delimiter, false, field, fields) ==
      SplitFrom(rest, delimiter, false, "", fields + [field])
  {
    assert ([delimiter] + rest)[1..] == rest;
  }

  lemma SplitEnd(delimiter: char, field: string, fields: seq<string>)
    ensures SplitFrom("", delimiter, false, field, fields) == Some(fields + [field])
  {
  }

  lemma {:induction false} SplitRenderedLine(some: seq<string>, enclosed: seq<bool>, delimiter: char,
                                             fields: seq<string>)
    requires RenderableLine(some, enclosed, delimiter)
    ensures SplitFrom(RenderLine(some, enclosed, delimiter), delimiter, false, "", fields) == Some(fields + some)
    decreases |some|
  {
    hide SplitFrom;
    hide RenderField;
    var first := RenderField(some[0], enclosed[0]);
    if |some| == 1 {
      SplitRendered(some[0], enclosed[0], "", delimiter, fields);
      SplitEnd(delimiter, some[0], fields);
      assert first + "" == first && some == [some[0]];
    } else {
      var tail := RenderLine(some[1..], enclosed[1..], delimiter);
      SplitRendered(some[0], enclosed[0], [delimiter] + tail, delimiter, fields);
      assert RenderLine(some, enclosed, delimiter) == first + ([delimiter] + tail);
      SplitDelimiter(tail, delimiter, some[0], fields);
      SplitRenderedLine(some[1..], enclosed[1..], delimiter, fields + [some[0]]);
      assert fields + [some[0]] + some[1..] == fields + some;
    }
  }

  /** Splitting undoes rendering, whichever fields are enclosed. */
  lemma SplitRoundTrip(fields: seq<string>, enclosed: seq<bool>, delimiter: char)
    requires RenderableLine(fields, enclosed, delimiter)
    ensures SplitLine(RenderLine(fields, enclosed, delimiter), delimiter) == Some(fields)
  {
    SplitRenderedLine(fields, enclosed, delimiter, []);
    assert [] + fields == fields;
  }

  // ----- any line

  /** What a line is made of: bare characters, text in quotes, and delimiters. */
  datatype Piece = Bare(text: string) | Enclosed(text: string) | Delimiter

  function PieceText(piece: Piece, delimiter: char): string {
    match piece
    case Bare(text) => text
    case Enclosed(text) => [QUOTE] + Doubled(text) + [QUOTE]
    case Delimiter => [delimiter]
  }

  function PiecesText(pieces: seq<Piece>, delimiter: char): string {
    if pieces == [] then "" else PieceText(pieces[0], delimiter) + PiecesText(pieces[1..], delimiter)
  }

  /** Bare text holds neither quote nor delimiter, and no two texts in quotes touch. */
  predicate WellPieced(pieces: seq<Piece>, delimiter: char) {
    pieces != [] ==>
      && (pieces[0].Bare? ==> pieces[0].text != "" && QUOTE !in pieces[0].text && delimiter !in pieces[0].text)
      && (pieces[0].Enclosed? && |pieces| > 1 ==> !pieces[1].Enclosed?)
      && WellPieced(pieces[1..], delimiter)
  }

  /** The fields that pieces make, behind a field begun and fields complete: delimiters end fields,
    texts extend them. */
  function FieldsFrom(pieces: seq<Piece>, current: string, fields: seq<string>): seq<string> {
    if pieces == [] then fields + [current]
    else
      match pieces[0]
      case Bare(text) => FieldsFrom(pieces[1..], current + text, fields)
      case Enclosed(text) => FieldsFrom(pieces[1..], current + text, fields)
      case Delimiter => FieldsFrom(pieces[1..], "", fields + [current])
  }

  lemma PiecesStart(pieces: seq<Piece>, delimiter: char)
    requires WellPieced(pieces, delimiter) && delimiter != QUOTE
    ensures pieces == [] || !pieces[0].Enclosed? ==>
      PiecesText(pieces, delimiter) == "" || PiecesText(pieces, delimiter)[0] != QUOTE
  {
  }

  lemma {:induction false} SplitPieces(pieces: seq<Piece>, delimiter: char, current: string, fields: seq<string>)
    requires WellPieced(pieces, delimiter) && delimiter != QUOTE
    ensures SplitFrom(PiecesText(pieces, delimiter), delimiter, false, current, fields) ==
      Some(FieldsFrom(pieces, current, fields))
    decreases |pieces|
  {
    hide SplitFrom;
    if pieces == [] {
      SplitEnd(delimiter, current, fields);
    } else {
      var rest := PiecesText(pieces[1..], delimiter);
      match pieces[0]
      case Bare(text) =>
        SplitBare(text, rest, delimiter, current, fields);
        SplitPieces(pieces[1..], delimiter, current + text, fields);
      case Enclosed(text) =>
        PiecesStart(pieces[1..], delimiter);
        SplitQuoted(text, rest, delimiter, current, fields);
        SplitPieces(pieces[1..], delimiter, current + text, fields);
      case Delimiter =>
        SplitDelimiter(rest, delimiter, current, fields);
        SplitPieces(pieces[1..], delimiter, "", fields + [current]);
    }
  }

  lemma SplitQuoted(text: string, rest: string, delimiter: char, current: string, fields: seq<string>)
    requires rest == "" || rest[0] != QUOTE
    ensures SplitFrom([QUOTE] + Doubled(text) + [QUOTE] + rest, delimiter, false, current, fields)
         == SplitFrom(rest, delimiter, false, current + text, fields)
  {
    var s := [QUOTE] + Doubled(text) + [QUOTE] + rest;
    assert s[0] == QUOTE && s[1..] == Doubled(text) + [QUOTE] + rest;
    SplitEnclosed(text, rest, delimiter, current, fields);
  }

  lemma DoubledCons(c: char, more: string)
    ensures Doubled([c] + more) == (if c == QUOTE then [QUOTE, QUOTE] else [c]) + Doubled(more)
  {
    assert ([c] + more)[1..] == more;
  }

  lemma QuotesCons(c: char, more: string)
    ensures Quotes([c] + more) == (if c == QUOTE then 1 else 0) + Quotes(more)
  {
    assert ([c] + more)[1..] == more;
  }

  lemma Apart(s: string)
    requires s != ""
    ensures s == [s[0]] + s[1..] && (|s| > 1 ==> s[1..] == [s[1]] + s[2..])
  {
  }

  /** The text in quotes that `s` begins with, behind its opening quote, if it is closed. */
  lemma {:induction false} QuotedStart(s: string) returns (text: string, rest: string)
    requires Quotes(s) % 2 == 1
    ensures s == Doubled(text) + [QUOTE] + rest && (rest == "" || rest[0] != QUOTE)
    ensures Quotes(rest) % 2 == 0 && |rest| < |s|
    decreases |s|
  {
    hide Doubled;
    assert s != "";
    hide Quotes;
    Apart(s);
    QuotesCons(s[0], s[1..]);
    if s[0] == QUOTE && (|s| == 1 || s[1] != QUOTE) {
      text, rest := "", s[1..];
      assert Doubled("") == "" by { NothingDoubled(); }
    } else if s[0] == QUOTE {
      QuotesCons(s[1], s[2..]);
      var more;
      more, rest := QuotedStart(s[2..]);
      text := [QUOTE] + more;
      DoubledCons(QUOTE, more);
    } else {
      var more;
      more, rest := QuotedStart(s[1..]);
      text := [s[0]] + more;
      DoubledCons(s[0], more);
    }
  }

  lemma NothingDoubled()
    ensures Doubled("") == ""
  {
  }

  lemma PiecesCons(piece: Piece, more: seq<Piece>, delimiter: char)
    ensures PiecesText([piece] + more, delimiter) == PieceText(piece, delimiter) + PiecesText(more, delimiter)
    ensures WellPieced([piece] + more, delimiter) <==>
      && (piece.Bare? ==> piece.text != "" && QUOTE !in piece.text && delimiter !in piece.text)
      && (piece.Enclosed? && more != [] ==> !more[0].Enclosed?)
      && WellPieced(more, delimiter)
  {
    assert ([piece] + more)[1..] == more;
  }

  lemma EnclosedStarts(pieces: seq<Piece>, delimiter: char)
    requires pieces != [] && pieces[0].Enclosed?
    ensures PiecesText(pieces, delimiter) != "" && PiecesText(pieces, delimiter)[0] == QUOTE
  {
  }

  /** `pieces` are what the line is made of. */
  predicate MadeOf(line: string, pieces: seq<Piece>, delimiter: char) {
    WellPieced(pieces, delimiter) && PiecesText(pieces, delimiter) == line
  }

  lemma QuotedFirst(text: string, rest: string, more: seq<Piece>, delimiter: char)
    requires MadeOf(rest, more, delimiter) && (rest == "" || rest[0] != QUOTE)
    ensures MadeOf([QUOTE] + (Doubled(text) + [QUOTE] + rest), [Enclosed(text)] + more, delimiter)
  {
    hide Doubled;
    if more != [] && more[0].Enclosed? {
      EnclosedStarts(more, delimiter);
    }
    PiecesCons(Enclosed(text), more, delimiter);
    hide WellPieced;
    hide PiecesText;
    assert [QUOTE] + (Doubled(text) + [QUOTE] + rest) == [QUOTE] + Doubled(text) + [QUOTE] + rest;
  }

  lemma PlainFirst(c: char, rest: string, more: seq<Piece>, delimiter: char)
    requires MadeOf(rest, more, delimiter) && c != QUOTE
    ensures MadeOf([c] + rest, [if c == delimiter then Delimiter else Bare([c])] + more, delimiter)
  {
    PiecesCons(if c == delimiter then Delimiter else Bare([c]), more, delimiter);
    hide WellPieced;
    hide PiecesText;
  }

  lemma NoPieces(delimiter: char)
    ensures MadeOf("", [], delimiter)
  {
  }

  /** Every line with an even number of quotes is made of such pieces. */
  lemma {:induction false} PiecesOf(line: string, delimiter: char) returns (pieces: seq<Piece>)
    requires Quotes(line) % 2 == 0 && delimiter != QUOTE
    ensures MadeOf(line, pieces, delimiter)
    decreases |line|
  {
    hide Quotes;
    hide Doubled;
    hide MadeOf;
    if line == "" {
      NoPieces(delimiter);
      pieces := [];
    } else {
      Apart(line);
      QuotesCons(line[0], line[1..]);
      if line[0] == QUOTE {
        var text, rest := QuotedStart(line[1..]);
        var more := PiecesOf(rest, delimiter);
        pieces := [Enclosed(text)] + more;
        QuotedFirst(text, rest, more, delimiter);
      } else {
        var more := PiecesOf(line[1..], delimiter);
        pieces := [if line[0] == delimiter then Delimiter else Bare([line[0]])] + more;
        PlainFirst(line[0], line[1..], more, delimiter);
      }
    }
  }

  /** What any line splits into: quotes switch, doubled quotes inside quotes stand for one,
    delimiters outside quotes end
    * fields; and there is no other line that splits. */
  lemma SplitExact(line: string, delimiter: char)
    requires delimiter != QUOTE
    ensures forall pieces :: MadeOf(line, pieces, delimiter) ==>
      SplitLine(line, delimiter) == Some(FieldsFrom(pieces, "", []))
    ensures SplitLine(line, delimiter).Some? <==> exists pieces :: MadeOf(line, pieces, delimiter)
  {
    forall pieces | MadeOf(line, pieces, delimiter)
      ensures SplitLine(line, delimiter) == Some(FieldsFrom(pieces, "", []))
    {
      SplitPieces(pieces, delimiter, "", []);
    }
    if SplitLine(line, delimiter).Some? {
      SplitRefusesOddQuotes(line, delimiter);
      var pieces := PiecesOf(line, delimiter);
    }
  }
}
