/** The string operations of the parsers: digits, splitting, trimming, lines. */
module Text {
  import opened Wrappers
  import opened Numbers

  // ----- decimal digits

  predicate IsDigit(c: char) {
    '0' <= c <= '9'
  }

  predicate AllDigits(s: string) {
    forall i :: 0 <= i < |s| ==> IsDigit(s[i])
  }

  /** The number that a string of digits spells. */
  function Value(s: string): nat
    requires AllDigits(s)
  {
    if s == "" then 0 else 10 * Value(s[..|s| - 1]) + (s[|s| - 1] - '0') as nat
  }

  function Digit(d: nat): (c: char)
    requires d < 10
    ensures IsDigit(c) && (c - '0') as nat == d
  {
    '0' + d as char
  }

  /** The shortest decimal spelling. */
  function Print(n: nat): (s: string)
    ensures s != "" && AllDigits(s) && Value(s) == n
    ensures forall w: nat :: w >= 1 && n < Pow10(w) ==> |s| <= w
  {
    if n < 10 then [Digit(n)] else
    var s := Print(n / 10) + [Digit(n % 10)];
    assert s[..|s| - 1] == Print(n / 10);
    s
  }

  function Zeros(n: nat): (s: string)
    ensures |s| == n && AllDigits(s) && Value(s) == 0
  {
    if n == 0 then "" else
    var s := Zeros(n - 1) + "0";
    assert s[..n - 1] == Zeros(n - 1);
    s
  }

  lemma {:induction false} LeadingZeros(n: nat, s: string)
    requires AllDigits(s)
    ensures AllDigits(Zeros(n) + s) && Value(Zeros(n) + s) == Value(s)
  {
    var t := Zeros(n) + s;
    if s == "" {
      assert t == Zeros(n);
    } else {
      LeadingZeros(n, s[..|s| - 1]);
      assert t[..|t| - 1] == Zeros(n) + s[..|s| - 1];
    }
  }

  /** Zero-padded to at least `width` digits (`{:0width$}`). */
  function Padded(n: nat, width: nat): (s: string)
    ensures s != "" && AllDigits(s) && Value(s) == n
    ensures |s| >= width && (width >= 1 && n < Pow10(width) ==> |s| == width)
  {
    var s := Print(n);
    if |s| >= width then s else
    LeadingZeros(width - |s|, s);
    Zeros(width - |s|) + s
  }

  lemma PrintInjective(m: nat, n: nat)
    requires Print(m) == Print(n)
    ensures m == n
  {
  }

  /** `str::parse` of an unsigned integer up to `max`: an optional plus, then digits. */
  function ParseUnsigned(s: string, max: nat): (r: Option<nat>)
    ensures r.Some? ==> r.value <= max
  {
    var digits := if s != "" && s[0] == '+' then s[1..] else s;
    if digits != "" && AllDigits(digits) && Value(digits) <= max then Some(Value(digits)) else None
  }

  lemma ParsePadded(n: nat, width: nat, max: nat)
    requires n <= max
    ensures ParseUnsigned(Padded(n, width), max) == Some(n)
  {
    hide Padded;
    hide Value;
    assert IsDigit(Padded(n, width)[0]);
  }

  /** `str::parse::<i64>`: an optional sign, then digits. */
  function ParseI64(s: string): (r: Option<int>)
    ensures r.Some? ==> IsI64(r.value)
  {
    if s != "" && s[0] == '-' then
      if |s| == 1 || !AllDigits(s[1..]) then None else
      var value := -(Value(s[1..]) as int);
      if value >= I64_MIN then Some(value) else None
    else
      ParseUnsigned(s, I64_MAX)
  }

  /** `str::parse::<i32>`. */
  function ParseI32(s: string): (r: Option<int>)
    ensures r.Some? ==> IsI32(r.value)
  {
    var value :- ParseI64(s);
    if IsI32(value) then Some(value) else None
  }

  /** The shortest spelling of an integer, with a minus sign where needed. */
  function PrintInt(n: int): string {
    if n < 0 then "-" + Print(-n) else Print(n)
  }

  lemma ParsePrintInt(n: i64)
    ensures ParseI64(PrintInt(n)) == Some(n)
    ensures IsI32(n) ==> ParseI32(PrintInt(n)) == Some(n)
  {
    assert IsI64(n);
    if n < 0 {
      var digits := Print(-(n as int));
      assert PrintInt(n)[1..] == digits;
    } else {
      assert IsDigit(Print(n)[0]);
    }
  }

  /** Different integers have different spellings. */
  lemma PrintIntInjective(m: int, n: int)
    requires PrintInt(m) == PrintInt(n)
    ensures m == n
  {
    if m < 0 {
      assert PrintInt(m)[0] == '-' && PrintInt(m)[1..] == Print(-m);
    }
    if n < 0 {
      assert PrintInt(n)[0] == '-' && PrintInt(n)[1..] == Print(-n);
    }
    if m < 0 && n < 0 {
      PrintInjective(-m, -n);
    } else if m >= 0 && n >= 0 {
      PrintInjective(m, n);
    }
  }

  // ----- splitting at a separator

  predicate Free(s: string, c: char) {
    c !in s
  }

  /** `str::split` at a character: the pieces between its occurrences. */
  function Split(s: string, sep: char): (pieces: seq<string>)
    ensures |pieces| >= 1
  {
    if s == "" then [""]
    else if s[0] == sep then [""] + Split(s[1..], sep)
    else
      var rest := Split(s[1..], sep);
      [[s[0]] + rest[0]] + rest[1..]
  }

  lemma {:induction false} SplitAt(p: string, rest: string, sep: char)
    requires Free(p, sep)
    ensures Split(p + [sep] + rest, sep) == [p] + Split(rest, sep)
  {
    var s := p + [sep] + rest;
    if p == "" {
      assert s[1..] == rest;
    } else {
      SplitAt(p[1..], rest, sep);
      assert s[1..] == p[1..] + [sep] + rest;
      assert [p[0]] + p[1..] == p;
    }
  }

  lemma {:induction false} SplitFree(p: string, sep: char)
    requires Free(p, sep)
    ensures Split(p, sep) == [p]
  {
    if p != "" {
      SplitFree(p[1..], sep);
      assert [p[0]] + p[1..] == p;
    }
  }

  /** Three pieces joined by a separator split back into the three pieces. */
  lemma SplitThree(a: string, b: string, c: string, sep: char)
    requires Free(a, sep) && Free(b, sep) && Free(c, sep)
    ensures Split(a + [sep] + b + [sep] + c, sep) == [a, b, c]
  {
    assert a + [sep] + b + [sep] + c == a + [sep] + (b + [sep] + c);
    SplitAt(a, b + [sep] + c, sep);
    SplitAt(b, c, sep);
    SplitFree(c, sep);
  }

  /** The pieces with the separator between them. */
  function Join(pieces: seq<string>, sep: char): string
    requires pieces != []
  {
    if |pieces| == 1 then pieces[0] else pieces[0] + [sep] + Join(pieces[1..], sep)
  }

  /** Splitting loses nothing, and no piece holds the separator. */
  lemma {:induction false} SplitJoins(s: string, sep: char)
    ensures Join(Split(s, sep), sep) == s
    ensures forall i :: 0 <= i < |Split(s, sep)| ==> Free(Split(s, sep)[i], sep)
  {
    if s != "" {
      SplitJoins(s[1..], sep);
      var rest := Split(s[1..], sep);
      assert s == [s[0]] + s[1..];
      if s[0] == sep {
        assert Split(s, sep)[1..] == rest;
        assert "" + [sep] + Join(rest, sep) == s;
      } else {
        var pieces := Split(s, sep);
        assert pieces[1..] == rest[1..] && pieces[0] == [s[0]] + rest[0];
        if |rest| > 1 {
          assert Join(pieces, sep) == [s[0]] + (rest[0] + [sep] + Join(rest[1..], sep));
        }
      }
    }
  }

  lemma {:induction false} JoinSplits(pieces: seq<string>, sep: char)
    requires pieces != [] && forall i :: 0 <= i < |pieces| ==> Free(pieces[i], sep)
    ensures Split(Join(pieces, sep), sep) == pieces
  {
    if |pieces| == 1 {
      SplitFree(pieces[0], sep);
    } else {
      JoinSplits(pieces[1..], sep);
      SplitAt(pieces[0], Join(pieces[1..], sep), sep);
      assert pieces == [pieces[0]] + pieces[1..];
    }
  }

  // ----- numerals

  /** Digits, behind an optional plus, of a number up to `max`. */
  predicate Numeral(s: string, n: nat, max: nat) {
    var digits := if "+" <= s then s[1..] else s;
    digits != "" && AllDigits(digits) && Value(digits) == n && n <= max
  }

  /** Three numerals with a separator between them. */
  predicate ThreeNumerals(text: string, sep: char, a: string, b: string, c: string, x: int, y: int, z: int, max: nat) {
    && x >= 0 && y >= 0 && z >= 0
    && text == a + [sep] + b + [sep] + c && Numeral(a, x, max) && Numeral(b, y, max) && Numeral(c, z, max)
  }

  lemma NumeralParsed(s: string, n: nat, max: nat)
    ensures ParseUnsigned(s, max) == Some(n) <==> Numeral(s, n, max)
  {
    hide Value;
  }

  /** Without a minus, a signed number is an unsigned one. */
  lemma UnsignedParsed(s: string)
    requires Free(s, '-')
    ensures ParseI64(s) == ParseUnsigned(s, I64_MAX)
  {
  }

  lemma NumeralFree(s: string, n: nat, max: nat, sep: char)
    requires Numeral(s, n, max) && (sep == '-' || sep == '/')
    ensures Free(s, sep)
  {
  }

  lemma ThreePieces(text: string, sep: char)
    requires |Split(text, sep)| == 3
    ensures
      var parts := Split(text, sep);
      && text == parts[0] + [sep] + parts[1] + [sep] + parts[2]
      && Free(parts[0], sep) && Free(parts[1], sep) && Free(parts[2], sep)
  {
    hide Split;
    var parts := Split(text, sep);
    SplitJoins(text, sep);
    assert parts[1..] == [parts[1], parts[2]] && parts[1..][1..] == [parts[2]];
    assert Join(parts, sep) == parts[0] + [sep] + Join(parts[1..], sep);
    assert Join(parts[1..], sep) == parts[1] + [sep] + Join(parts[1..][1..], sep);
  }

  lemma NumeralsSplit(text: string, sep: char, a: string, b: string, c: string, x: int, y: int, z: int, max: nat)
    requires ThreeNumerals(text, sep, a, b, c, x, y, z, max) && (sep == '-' || sep == '/')
    ensures Split(text, sep) == [a, b, c] && Free(a, sep) && Free(b, sep) && Free(c, sep)
  {
    hide Split;
    hide Value;
    NumeralFree(a, x, max, sep);
    NumeralFree(b, y, max, sep);
    NumeralFree(c, z, max, sep);
    SplitThree(a, b, c, sep);
  }

  // ----- trimming

  /** The Unicode `White_Space` property. */
  predicate IsWhite(c: char) {
    || '\t' <= c <= '\r' || c == ' ' || c == '\U{85}' || c == '\U{A0}' || c == '\U{1680}'
    || '\U{2000}' <= c <= '\U{200A}' || c == '\U{2028}' || c == '\U{2029}' || c == '\U{202F}'
    || c == '\U{205F}' || c == '\U{3000}'
  }

  /** No white space at either end. */
  predicate Trimmed(s: string) {
    s == "" || (!IsWhite(s[0]) && !IsWhite(s[|s| - 1]))
  }

  function TrimStart(s: string): string {
    if s != "" && IsWhite(s[0]) then TrimStart(s[1..]) else s
  }

  function TrimEnd(s: string): string {
    if s != "" && IsWhite(s[|s| - 1]) then TrimEnd(s[..|s| - 1]) else s
  }

  function Trim(s: string): string {
    TrimEnd(TrimStart(s))
  }

  lemma TrimTrimmed(s: string)
    requires Trimmed(s)
    ensures Trim(s) == s
  {
  }

  lemma TrimmedTrim(s: string)
    ensures Trimmed(Trim(s))
  {
    TrimEndTrimmed(TrimStart(s));
    TrimStartBegins(s);
  }

  lemma {:induction false} TrimStartBegins(s: string)
    ensures TrimStart(s) == "" || !IsWhite(TrimStart(s)[0])
  {
    if s != "" && IsWhite(s[0]) {
      TrimStartBegins(s[1..]);
    }
  }

  lemma {:induction false} TrimEndTrimmed(s: string)
    ensures TrimEnd(s) == "" || !IsWhite(TrimEnd(s)[|TrimEnd(s)| - 1])
    ensures TrimEnd(s) == "" || (s != "" && TrimEnd(s)[0] == s[0])
  {
    if s != "" && IsWhite(s[|s| - 1]) {
      TrimEndTrimmed(s[..|s| - 1]);
    }
  }

  predicate AllWhite(s: string) {
    forall i :: 0 <= i < |s| ==> IsWhite(s[i])
  }

  lemma {:induction false} TrimStartWhite(a: string, s: string)
    requires AllWhite(a) && (s == "" || !IsWhite(s[0]))
    ensures TrimStart(a + s) == s
    decreases |a|
  {
    if a == "" {
      assert a + s == s;
    } else {
      assert (a + s)[1..] == a[1..] + s;
      TrimStartWhite(a[1..], s);
    }
  }

  lemma {:induction false} TrimEndWhite(s: string, b: string)
    requires AllWhite(b) && (s == "" || !IsWhite(s[|s| - 1]))
    ensures TrimEnd(s + b) == s
    decreases |b|
  {
    if b == "" {
      assert s + b == s;
    } else {
      assert (s + b)[..|s + b| - 1] == s + b[..|b| - 1];
      TrimEndWhite(s, b[..|b| - 1]);
    }
  }

  /** Trimming drops the white space at both ends, all of it and nothing else. */
  lemma TrimExact(a: string, s: string, b: string)
    requires AllWhite(a) && AllWhite(b) && Trimmed(s)
    ensures Trim(a + s + b) == s
  {
    if s == "" {
      assert a + s + b == (a + b) + "";
      TrimStartWhite(a + b, "");
    } else {
      assert a + s + b == a + (s + b);
      TrimStartWhite(a, s + b);
      TrimEndWhite(s, b);
    }
  }

  lemma {:induction false} TrimStartEmpty(s: string)
    ensures TrimStart(s) == "" <==> AllWhite(s)
  {
    if s != "" && IsWhite(s[0]) {
      TrimStartEmpty(s[1..]);
      assert forall i :: 0 < i < |s| ==> s[i] == s[1..][i - 1];
    }
  }

  /** Only white space trims to nothing. */
  lemma TrimEmpty(s: string)
    ensures Trim(s) == "" <==> AllWhite(s)
  {
    TrimStartEmpty(s);
    TrimStartBegins(s);
    TrimEndTrimmed(TrimStart(s));
    if TrimStart(s) != "" {
      TrimEndKeeps(TrimStart(s));
    }
  }

  lemma {:induction false} TrimEndKeeps(s: string)
    requires s != "" && !IsWhite(s[0])
    ensures TrimEnd(s) != ""
  {
    if IsWhite(s[|s| - 1]) {
      TrimEndKeeps(s[..|s| - 1]);
    }
  }

  // ----- lines

  /** `line` without one carriage return at its end. */
  function DropReturn(line: string): string {
    if line != "" && line[|line| - 1] == '\r' then line[..|line| - 1] else line
  }

  /** `str::lines`: newline-terminated lines without `\n` or `\r\n`, and an unterminated rest. */
  function Lines(s: string): seq<string> {
    LinesOfPieces(Split(s, '\n'))
  }

  /** All pieces but the last are terminated; the last one counts unless it is empty. */
  function LinesOfPieces(pieces: seq<string>): seq<string>
    requires pieces != []
  {
    TerminatedLines(pieces[..|pieces| - 1]) +
    (if pieces[|pieces| - 1] == "" then [] else [pieces[|pieces| - 1]])
  }

  lemma PiecesBehind(p: string, more: seq<string>)
    requires more != []
    ensures LinesOfPieces([p] + more) == [DropReturn(p)] + LinesOfPieces(more)
  {
    hide DropReturn;
    var n := |more|;
    assert ([p] + more)[..n] == [p] + more[..n - 1] && ([p] + more)[n] == more[n - 1];
    assert TerminatedLines([p] + more[..n - 1]) == [DropReturn(p)] + TerminatedLines(more[..n - 1]);
  }

  /** One carriage return is dropped, and only at the end. */
  lemma OneReturnDropped(s: string)
    ensures DropReturn(s + "\r") == s
    ensures (s == "" || s[|s| - 1] != '\r') ==> DropReturn(s) == s
  {
  }

  /** A terminated line stands before the lines of the rest. */
  lemma LinesAt(p: string, rest: string)
    requires Free(p, '\n')
    ensures Lines(p + ['\n'] + rest) == [DropReturn(p)] + Lines(rest)
  {
    hide Split;
    hide Free;
    hide LinesOfPieces;
    hide DropReturn;
    SplitAt(p, rest, '\n');
    PiecesBehind(p, Split(rest, '\n'));
  }

  function TerminatedLines(pieces: seq<string>): (lines: seq<string>)
    ensures |lines| == |pieces|
    ensures forall i :: 0 <= i < |lines| ==> lines[i] == DropReturn(pieces[i])
  {
    seq(|pieces|, i requires 0 <= i < |pieces| => DropReturn(pieces[i]))
  }
}
