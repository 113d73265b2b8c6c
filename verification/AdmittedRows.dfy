/** Which lines of a statement become rows and which are rejected, without reference to the state of the run. */
module AdmittedRows {
  import opened Wrappers
  import opened Numbers
  import opened Sequences
  import opened Text
  import opened Fields
  import opened AmountText
  import opened StatementData
  import opened Admission
  import opened AdmissionProperties
  import opened AdmissionRules

  /** A profile that admission accepts, apart from its texts. */
  predicate ReadableProfile(p: Profile) {
    p.fractionalDigits <= 2 && p.decimalSeparator as char in {'.', ','}
  }

  /** The line is not empty and not the header, which is the first line that is not empty. */
  ghost predicate BodyLine(p: Profile, lines: seq<string>, i: nat) {
    && i < |lines| && DropReturn(lines[i]) != ""
    && (p.hasHeader ==> exists j :: 0 <= j < i && DropReturn(lines[j]) != "")
  }

  /** The line, read on its own, says a row of this identity. */
  ghost predicate Claims(p: Profile, sourceRef: string, lines: seq<string>, i: nat, x: string)
    requires ReadableProfile(p)
  {
    BodyLine(p, lines, i) && exists row :: LineSays(p, sourceRef, i + 1, DropReturn(lines[i]), row) && row.identity == x
  }

  ghost predicate ClaimedBefore(p: Profile, sourceRef: string, lines: seq<string>, i: nat, x: string)
    requires ReadableProfile(p)
  {
    exists j: nat :: j < i && Claims(p, sourceRef, lines, j, x)
  }

  /** The line says this row, and no line before it says a row of its identity. */
  ghost predicate Offers(p: Profile, sourceRef: string, lines: seq<string>, i: nat, row: StatementRow)
    requires ReadableProfile(p)
  {
    && BodyLine(p, lines, i) && LineSays(p, sourceRef, i + 1, DropReturn(lines[i]), row)
    && !ClaimedBefore(p, sourceRef, lines, i, row.identity)
  }

  function AmountUpTo(ordinal: nat): StatementRow -> int {
    (row: StatementRow) => if row.ordinal <= ordinal then row.amount as int else 0
  }

  /** The sum of the rows from the lines before line `i` has room for the amount. */
  predicate HasRoom(rows: seq<StatementRow>, i: nat, amount: int) {
    IsI64(SumOf(AmountUpTo(i), rows) + amount)
  }

  // ----- prefixes

  lemma BodyLinePrefix(p: Profile, lines: seq<string>, line: string, i: nat)
    requires i < |lines|
    ensures BodyLine(p, lines + [line], i) <==> BodyLine(p, lines, i)
  {
    assert forall j :: 0 <= j < |lines| ==> (lines + [line])[j] == lines[j];
  }

  lemma ClaimsPrefix(p: Profile, sourceRef: string, lines: seq<string>, line: string, i: nat, x: string)
    requires ReadableProfile(p) && i < |lines|
    ensures Claims(p, sourceRef, lines + [line], i, x) <==> Claims(p, sourceRef, lines, i, x)
  {
    hide LineSays;
    BodyLinePrefix(p, lines, line, i);
    hide BodyLine;
    assert (lines + [line])[i] == lines[i];
  }

  lemma ClaimedPrefix(p: Profile, sourceRef: string, lines: seq<string>, line: string, i: nat, x: string)
    requires ReadableProfile(p) && i <= |lines|
    ensures ClaimedBefore(p, sourceRef, lines + [line], i, x) <==> ClaimedBefore(p, sourceRef, lines, i, x)
  {
    hide Claims;
    forall j: nat | j < i
      ensures Claims(p, sourceRef, lines + [line], j, x) <==> Claims(p, sourceRef, lines, j, x)
    {
      ClaimsPrefix(p, sourceRef, lines, line, j, x);
    }
  }

  lemma OffersPrefix(p: Profile, sourceRef: string, lines: seq<string>, line: string, i: nat, row: StatementRow)
    requires ReadableProfile(p) && i < |lines|
    ensures Offers(p, sourceRef, lines + [line], i, row) <==> Offers(p, sourceRef, lines, i, row)
  {
    hide LineSays;
    hide ClaimedBefore;
    BodyLinePrefix(p, lines, line, i);
    hide BodyLine;
    ClaimedPrefix(p, sourceRef, lines, line, i, row.identity);
    assert (lines + [line])[i] == lines[i];
  }

  /** The header stays pending as long as all lines are empty. */
  lemma {:induction false} PendingExact(p: Profile, sourceRef: string, lines: seq<string>)
    requires ReadableProfile(p)
    ensures Run(p, sourceRef, lines).headerPending <==>
      p.hasHeader && forall j :: 0 <= j < |lines| ==> DropReturn(lines[j]) == ""
  {
    hide ParseRow;
    hide DropReturn;
    if lines != [] {
      hide Run;
      var init, line := lines[..|lines| - 1], lines[|lines| - 1];
      assert lines == init + [line];
      PendingExact(p, sourceRef, init);
      RunSnoc(p, sourceRef, init, line);
      assert forall j :: 0 <= j < |init| ==> lines[j] == init[j];
    }
  }

  // ----- one line

  /** A line says at most one row. */
  lemma SaysOneRow(p: Profile, sourceRef: string, ordinal: nat, raw: string, a: StatementRow, b: StatementRow)
    requires ReadableProfile(p)
    requires LineSays(p, sourceRef, ordinal, raw, a) && LineSays(p, sourceRef, ordinal, raw, b)
    ensures a == b
  {
    hide LineSays;
    hide ParseRow;
    ParseRowExact(p, sourceRef, ordinal, raw, {}, a);
    ParseRowExact(p, sourceRef, ordinal, raw, {}, b);
  }

  lemma OnlyRow(p: Profile, sourceRef: string, ordinal: nat, raw: string, row: StatementRow)
    requires ReadableProfile(p) && LineSays(p, sourceRef, ordinal, raw, row)
    ensures forall other :: LineSays(p, sourceRef, ordinal, raw, other) ==> other == row
  {
    hide LineSays;
    forall other | LineSays(p, sourceRef, ordinal, raw, other) ensures other == row {
      SaysOneRow(p, sourceRef, ordinal, raw, row, other);
    }
  }

  /** The step over a line that is neither empty nor the header, by what the line says. */
  lemma StepExact(p: Profile, sourceRef: string, st: State, index: nat, line: string, row: StatementRow)
    requires ReadableProfile(p) && DropReturn(line) != "" && !st.headerPending
    requires LineSays(p, sourceRef, index + 1, DropReturn(line), row) && row.identity !in st.taken
    ensures
      var after := Step(p, sourceRef, st, index, line);
      && after.taken == st.taken + {row.identity}
      && if IsI64(st.total + row.amount) then after.rows == st.rows + [row] && after.rejected == st.rejected
         else
           && after.rows == st.rows
           && after.rejected == st.rejected + [Rejected(index + 1, DropReturn(line), BadAmount(ArithmeticOverflow))]
  {
    hide LineSays;
    hide ParseRow;
    hide DropReturn;
    ParseRowExact(p, sourceRef, index + 1, DropReturn(line), st.taken, row);
  }

  lemma StepRefuses(p: Profile, sourceRef: string, st: State, index: nat, line: string)
    requires ReadableProfile(p) && DropReturn(line) != "" && !st.headerPending
    requires forall row :: LineSays(p, sourceRef, index + 1, DropReturn(line), row) ==> row.identity in st.taken
    ensures
      var after, parsed := Step(p, sourceRef, st, index, line),
        ParseRow(p, sourceRef, index + 1, DropReturn(line), st.taken);
      && parsed.Err? && after.taken == st.taken && after.rows == st.rows
      && after.rejected == st.rejected + [Rejected(index + 1, DropReturn(line), parsed.error)]
  {
    hide LineSays;
    hide ParseRow;
    hide DropReturn;
    var parsed := ParseRow(p, sourceRef, index + 1, DropReturn(line), st.taken);
    if parsed.Ok? {
      ParseRowExact(p, sourceRef, index + 1, DropReturn(line), st.taken, parsed.value);
    }
  }

  lemma StepSkips(p: Profile, sourceRef: string, st: State, index: nat, line: string)
    requires ReadableProfile(p) && (DropReturn(line) == "" || st.headerPending)
    ensures
      var after := Step(p, sourceRef, st, index, line);
      after.taken == st.taken && after.rows == st.rows && after.rejected == st.rejected
  {
    hide DropReturn;
  }

  /** The last line is a body line exactly when it is not empty and the header is behind. */
  lemma LastBody(p: Profile, sourceRef: string, lines: seq<string>, line: string)
    requires ReadableProfile(p)
    ensures BodyLine(p, lines + [line], |lines|) <==>
      DropReturn(line) != "" && !Run(p, sourceRef, lines).headerPending
  {
    hide Run;
    hide DropReturn;
    PendingExact(p, sourceRef, lines);
    assert (lines + [line])[|lines|] == line;
    assert forall j :: 0 <= j < |lines| ==> (lines + [line])[j] == lines[j];
  }

  // ----- the identities

  /** The identities taken are those that some line claims. */
  lemma {:induction false} TakenExact(p: Profile, sourceRef: string, lines: seq<string>, x: string)
    requires ReadableProfile(p)
    ensures x in Run(p, sourceRef, lines).taken <==> ClaimedBefore(p, sourceRef, lines, |lines|, x)
  {
    hide Claims;
    hide Step;
    if lines == [] {
      assert Run(p, sourceRef, lines).taken == {};
    } else {
      hide Run;
      var init, line := lines[..|lines| - 1], lines[|lines| - 1];
      assert lines == init + [line];
      TakenExact(p, sourceRef, init, x);
      RunSnoc(p, sourceRef, init, line);
      ClaimedPrefix(p, sourceRef, init, line, |init|, x);
      LastTaken(p, sourceRef, init, line, x);
      ClaimedNext(p, sourceRef, lines, |init|, x);
      hide ClaimedBefore;
    }
  }

  lemma ClaimedNext(p: Profile, sourceRef: string, lines: seq<string>, i: nat, x: string)
    requires ReadableProfile(p)
    ensures ClaimedBefore(p, sourceRef, lines, i + 1, x) <==>
      ClaimedBefore(p, sourceRef, lines, i, x) || Claims(p, sourceRef, lines, i, x)
  {
    hide Claims;
    if j: nat :| j < i + 1 && Claims(p, sourceRef, lines, j, x) {
      assert j < i || j == i;
    }
  }

  lemma LastTaken(p: Profile, sourceRef: string, init: seq<string>, line: string, x: string)
    requires ReadableProfile(p)
    ensures
      var st := Run(p, sourceRef, init);
      x in Step(p, sourceRef, st, |init|, line).taken <==>
        x in st.taken || Claims(p, sourceRef, init + [line], |init|, x)
  {
    hide Run;
    hide Step;
    hide LineSays;
    hide DropReturn;
    var st, lines := Run(p, sourceRef, init), init + [line];
    LastBody(p, sourceRef, init, line);
    assert lines[|init|] == line;
    hide BodyLine;
    if !BodyLine(p, lines, |init|) {
      StepSkips(p, sourceRef, st, |init|, line);
    } else if row :| LineSays(p, sourceRef, |init| + 1, DropReturn(line), row) && row.identity !in st.taken {
      StepExact(p, sourceRef, st, |init|, line, row);
      OnlyRow(p, sourceRef, |init| + 1, DropReturn(line), row);
    } else {
      StepRefuses(p, sourceRef, st, |init|, line);
    }
  }

  // ----- the rows

  lemma SumUpTo(rows: seq<StatementRow>, row: StatementRow, ordinal: nat)
    requires row.ordinal > ordinal
    ensures SumOf(AmountUpTo(ordinal), rows + [row]) == SumOf(AmountUpTo(ordinal), rows)
  {
    SumOfSnoc(AmountUpTo(ordinal), rows, row);
  }

  lemma RoomStays(rows: seq<StatementRow>, row: StatementRow, i: nat, amount: int)
    requires row.ordinal > i
    ensures HasRoom(rows + [row], i, amount) <==> HasRoom(rows, i, amount)
  {
    SumUpTo(rows, row, i);
  }

  lemma {:induction false} RowsNumbered(p: Profile, sourceRef: string, lines: seq<string>)
    requires ReadableProfile(p)
    ensures forall row :: row in Run(p, sourceRef, lines).rows ==> row.ordinal <= |lines|
  {
    hide ParseRow;
    hide DropReturn;
    if lines != [] {
      hide Run;
      hide Step;
      var init, line := lines[..|lines| - 1], lines[|lines| - 1];
      assert lines == init + [line];
      RowsNumbered(p, sourceRef, init);
      RunSnoc(p, sourceRef, init, line);
      StepNumbered(p, sourceRef, Run(p, sourceRef, init), |init|, line);
    }
  }

  lemma StepNumbered(p: Profile, sourceRef: string, st: State, index: nat, line: string)
    requires ReadableProfile(p)
    requires forall row :: row in st.rows ==> row.ordinal <= index
    ensures forall row :: row in Step(p, sourceRef, st, index, line).rows ==> row.ordinal <= index + 1
  {
    hide ParseRow;
    hide DropReturn;
    var parsed := ParseRow(p, sourceRef, index + 1, DropReturn(line), st.taken);
    if parsed.Ok? {
      var d := ParseRowFacts(p, sourceRef, index + 1, DropReturn(line), st.taken);
    }
  }

  lemma AllUpTo(rows: seq<StatementRow>, n: nat)
    requires forall row :: row in rows ==> row.ordinal <= n
    ensures SumOf(AmountUpTo(n), rows) == SumOf(RowAmount, rows)
  {
    SumOfSame(AmountUpTo(n), RowAmount, rows);
  }

  /** Behind all lines so far, the room is what the running total leaves. */
  lemma RoomOfTotal(p: Profile, sourceRef: string, lines: seq<string>, amount: int)
    requires ReadableProfile(p)
    ensures HasRoom(Run(p, sourceRef, lines).rows, |lines|, amount) <==> IsI64(Run(p, sourceRef, lines).total + amount)
  {
    hide Run;
    hide SumOf;
    hide Sound;
    hide AmountUpTo;
    RunSound(p, sourceRef, lines);
    RowsNumbered(p, sourceRef, lines);
    TotalIsSum(p, Run(p, sourceRef, lines));
    AllUpTo(Run(p, sourceRef, lines).rows, |lines|);
  }

  lemma TotalIsSum(p: Profile, st: State)
    requires Sound(p, st)
    ensures st.total == SumOf(RowAmount, st.rows)
  {
    hide NoDup;
    hide SoundRow;
  }

  /** The line is admitted as the row. */
  ghost predicate Placed(p: Profile, sourceRef: string, lines: seq<string>, rows: seq<StatementRow>, i: nat,
                         row: StatementRow)
    requires ReadableProfile(p)
  {
    Offers(p, sourceRef, lines, i, row) && HasRoom(rows, i, row.amount)
  }

  /** The line is rejected: it offers a row for which there is no room, or the row parser refuses it. */
  ghost predicate Turned(p: Profile, sourceRef: string, lines: seq<string>, rows: seq<StatementRow>, i: nat,
                         r: Rejected)
    requires ReadableProfile(p)
  {
    && BodyLine(p, lines, i) && r.ordinal == i + 1 && r.original == DropReturn(lines[i])
    && (|| (r.reason == BadAmount(ArithmeticOverflow) && OffersTooMuch(p, sourceRef, lines, rows, i))
        || RefusedFor(p, sourceRef, lines, i, r.reason))
  }

  ghost predicate OffersTooMuch(p: Profile, sourceRef: string, lines: seq<string>, rows: seq<StatementRow>, i: nat)
    requires ReadableProfile(p)
  {
    exists row :: Offers(p, sourceRef, lines, i, row) && !HasRoom(rows, i, row.amount)
  }

  /** The row parser refuses the line with exactly the identities claimed before it taken. */
  ghost predicate RefusedFor(p: Profile, sourceRef: string, lines: seq<string>, i: nat, reason: StatementError)
    requires ReadableProfile(p) && i < |lines|
  {
    exists taken: set<string> :: ClaimedExactly(p, sourceRef, lines, i, taken)
      && ParseRow(p, sourceRef, i + 1, DropReturn(lines[i]), taken) == Err(reason)
  }

  ghost predicate ClaimedExactly(p: Profile, sourceRef: string, lines: seq<string>, i: nat, taken: set<string>)
    requires ReadableProfile(p)
  {
    forall x :: x in taken <==> ClaimedBefore(p, sourceRef, lines, i, x)
  }

  // ----- the last line

  /** The identities taken before the last line are those claimed before it, and no other set is. */
  lemma TakenIsClaimed(p: Profile, sourceRef: string, init: seq<string>, line: string)
    requires ReadableProfile(p)
    ensures
      var taken := Run(p, sourceRef, init).taken;
      && ClaimedExactly(p, sourceRef, init + [line], |init|, taken)
      && forall other :: ClaimedExactly(p, sourceRef, init + [line], |init|, other) ==> other == taken
  {
    hide Run;
    hide ClaimedBefore;
    forall x ensures x in Run(p, sourceRef, init).taken <==> ClaimedBefore(p, sourceRef, init + [line], |init|, x) {
      TakenExact(p, sourceRef, init, x);
      ClaimedPrefix(p, sourceRef, init, line, |init|, x);
    }
  }

  /** What the last line adds to the rows and to the rejections. */
  ghost predicate Adds(p: Profile, sourceRef: string, lines: seq<string>, before: State, after: State,
                       row: Option<StatementRow>, rejection: Option<Rejected>)
    requires ReadableProfile(p) && lines != []
  {
    var n := |lines| - 1;
    && after.rows == before.rows + (if row.Some? then [row.value] else [])
    && after.rejected == before.rejected + (if rejection.Some? then [rejection.value] else [])
    && (row.Some? ==> row.value.ordinal == n + 1)
    && (forall r :: Placed(p, sourceRef, lines, after.rows, n, r) <==> row == Some(r))
    && (forall r :: Turned(p, sourceRef, lines, after.rows, n, r) <==> rejection == Some(r))
  }

  lemma NothingAdded(p: Profile, sourceRef: string, init: seq<string>, line: string)
    requires ReadableProfile(p) && !BodyLine(p, init + [line], |init|)
    ensures
      var st := Run(p, sourceRef, init);
      Adds(p, sourceRef, init + [line], st, Step(p, sourceRef, st, |init|, line), None, None)
  {
    hide Run;
    hide Step;
    hide DropReturn;
    var st := Run(p, sourceRef, init);
    LastBody(p, sourceRef, init, line);
    hide BodyLine;
    StepSkips(p, sourceRef, st, |init|, line);
    assert st.rows + [] == st.rows && st.rejected + [] == st.rejected;
  }

  /** A line that offers a row: it is placed, or turned away for lack of room. */
  lemma OfferAdded(p: Profile, sourceRef: string, init: seq<string>, line: string, row: StatementRow)
    requires ReadableProfile(p) && BodyLine(p, init + [line], |init|)
    requires LineSays(p, sourceRef, |init| + 1, DropReturn(line), row) && row.identity !in Run(p, sourceRef, init).taken
    ensures
      var st := Run(p, sourceRef, init);
      var fits := IsI64(st.total + row.amount);
      Adds(p, sourceRef, init + [line], st, Step(p, sourceRef, st, |init|, line),
           if fits then Some(row) else None,
           if fits then None else Some(Rejected(|init| + 1, DropReturn(line), BadAmount(ArithmeticOverflow))))
  {
    hide Run;
    hide Step;
    hide DropReturn;
    hide LineSays;
    hide ClaimedBefore;
    hide ParseRow;
    hide HasRoom;
    hide SumOf;
    var st, lines, n := Run(p, sourceRef, init), init + [line], |init|;
    assert lines[n] == line;
    LastBody(p, sourceRef, init, line);
    hide BodyLine;
    StepExact(p, sourceRef, st, n, line, row);
    OnlyRow(p, sourceRef, n + 1, DropReturn(line), row);
    TakenIsClaimed(p, sourceRef, init, line);
    RowNumber(p, sourceRef, n + 1, DropReturn(line), row);
    RoomOfTotal(p, sourceRef, init, row.amount);
    RoomStays(st.rows, row, n, row.amount);
    ParseRowExact(p, sourceRef, n + 1, DropReturn(line), st.taken, row);
    assert st.rows + [] == st.rows && st.rejected + [] == st.rejected;
    assert Offers(p, sourceRef, lines, n, row);
    hide Offers;
    forall r ensures Offers(p, sourceRef, lines, n, r) <==> r == row {
      OffersSays(p, sourceRef, lines, n, r);
    }
  }

  lemma OffersSays(p: Profile, sourceRef: string, lines: seq<string>, i: nat, row: StatementRow)
    requires ReadableProfile(p)
    ensures Offers(p, sourceRef, lines, i, row) ==>
      i < |lines| && LineSays(p, sourceRef, i + 1, DropReturn(lines[i]), row)
  {
    hide LineSays;
  }

  lemma RowNumber(p: Profile, sourceRef: string, ordinal: nat, raw: string, row: StatementRow)
    requires ReadableProfile(p) && LineSays(p, sourceRef, ordinal, raw, row)
    ensures row.ordinal == ordinal
  {
  }

  /** A line that offers nothing is turned away with the row parser's reason. */
  lemma RefusalAdded(p: Profile, sourceRef: string, init: seq<string>, line: string)
    requires ReadableProfile(p) && BodyLine(p, init + [line], |init|)
    requires forall row :: LineSays(p, sourceRef, |init| + 1, DropReturn(line), row) ==>
      row.identity in Run(p, sourceRef, init).taken
    ensures
      var st := Run(p, sourceRef, init);
      var parsed := ParseRow(p, sourceRef, |init| + 1, DropReturn(line), st.taken);
      && parsed.Err?
      && Adds(p, sourceRef, init + [line], st, Step(p, sourceRef, st, |init|, line), None,
              Some(Rejected(|init| + 1, DropReturn(line), parsed.error)))
  {
    hide Run;
    hide Step;
    hide DropReturn;
    hide LineSays;
    hide ClaimedBefore;
    hide ParseRow;
    hide HasRoom;
    var st, lines, n := Run(p, sourceRef, init), init + [line], |init|;
    assert lines[n] == line;
    LastBody(p, sourceRef, init, line);
    hide BodyLine;
    StepRefuses(p, sourceRef, st, n, line);
    TakenIsClaimed(p, sourceRef, init, line);
    assert st.rows + [] == st.rows;
    assert forall row :: !Offers(p, sourceRef, lines, n, row);
  }

  lemma LastAdds(p: Profile, sourceRef: string, init: seq<string>, line: string)
    returns (row: Option<StatementRow>, rejection: Option<Rejected>)
    requires ReadableProfile(p)
    ensures
      var st := Run(p, sourceRef, init);
      Adds(p, sourceRef, init + [line], st, Step(p, sourceRef, st, |init|, line), row, rejection)
  {
    hide Run;
    hide Step;
    hide DropReturn;
    hide LineSays;
    hide Adds;
    hide BodyLine;
    hide ParseRow;
    var st := Run(p, sourceRef, init);
    if !BodyLine(p, init + [line], |init|) {
      NothingAdded(p, sourceRef, init, line);
      row, rejection := None, None;
    } else if said :| LineSays(p, sourceRef, |init| + 1, DropReturn(line), said) && said.identity !in st.taken {
      OfferAdded(p, sourceRef, init, line, said);
      var fits := IsI64(st.total + said.amount);
      row := if fits then Some(said) else None;
      rejection := if fits then None else Some(Rejected(|init| + 1, DropReturn(line), BadAmount(ArithmeticOverflow)));
    } else {
      RefusalAdded(p, sourceRef, init, line);
      row := None;
      rejection := Some(Rejected(|init| + 1, DropReturn(line),
                                 ParseRow(p, sourceRef, |init| + 1, DropReturn(line), st.taken).error));
    }
  }

  // ----- all lines

  lemma PlacedPrefix(p: Profile, sourceRef: string, init: seq<string>, line: string, rows: seq<StatementRow>,
                     more: seq<StatementRow>, i: nat, row: StatementRow)
    requires ReadableProfile(p) && i < |init|
    requires more == [] || (|more| == 1 && more[0].ordinal == |init| + 1)
    ensures Placed(p, sourceRef, init + [line], rows + more, i, row) <==> Placed(p, sourceRef, init, rows, i, row)
  {
    hide Offers;
    hide HasRoom;
    OffersPrefix(p, sourceRef, init, line, i, row);
    if more == [] {
      assert rows + more == rows;
    } else {
      assert more == [more[0]];
      RoomStays(rows, more[0], i, row.amount);
    }
  }

  lemma TurnedPrefix(p: Profile, sourceRef: string, init: seq<string>, line: string, rows: seq<StatementRow>,
                     more: seq<StatementRow>, i: nat, r: Rejected)
    requires ReadableProfile(p) && i < |init|
    requires more == [] || (|more| == 1 && more[0].ordinal == |init| + 1)
    ensures Turned(p, sourceRef, init + [line], rows + more, i, r) <==> Turned(p, sourceRef, init, rows, i, r)
  {
    hide Offers;
    hide HasRoom;
    hide ParseRow;
    hide DropReturn;
    hide ClaimedBefore;
    BodyLinePrefix(p, init, line, i);
    hide BodyLine;
    assert (init + [line])[i] == init[i];
    forall x ensures ClaimedBefore(p, sourceRef, init + [line], i, x) <==> ClaimedBefore(p, sourceRef, init, i, x) {
      ClaimedPrefix(p, sourceRef, init, line, i, x);
    }
    forall taken
      ensures ClaimedExactly(p, sourceRef, init + [line], i, taken) <==> ClaimedExactly(p, sourceRef, init, i, taken)
    {
    }
    forall row ensures Offers(p, sourceRef, init + [line], i, row) <==> Offers(p, sourceRef, init, i, row) {
      OffersPrefix(p, sourceRef, init, line, i, row);
    }
    forall amount ensures HasRoom(rows + more, i, amount) <==> HasRoom(rows, i, amount) {
      if more == [] {
        assert rows + more == rows;
      } else {
        assert more == [more[0]];
        RoomStays(rows, more[0], i, amount);
      }
    }
  }

  ghost predicate Decided(p: Profile, sourceRef: string, lines: seq<string>, st: State)
    requires ReadableProfile(p)
  {
    && (forall row :: row in st.rows <==> exists i: nat :: i < |lines| && Placed(p, sourceRef, lines, st.rows, i, row))
    && (forall r :: r in st.rejected <==> exists i: nat :: i < |lines| && Turned(p, sourceRef, lines, st.rows, i, r))
  }

  lemma NothingDecided(p: Profile, sourceRef: string)
    requires ReadableProfile(p)
    ensures Decided(p, sourceRef, [], Run(p, sourceRef, []))
  {
  }

  lemma DecidedStep(p: Profile, sourceRef: string, init: seq<string>, line: string, st: State, after: State,
                    row: Option<StatementRow>, rejection: Option<Rejected>)
    requires ReadableProfile(p) && Decided(p, sourceRef, init, st)
    requires Adds(p, sourceRef, init + [line], st, after, row, rejection)
    ensures Decided(p, sourceRef, init + [line], after)
  {
    hide Placed;
    hide Turned;
    var lines, n := init + [line], |init|;
    var more := if row.Some? then [row.value] else [];
    forall i: nat, r | i < n
      ensures Placed(p, sourceRef, lines, after.rows, i, r) <==> Placed(p, sourceRef, init, st.rows, i, r)
    {
      PlacedPrefix(p, sourceRef, init, line, st.rows, more, i, r);
    }
    forall i: nat, r | i < n
      ensures Turned(p, sourceRef, lines, after.rows, i, r) <==> Turned(p, sourceRef, init, st.rows, i, r)
    {
      TurnedPrefix(p, sourceRef, init, line, st.rows, more, i, r);
    }
    forall r ensures r in after.rows <==>
      exists i: nat :: i < |lines| && Placed(p, sourceRef, lines, after.rows, i, r) {
      InConcat(st.rows, more, r);
      if i: nat :| i < |lines| && Placed(p, sourceRef, lines, after.rows, i, r) {
        assert i < n || i == n;
      }
      if row == Some(r) {
        assert Placed(p, sourceRef, lines, after.rows, n, r);
      }
    }
    forall r ensures r in after.rejected <==>
      exists i: nat :: i < |lines| && Turned(p, sourceRef, lines, after.rows, i, r) {
      InConcat(st.rejected, if rejection.Some? then [rejection.value] else [], r);
      if i: nat :| i < |lines| && Turned(p, sourceRef, lines, after.rows, i, r) {
        assert i < n || i == n;
      }
      if rejection == Some(r) {
        assert Turned(p, sourceRef, lines, after.rows, n, r);
      }
    }
  }

  /**
   Which lines become rows: exactly those whose fields say a row, whose identity no line
   before them claims, and whose amount still fits. All others behind the header are
   rejected, for lack of room or for the row parser's reason.
   */
  lemma {:induction false} RunDecided(p: Profile, sourceRef: string, lines: seq<string>)
    requires ReadableProfile(p)
    ensures Decided(p, sourceRef, lines, Run(p, sourceRef, lines))
  {
    hide Run;
    hide Step;
    hide Decided;
    hide Adds;
    if lines == [] {
      NothingDecided(p, sourceRef);
    } else {
      var init, line := lines[..|lines| - 1], lines[|lines| - 1];
      assert lines == init + [line];
      RunDecided(p, sourceRef, init);
      RunSnoc(p, sourceRef, init, line);
      var row, rejection := LastAdds(p, sourceRef, init, line);
      DecidedStep(p, sourceRef, init, line, Run(p, sourceRef, init), Run(p, sourceRef, lines), row, rejection);
    }
  }

  // ----- whole statements

  /** What admission asks of the profile: its version, a name, a currency, a delimiter and a decimal rule. */
  predicate ProfileAccepted(p: Profile) {
    && p.version == 1 && p.id != "" && p.currency != ""
    && p.delimiter < 128 && p.delimiter != 10 && p.delimiter != 13 && p.delimiter != 34
    && (p.decimalSeparator == 46 || p.decimalSeparator == 44) && p.fractionalDigits <= 2
  }

  lemma ProfileExact(p: Profile)
    ensures ValidateProfile(p).Ok? <==> ProfileAccepted(p)
    ensures ValidateProfile(p).Err? ==>
      ValidateProfile(p).error == UnsupportedProfileVersion(p.version) || ValidateProfile(p).error.InvalidProfile?
    ensures ValidateProfile(p) == Err(UnsupportedProfileVersion(p.version)) <==> p.version != 1
  {
  }

  /** When a statement is admitted at all, and why not. */
  lemma AdmitSucceeds(p: Profile, sourceRef: string, cutoff: string, text: Option<string>, balances: seq<LedgerBalance>)
    ensures
      var r := AdmitSpec(p, sourceRef, cutoff, text, balances);
      && (r.Ok? <==> ProfileAccepted(p) && sourceRef != "" && cutoff != "" && text.Some?)
      && (forall version :: r == Err(UnsupportedProfileVersion(version)) <==> version == p.version != 1)
      && (r == Err(InvalidEncoding) <==> ProfileAccepted(p) && sourceRef != "" && cutoff != "" && text.None?)
  {
    ProfileExact(p);
    hide Run;
    hide Lines;
    hide ValidateProfile;
    hide ProfileAccepted;
  }

  /** The snapshot carries what it was given, its rows are decided line by line, and its total is their sum. */
  lemma AdmittedExact(p: Profile, sourceRef: string, cutoff: string, text: string, balances: seq<LedgerBalance>)
    requires AdmitSpec(p, sourceRef, cutoff, Some(text), balances).Ok?
    ensures
      var admitted := AdmitSpec(p, sourceRef, cutoff, Some(text), balances).value;
      var snapshot, lines := admitted.snapshot, Lines(text);
      && ReadableProfile(p)
      && (forall row :: row in snapshot.rows <==>
            exists i: nat :: i < |lines| && Placed(p, sourceRef, lines, snapshot.rows, i, row))
      && (forall r :: r in admitted.rejected <==>
            exists i: nat :: i < |lines| && Turned(p, sourceRef, lines, snapshot.rows, i, r))
      && snapshot.total == SumOf(RowAmount, snapshot.rows)
      && snapshot.cutoff == cutoff && snapshot.sourceRef == sourceRef && snapshot.profileId == p.id
      && snapshot.ledgerBalances == balances
  {
    hide Run;
    hide Lines;
    hide Placed;
    hide Turned;
    hide SumOf;
    hide Sound;
    RunDecided(p, sourceRef, Lines(text));
    RunSound(p, sourceRef, Lines(text));
    TotalIsSum(p, Run(p, sourceRef, Lines(text)));
  }

  /** Where there is a currency column, every row of the snapshot has the profile's currency in it. */
  lemma AdmittedCurrencies(p: Profile, sourceRef: string, cutoff: string, text: string, balances: seq<LedgerBalance>,
                           row: StatementRow)
    requires AdmitSpec(p, sourceRef, cutoff, Some(text), balances).Ok? && p.currencyColumn.Some?
    requires row in AdmitSpec(p, sourceRef, cutoff, Some(text), balances).value.snapshot.rows
    ensures
      var fields := SplitLine(row.original, p.delimiter as char);
      && fields.Some? && p.currencyColumn.value < |fields.value|
      && Trim(fields.value[p.currencyColumn.value]) == p.currency
  {
    hide AdmitSpec;
    hide Lines;
    hide HasRoom;
    hide BodyLine;
    hide ClaimedBefore;
    hide SplitLine;
    hide Trim;
    hide IdentityReads;
    hide DateColumnReads;
    hide AmountReads;
    hide DescriptionReads;
    AdmittedExact(p, sourceRef, cutoff, text, balances);
  }

  lemma {:induction false} SomeClaimed(p: Profile, sourceRef: string, lines: seq<string>, i: nat)
    returns (taken: set<string>)
    requires ReadableProfile(p) && i <= |lines|
    ensures ClaimedExactly(p, sourceRef, lines, i, taken)
  {
    hide ClaimedBefore;
    hide Run;
    if i == |lines| {
      taken := Run(p, sourceRef, lines).taken;
      forall x ensures x in taken <==> ClaimedBefore(p, sourceRef, lines, i, x) {
        TakenExact(p, sourceRef, lines, x);
      }
    } else {
      var init, line := lines[..|lines| - 1], lines[|lines| - 1];
      assert lines == init + [line];
      taken := SomeClaimed(p, sourceRef, init, i);
      forall x ensures x in taken <==> ClaimedBefore(p, sourceRef, lines, i, x) {
        ClaimedPrefix(p, sourceRef, init, line, i, x);
      }
    }
  }

  /** A body line with a free identity, a date and another currency is rejected for that, whatever its amount. */
  lemma ForeignRejected(p: Profile, sourceRef: string, cutoff: string, text: string, balances: seq<LedgerBalance>,
                        i: nat, identity: string, date: string)
    requires AdmitSpec(p, sourceRef, cutoff, Some(text), balances).Ok? && ReadableProfile(p)
    requires BodyLine(p, Lines(text), i) && SplitLine(DropReturn(Lines(text)[i]), p.delimiter as char).Some?
    requires
      var fields := SplitLine(DropReturn(Lines(text)[i]), p.delimiter as char).value;
      && IdentityReads(p, fields, identity) && !ClaimedBefore(p, sourceRef, Lines(text), i, identity)
      && DateColumnReads(p, fields, date)
      && p.currencyColumn.Some? && p.currencyColumn.value < |fields| &&
        Trim(fields[p.currencyColumn.value]) != p.currency
    ensures
      var raw := DropReturn(Lines(text)[i]);
      Rejected(i + 1, raw, MixedCurrency(p.currency,
        Trim(SplitLine(raw, p.delimiter as char).value[p.currencyColumn.value])))
        in AdmitSpec(p, sourceRef, cutoff, Some(text), balances).value.rejected
  {
    hide AdmitSpec;
    hide Lines;
    hide ParseRow;
    hide Placed;
    hide SplitLine;
    hide DropReturn;
    hide Trim;
    hide DateReads;
    hide ClaimedBefore;
    hide OffersTooMuch;
    var lines := Lines(text);
    var raw := DropReturn(lines[i]);
    var taken := SomeClaimed(p, sourceRef, lines, i);
    ParseRowRefusals(p, sourceRef, i + 1, raw, taken);
    AdmittedExact(p, sourceRef, cutoff, text, balances);
    var fields := SplitLine(raw, p.delimiter as char).value;
    assert DatedFields(p, fields, taken);
    var reason := MixedCurrency(p.currency, Trim(fields[p.currencyColumn.value]));
    assert ParseRow(p, sourceRef, i + 1, raw, taken) == Err(reason);
    assert RefusedFor(p, sourceRef, lines, i, reason);
    hide RefusedFor;
    hide BodyLine;
    var snapshot := AdmitSpec(p, sourceRef, cutoff, Some(text), balances).value.snapshot;
    assert Turned(p, sourceRef, lines, snapshot.rows, i, Rejected(i + 1, raw, reason));
  }
}
