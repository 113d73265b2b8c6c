/** Which rejected lines affect the accepted snapshot. */
module RejectedLines {
  import opened Wrappers
  import opened Numbers
  import opened Sequences
  import opened Text
  import opened Calendar
  import opened Fields
  import opened StatementData
  import opened Admission
  import opened AdmissionProperties
  import opened Layouts
  import opened LayoutIndependence

  // ----- a line on its own

  /** Line `k` is not empty and, with no identity taken, reads as a row of identity `x`. */
  predicate Names(p: Profile, sourceRef: string, lines: seq<string>, k: nat, x: string)
    requires p.fractionalDigits <= 2 && k < |lines|
  {
    var alone := ParseRow(p, sourceRef, k + 1, DropReturn(lines[k]), {});
    DropReturn(lines[k]) != "" && alone.Ok? && alone.value.identity == x
  }

  /** Taken identities matter to the row parser only by the line's own identity. */
  lemma ParseRowAlone(p: Profile, sourceRef: string, ordinal: nat, raw: string, taken: set<string>)
    requires p.fractionalDigits <= 2
    ensures
      var alone := ParseRow(p, sourceRef, ordinal, raw, {});
      if alone.Ok? && alone.value.identity !in taken then ParseRow(p, sourceRef, ordinal, raw, taken) == alone
      else ParseRow(p, sourceRef, ordinal, raw, taken).Err?
  {
    hide SplitLine;
    hide Field;
    hide CanonicalDate;
    hide CheckCurrency;
    hide AmountField;
    hide Description;
  }

  /** One step, by what the line is on its own: a claim of a free identity reserves it, whether or not it fits. */
  lemma StepAlone(p: Profile, sourceRef: string, st: State, index: nat, line: string)
    requires p.fractionalDigits <= 2 && !st.headerPending
    ensures
      var alone := ParseRow(p, sourceRef, index + 1, DropReturn(line), {});
      var after := Step(p, sourceRef, st, index, line);
      && !after.headerPending
      && if DropReturn(line) != "" && alone.Ok? && alone.value.identity !in st.taken then
           && after.taken == st.taken + {alone.value.identity}
           && if IsI64(st.total + alone.value.amount)
              then after.rows == st.rows + [alone.value] && after.total == st.total + alone.value.amount
              else after.rows == st.rows && after.total == st.total
         else after.rows == st.rows && after.taken == st.taken && after.total == st.total
  {
    ParseRowAlone(p, sourceRef, index + 1, DropReturn(line), st.taken);
    hide ParseRow;
    hide DropReturn;
  }

  // ----- two runs side by side

  predicate SameSnapshot(a: State, b: State) {
    a.rows == b.rows && a.total == b.total
  }

  ghost predicate Carried(st: State, x: string) {
    exists row :: row in st.rows && row.identity == x
  }

  /** The first run has reserved `x` without a row; otherwise both are the same. */
  ghost predicate Held(a: State, b: State, x: string) {
    && SameSnapshot(a, b) && a.taken == b.taken + {x} && x !in b.taken
    && !a.headerPending && !b.headerPending && !Carried(a, x)
  }

  /** The second run carries a row of identity `x`, and the first never will. */
  ghost predicate Parted(a: State, b: State, x: string) {
    x in a.taken && x in b.taken && !Carried(a, x) && Carried(b, x) && !a.headerPending && !b.headerPending
  }

  lemma CarriedSnoc(rows: seq<StatementRow>, row: StatementRow, x: string)
    ensures (exists r :: r in rows + [row] && r.identity == x) <==>
      (exists r :: r in rows && r.identity == x) || row.identity == x
  {
    InConcat(rows, [row], row);
    forall r ensures r in rows + [row] <==> r in rows || r == row {
      InConcat(rows, [row], r);
    }
  }

  /** While no line claims `x` it stays held back; the first that does parts the runs if its amount fits, and makes
    * them the same if not. */
  lemma HeldStep(p: Profile, sourceRef: string, a: State, b: State, x: string, index: nat, line: string)
    requires p.fractionalDigits <= 2 && Held(a, b, x)
    ensures
      var alone := ParseRow(p, sourceRef, index + 1, DropReturn(line), {});
      var next, other := Step(p, sourceRef, a, index, line), Step(p, sourceRef, b, index, line);
      if DropReturn(line) != "" && alone.Ok? && alone.value.identity == x then
        if IsI64(a.total + alone.value.amount) then Parted(next, other, x)
        else SameAccepted(next, other) && !next.headerPending
      else Held(next, other, x)
  {
    StepAlone(p, sourceRef, a, index, line);
    StepAlone(p, sourceRef, b, index, line);
    var alone := ParseRow(p, sourceRef, index + 1, DropReturn(line), {});
    hide ParseRow;
    hide Step;
    hide DropReturn;
    if alone.Ok? {
      CarriedSnoc(a.rows, alone.value, x);
    }
  }

  lemma PartedStep(p: Profile, sourceRef: string, a: State, b: State, x: string, index: nat, line: string)
    requires p.fractionalDigits <= 2 && Parted(a, b, x)
    ensures Parted(Step(p, sourceRef, a, index, line), Step(p, sourceRef, b, index, line), x)
  {
    StepAlone(p, sourceRef, a, index, line);
    StepAlone(p, sourceRef, b, index, line);
    var alone := ParseRow(p, sourceRef, index + 1, DropReturn(line), {});
    hide ParseRow;
    hide Step;
    hide DropReturn;
    if alone.Ok? {
      CarriedSnoc(a.rows, alone.value, x);
      CarriedSnoc(b.rows, alone.value, x);
    }
  }

  lemma PartedDiffers(a: State, b: State, x: string)
    requires Parted(a, b, x)
    ensures !SameSnapshot(a, b)
  {
  }

  // ----- a row rejected for overflow

  /** Line `i` parses under the identities before it, and the running total cannot take it. */
  predicate Overflows(p: Profile, sourceRef: string, lines: seq<string>, i: nat)
    requires p.fractionalDigits <= 2 && i < |lines|
  {
    var st := Run(p, sourceRef, lines[..i]);
    var parsed := ParseRow(p, sourceRef, i + 1, DropReturn(lines[i]), st.taken);
    DropReturn(lines[i]) != "" && !st.headerPending && parsed.Ok? && !IsI64(st.total + parsed.value.amount)
  }

  function IdentityAt(p: Profile, sourceRef: string, lines: seq<string>, i: nat): string
    requires p.fractionalDigits <= 2 && i < |lines| && Overflows(p, sourceRef, lines, i)
  {
    ParseRow(p, sourceRef, i + 1, DropReturn(lines[i]), Run(p, sourceRef, lines[..i]).taken).value.identity
  }

  /** Line `k` is the first behind line `i` that names `x`. */
  ghost predicate FirstBehind(p: Profile, sourceRef: string, lines: seq<string>, i: nat, x: string, k: nat)
    requires p.fractionalDigits <= 2
  {
    i < k < |lines| && Names(p, sourceRef, lines, k, x) && forall j :: i < j < k ==> !Names(p, sourceRef, lines, j, x)
  }

  /** The running total before line `k` can take the line's amount. */
  predicate Fits(p: Profile, sourceRef: string, lines: seq<string>, k: nat)
    requires p.fractionalDigits <= 2 && k < |lines| && ParseRow(p, sourceRef, k + 1, DropReturn(lines[k]), {}).Ok?
  {
    IsI64(Run(p, sourceRef, lines[..k]).total + ParseRow(p, sourceRef, k + 1, DropReturn(lines[k]), {}).value.amount)
  }

  /** The first later line of the same identity fits. */
  ghost predicate Reclaimed(p: Profile, sourceRef: string, lines: seq<string>, i: nat)
    requires p.fractionalDigits <= 2 && i < |lines|
  {
    Overflows(p, sourceRef, lines, i) &&
    exists k :: FirstBehind(p, sourceRef, lines, i, IdentityAt(p, sourceRef, lines, i), k) &&
      Fits(p, sourceRef, lines, k)
  }

  lemma PrefixStep(p: Profile, sourceRef: string, lines: seq<string>, n: nat)
    requires p.fractionalDigits <= 2 && n < |lines|
    ensures Run(p, sourceRef, lines[..n + 1]) == Step(p, sourceRef, Run(p, sourceRef, lines[..n]), n, lines[n])
  {
    RunLast(p, sourceRef, lines[..n + 1]);
    assert lines[..n + 1][..n] == lines[..n];
  }

  lemma OverflowHolds(p: Profile, sourceRef: string, lines: seq<string>, i: nat)
    requires p.fractionalDigits <= 2 && i < |lines| && Overflows(p, sourceRef, lines, i)
    ensures Held(Run(p, sourceRef, lines[..i + 1]), Run(p, sourceRef, lines[i := ""][..i + 1]),
                 IdentityAt(p, sourceRef, lines, i))
  {
    var st, other := Run(p, sourceRef, lines[..i]), lines[i := ""];
    var x := IdentityAt(p, sourceRef, lines, i);
    PrefixStep(p, sourceRef, lines, i);
    PrefixStep(p, sourceRef, other, i);
    assert other[..i] == lines[..i];
    ParseRowAlone(p, sourceRef, i + 1, DropReturn(lines[i]), st.taken);
    StepAlone(p, sourceRef, st, i, lines[i]);
    NothingStep(p, sourceRef, st, i);
    RunCarries(p, sourceRef, lines[..i], x);
    hide Run;
    hide Step;
    hide ParseRow;
    hide DropReturn;
  }

  lemma NothingStep(p: Profile, sourceRef: string, st: State, index: nat)
    requires p.fractionalDigits <= 2
    ensures Step(p, sourceRef, st, index, "") == st
  {
  }

  /** Only taken identities have rows. */
  lemma RunCarries(p: Profile, sourceRef: string, lines: seq<string>, x: string)
    requires p.fractionalDigits <= 2
    ensures Carried(Run(p, sourceRef, lines), x) ==> x in Run(p, sourceRef, lines).taken
  {
    var st := Run(p, sourceRef, lines);
    RunSound(p, sourceRef, lines);
    hide Run;
    if row :| row in st.rows && row.identity == x {
      var i :| 0 <= i < |st.rows| && st.rows[i] == row;
      assert Map(Identity, st.rows)[i] in Elements(Map(Identity, st.rows));
    }
  }

  /** The runs before line `n`, with and without line `i`. */
  function RunWith(p: Profile, sourceRef: string, lines: seq<string>, n: nat): State
    requires p.fractionalDigits <= 2 && n <= |lines|
  {
    Run(p, sourceRef, lines[..n])
  }

  function RunWithout(p: Profile, sourceRef: string, lines: seq<string>, i: nat, n: nat): State
    requires p.fractionalDigits <= 2 && i < |lines| && n <= |lines|
  {
    Run(p, sourceRef, lines[i := ""][..n])
  }

  lemma BothStep(p: Profile, sourceRef: string, lines: seq<string>, i: nat, n: nat)
    requires p.fractionalDigits <= 2 && i < n < |lines|
    ensures RunWith(p, sourceRef, lines, n + 1) == Step(p, sourceRef, RunWith(p, sourceRef, lines, n), n, lines[n])
    ensures RunWithout(p, sourceRef, lines, i, n + 1) ==
      Step(p, sourceRef, RunWithout(p, sourceRef, lines, i, n), n, lines[n])
  {
    PrefixStep(p, sourceRef, lines, n);
    PrefixStep(p, sourceRef, lines[i := ""], n);
  }

  /** What line `n` does while `x` is held back. */
  lemma HeldNext(p: Profile, sourceRef: string, lines: seq<string>, i: nat, n: nat, x: string)
    requires p.fractionalDigits <= 2 && i < n < |lines|
    requires Held(RunWith(p, sourceRef, lines, n), RunWithout(p, sourceRef, lines, i, n), x)
    ensures
      var a, b := RunWith(p, sourceRef, lines, n + 1), RunWithout(p, sourceRef, lines, i, n + 1);
      if Names(p, sourceRef, lines, n, x) then
        if Fits(p, sourceRef, lines, n) then Parted(a, b, x) else SameAccepted(a, b) && !a.headerPending
      else Held(a, b, x)
  {
    BothStep(p, sourceRef, lines, i, n);
    HeldStep(p, sourceRef, RunWith(p, sourceRef, lines, n), RunWithout(p, sourceRef, lines, i, n), x, n, lines[n]);
    hide Run;
    hide Step;
    hide ParseRow;
    hide DropReturn;
    hide Held;
    hide Parted;
    hide SameAccepted;
    hide RunWithout;
  }

  /** Until a later line names `x`, it stays held back. */
  lemma {:induction false} HeldUntil(p: Profile, sourceRef: string, lines: seq<string>, i: nat, n: nat)
    requires p.fractionalDigits <= 2 && i < n <= |lines| && Overflows(p, sourceRef, lines, i)
    requires forall j :: i < j < n ==> !Names(p, sourceRef, lines, j, IdentityAt(p, sourceRef, lines, i))
    ensures Held(RunWith(p, sourceRef, lines, n), RunWithout(p, sourceRef, lines, i, n),
                 IdentityAt(p, sourceRef, lines, i))
  {
    hide Held;
    hide Names;
    hide ParseRow;
    hide Run;
    if n == i + 1 {
      OverflowHolds(p, sourceRef, lines, i);
    } else {
      HeldUntil(p, sourceRef, lines, i, n - 1);
      HeldNext(p, sourceRef, lines, i, n - 1, IdentityAt(p, sourceRef, lines, i));
    }
  }

  /** Once line `k`, the first to do so, names `x`, the runs are parted or the same. */
  lemma {:induction false} SettledAfter(p: Profile, sourceRef: string, lines: seq<string>, i: nat, k: nat, n: nat)
    requires p.fractionalDigits <= 2 && i < |lines| && Overflows(p, sourceRef, lines, i)
    requires FirstBehind(p, sourceRef, lines, i, IdentityAt(p, sourceRef, lines, i), k) && k < n <= |lines|
    ensures
      var a, b := RunWith(p, sourceRef, lines, n), RunWithout(p, sourceRef, lines, i, n);
      if Fits(p, sourceRef, lines, k) then Parted(a, b, IdentityAt(p, sourceRef, lines, i))
      else SameAccepted(a, b) && !a.headerPending
  {
    hide Held;
    hide ParseRow;
    hide DropReturn;
    hide Step;
    hide Run;
    hide Parted;
    hide SameAccepted;
    hide RunWith;
    hide RunWithout;
    hide Fits;
    hide Names;
    var x := IdentityAt(p, sourceRef, lines, i);
    if n == k + 1 {
      HeldUntil(p, sourceRef, lines, i, k);
      HeldNext(p, sourceRef, lines, i, k, x);
    } else {
      SettledAfter(p, sourceRef, lines, i, k, n - 1);
      BothStep(p, sourceRef, lines, i, n - 1);
      SettledNext(p, sourceRef, RunWith(p, sourceRef, lines, n - 1), RunWithout(p, sourceRef, lines, i, n - 1),
                  n - 1, lines[n - 1], x);
    }
  }

  lemma SettledNext(p: Profile, sourceRef: string, a: State, b: State, index: nat, line: string, x: string)
    requires p.fractionalDigits <= 2
    ensures
      var next, other := Step(p, sourceRef, a, index, line), Step(p, sourceRef, b, index, line);
      && (Parted(a, b, x) ==> Parted(next, other, x))
      && (SameAccepted(a, b) && !a.headerPending ==> SameAccepted(next, other) && !next.headerPending)
  {
    hide Parted;
    hide ParseRow;
    if Parted(a, b, x) {
      PartedStep(p, sourceRef, a, b, x, index, line);
    }
    if SameAccepted(a, b) {
      StepSame(p, sourceRef, a, b, index, line);
    }
  }

  /** Where a later line names `x`, one is the first to do so. */
  lemma {:induction false} SomeFirst(p: Profile, sourceRef: string, lines: seq<string>, i: nat, x: string, j: nat)
    returns (k: nat)
    requires p.fractionalDigits <= 2 && i < j < |lines| && Names(p, sourceRef, lines, j, x)
    ensures FirstBehind(p, sourceRef, lines, i, x, k)
    decreases j
  {
    hide Names;
    hide ParseRow;
    hide DropReturn;
    hide Run;
    k := j;
    if m :| i < m < j && Names(p, sourceRef, lines, m, x) {
      k := SomeFirst(p, sourceRef, lines, i, x, m);
    }
  }

  lemma HeldSame(a: State, b: State, x: string)
    requires Held(a, b, x)
    ensures SameSnapshot(a, b)
  {
  }

  /**
   Emptying a row that is rejected for overflow changes the accepted rows or their total
   exactly when the first later line of the same identity fits.
   */
  lemma OverflowInert(p: Profile, sourceRef: string, lines: seq<string>, i: nat)
    requires p.fractionalDigits <= 2 && i < |lines| && Overflows(p, sourceRef, lines, i)
    ensures SameSnapshot(Run(p, sourceRef, lines), Run(p, sourceRef, lines[i := ""])) <==>
      !Reclaimed(p, sourceRef, lines, i)
  {
    hide Run;
    hide ParseRow;
    hide DropReturn;
    hide Fits;
    hide Parted;
    hide Held;
    hide SameSnapshot;
    var x, n := IdentityAt(p, sourceRef, lines, i), |lines|;
    assert lines[..n] == lines && lines[i := ""][..n] == lines[i := ""];
    if k :| FirstBehind(p, sourceRef, lines, i, x, k) {
      SettledAfter(p, sourceRef, lines, i, k, n);
      FirstOnce(p, sourceRef, lines, i, x);
      if Fits(p, sourceRef, lines, k) {
        PartedDiffers(Run(p, sourceRef, lines), Run(p, sourceRef, lines[i := ""]), x);
      } else {
        AcceptedSame(Run(p, sourceRef, lines), Run(p, sourceRef, lines[i := ""]));
      }
    } else {
      if j :| i < j < n && Names(p, sourceRef, lines, j, x) {
        var k := SomeFirst(p, sourceRef, lines, i, x, j);
        assert false;
      }
      HeldUntil(p, sourceRef, lines, i, n);
      HeldSame(Run(p, sourceRef, lines), Run(p, sourceRef, lines[i := ""]), x);
    }
  }

  lemma AcceptedSame(a: State, b: State)
    requires SameAccepted(a, b)
    ensures SameSnapshot(a, b)
  {
  }

  lemma FirstOnce(p: Profile, sourceRef: string, lines: seq<string>, i: nat, x: string)
    requires p.fractionalDigits <= 2
    ensures forall j, k :: FirstBehind(p, sourceRef, lines, i, x, j) && FirstBehind(p, sourceRef, lines, i, x, k) ==>
      j == k
  {
    hide Names;
  }

  /** A rejected line is inert, unless it overflowed and a later line takes its identity and fits. */
  lemma RejectedInert(p: Profile, sourceRef: string, lines: seq<string>, i: nat)
    requires p.fractionalDigits <= 2 && i < |lines|
    requires |Run(p, sourceRef, lines[..i + 1]).rejected| > |Run(p, sourceRef, lines[..i]).rejected|
    ensures SameSnapshot(Run(p, sourceRef, lines), Run(p, sourceRef, lines[i := ""])) <==>
      !Reclaimed(p, sourceRef, lines, i)
  {
    RejectionKind(p, sourceRef, lines, i);
    hide Run;
    hide ParseRow;
    hide DropReturn;
    hide SameSnapshot;
    hide FirstBehind;
    hide Overflows;
    hide Refuses;
    if Overflows(p, sourceRef, lines, i) {
      OverflowInert(p, sourceRef, lines, i);
    } else {
      RefusedInert(p, sourceRef, lines, i);
      AcceptedSame(Run(p, sourceRef, lines), Run(p, sourceRef, lines[i := ""]));
    }
  }

  lemma RejectionKind(p: Profile, sourceRef: string, lines: seq<string>, i: nat)
    requires p.fractionalDigits <= 2 && i < |lines|
    ensures |Run(p, sourceRef, lines[..i + 1]).rejected| > |Run(p, sourceRef, lines[..i]).rejected|
         <==> Overflows(p, sourceRef, lines, i) || Refuses(p, sourceRef, lines, i)
  {
    PrefixStep(p, sourceRef, lines, i);
    hide Run;
    hide ParseRow;
    hide DropReturn;
  }

  /** The same for whole statements: the snapshots are equal exactly when no later line reclaims the identity. */
  lemma RejectedInertSnapshot(p: Profile, sourceRef: string, cutoff: string, text: string, other: string,
                              balances: seq<LedgerBalance>, i: nat)
    requires AdmitSpec(p, sourceRef, cutoff, Some(text), balances).Ok?
    requires i < |Lines(text)| && Lines(other) == Lines(text)[i := ""]
    requires |Run(p, sourceRef, Lines(text)[..i + 1]).rejected| > |Run(p, sourceRef, Lines(text)[..i]).rejected|
    ensures AdmitSpec(p, sourceRef, cutoff, Some(other), balances).Ok?
    ensures AdmitSpec(p, sourceRef, cutoff, Some(other), balances).value.snapshot
         == AdmitSpec(p, sourceRef, cutoff, Some(text), balances).value.snapshot
         <==> !Reclaimed(p, sourceRef, Lines(text), i)
  {
    hide Lines;
    hide Run;
    hide Reclaimed;
    RejectedInert(p, sourceRef, Lines(text), i);
  }

  // ----- a statement with a rejected row that is not inert

  lemma TakenRefused(p: Profile, sourceRef: string, ordinal: nat, line: string, taken: set<string>, e: Entry)
    requires p.fractionalDigits <= 2 && ReadsAs(p, sourceRef, line, e) && e.id in taken
    ensures ParseRow(p, sourceRef, ordinal, line, taken) == Err(DuplicateSourceIdentity(e.id))
  {
    hide RowOf;
    hide AmountField;
    hide CanonicalDate;
    assert e.id !in {} && ParseRow(p, sourceRef, ordinal, line, {}) == Ok(RowOf(p, sourceRef, ordinal, line, e));
    assert RowOf(p, sourceRef, ordinal, line, e).identity == e.id by { RowOfIdentity(p, sourceRef, ordinal, line, e); }
  }

  lemma RowOfIdentity(p: Profile, sourceRef: string, ordinal: nat, line: string, e: Entry)
    ensures RowOf(p, sourceRef, ordinal, line, e).identity == e.id
  {
  }

  /** Behind a row that overflows, a row with its identity is refused that would be admitted without it. */
  lemma OverflowedRowMatters(p: Profile, sourceRef: string, lines: seq<string>, entries: seq<Entry>)
    requires p.fractionalDigits <= 2 && !p.hasHeader
    requires |lines| == |entries| == 3 && forall i :: 0 <= i < 3 ==> ReadsAs(p, sourceRef, lines[i], entries[i])
    requires entries[0].amount == I64_MAX && entries[1].amount == 1 && entries[2].amount == -1
    requires entries[0].id != entries[1].id == entries[2].id
    ensures Overflows(p, sourceRef, lines, 1)
    ensures |Run(p, sourceRef, lines).rows| == 1 && |Run(p, sourceRef, lines[1 := ""]).rows| == 2
  {
    hide ParseRow;
    hide RowOf;
    var all, other := lines, lines[1 := ""];
    assert all[..3] == all && all[..2][..1] == all[..1] && all[..3][..2] == all[..2] && all[..1][..0] == [];
    assert other[..3] == other && other[..2][..1] == other[..1] == all[..1] && other[..3][..2] == other[..2];
    RowOfIdentity(p, sourceRef, 1, all[0], entries[0]);
    RowOfIdentity(p, sourceRef, 2, all[1], entries[1]);
    RowOfAmount(p, sourceRef, 2, all[1], entries[1]);
    var one := Run(p, sourceRef, all[..1]);
    assert Run(p, sourceRef, []) == Start(p);
    StepReads(p, sourceRef, Start(p), 0, all[0], entries[0]);
    assert ParseRow(p, sourceRef, 2, all[1], one.taken) == Ok(RowOf(p, sourceRef, 2, all[1], entries[1]));
    TakenRefused(p, sourceRef, 3, all[2], Run(p, sourceRef, all[..2]).taken, entries[2]);
    assert Run(p, sourceRef, other[..2]) == one;
    StepReads(p, sourceRef, one, 2, other[2], entries[2]);
  }

  lemma RowOfAmount(p: Profile, sourceRef: string, ordinal: nat, line: string, e: Entry)
    ensures RowOf(p, sourceRef, ordinal, line, e).amount == e.amount
  {
  }

  const BANK: Profile :=
    Profile(1, "bank", ';' as byte, false, 1, Iso8601, Signed(2), '.' as byte, 2, "SEK", None, 0, None)

  /** A line of three fields, each enclosed in quotes. */
  function BankLine(id: string, amount: i64): string
    requires amount > I64_MIN
  {
    LineOf(BANK, Entry(id, Date(2026, 1, 1), amount, ""), Rendering(["", "", ""], [true, true, true]))
  }

  /** A statement of three such rows; the second can be left empty. */
  function BankText(second: string): string {
    Document([BankLine("1", I64_MAX), second, BankLine("2", -1)], [Newline, Newline, Newline])
  }

  lemma BankUsable()
    ensures Usable(BANK)
  {
    assert Columns(BANK) == [0, 1, 2];
    assert ValidateProfile(BANK).Ok?;
  }

  lemma BankLineReads(id: string, amount: i64)
    requires amount > I64_MIN && (id == "1" || id == "2")
    ensures ReadsAs(BANK, "file", BankLine(id, amount), Entry(id, Date(2026, 1, 1), amount, ""))
    ensures OneLine(BankLine(id, amount))
  {
    var e, r := Entry(id, Date(2026, 1, 1), amount, ""), Rendering(["", "", ""], [true, true, true]);
    BankUsable();
    assert Columns(BANK) == [0, 1, 2];
    hide ReadsAs;
    hide LineOf;
    hide Cell;
    assert Expressible(BANK, e);
    assert Renders(BANK, e, r);
    RenderedReadsAs(BANK, "file", e, r);
  }

  lemma BankTextLines(second: string)
    requires OneLine(second)
    ensures Lines(BankText(second)) == [BankLine("1", I64_MAX), second, BankLine("2", -1)]
  {
    hide BankLine;
    hide ReadsAs;
    hide Lines;
    hide Document;
    hide OneLine;
    BankLineReads("1", I64_MAX);
    BankLineReads("2", -1);
    DocumentLines([BankLine("1", I64_MAX), second, BankLine("2", -1)], [Newline, Newline, Newline]);
  }

  lemma BankAdmits(text: string)
    ensures AdmitSpec(BANK, "file", "2026-12-31", Some(text), []).Ok?
    ensures AdmitSpec(BANK, "file", "2026-12-31", Some(text), []).value.snapshot.rows ==
      Run(BANK, "file", Lines(text)).rows
  {
    hide Run;
    hide Lines;
    assert ValidateProfile(BANK).Ok?;
  }

  lemma BankRuns()
    ensures Overflows(BANK, "file", [BankLine("1", I64_MAX), BankLine("2", 1), BankLine("2", -1)], 1)
    ensures |Run(BANK, "file", [BankLine("1", I64_MAX), BankLine("2", 1), BankLine("2", -1)]).rows| == 1
    ensures |Run(BANK, "file", [BankLine("1", I64_MAX), "", BankLine("2", -1)]).rows| == 2
  {
    hide BankLine;
    hide ReadsAs;
    hide Run;
    hide OneLine;
    hide Overflows;
    var day := Date(2026, 1, 1);
    var lines := [BankLine("1", I64_MAX), BankLine("2", 1), BankLine("2", -1)];
    BankLineReads("1", I64_MAX);
    BankLineReads("2", 1);
    BankLineReads("2", -1);
    var entries := [Entry("1", day, I64_MAX, ""), Entry("2", day, 1, ""), Entry("2", day, -1, "")];
    assert lines[1 := ""] == [BankLine("1", I64_MAX), "", BankLine("2", -1)];
    OverflowedRowMatters(BANK, "file", lines, entries);
  }

  /**
   The comment's promise fails: the second row of this statement is rejected because the
   total overflows, and yet emptying its line adds a row to the snapshot.
   */
  lemma OverflowedRowAffectsSnapshot()
    ensures
      var r := AdmitSpec(BANK, "file", "2026-12-31", Some(BankText(BankLine("2", 1))), []);
      var without := AdmitSpec(BANK, "file", "2026-12-31", Some(BankText("")), []);
      && Lines(BankText(BankLine("2", 1))) == [BankLine("1", I64_MAX), BankLine("2", 1), BankLine("2", -1)]
      && Lines(BankText("")) == [BankLine("1", I64_MAX), "", BankLine("2", -1)]
      && Overflows(BANK, "file", Lines(BankText(BankLine("2", 1))), 1)
      && r.Ok? && without.Ok?
      && |r.value.snapshot.rows| == 1 && |without.value.snapshot.rows| == 2
  {
    BankLineReads("2", 1);
    hide Run;
    hide Lines;
    hide BankLine;
    hide BankText;
    hide AdmitSpec;
    hide OneLine;
    hide ReadsAs;
    hide Overflows;
    EmptyOneLine();
    BankAdmits(BankText(BankLine("2", 1)));
    BankAdmits(BankText(""));
    BankTextLines(BankLine("2", 1));
    BankTextLines("");
    BankRuns();
  }
}
