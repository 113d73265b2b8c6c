/** Exact one-to-one and bounded grouped matches between rows and movements. */
module Candidates {
  import opened Wrappers
  import opened Numbers
  import opened Sequences
  import opened Subsets
  import opened StatementData
  import opened Evidence

  type usize = x: int | 0 <= x <= USIZE_MAX

  datatype Bounds = Bounds(maxWork: usize, maxResults: usize, maxCardinality: usize, maxDistance: nat)

  datatype Kind = OneToOne | OneToMany | ManyToOne

  datatype Candidate = Candidate(kind: Kind, rowIds: seq<string>, voucherIds: seq<int>, rank: nat)

  /** Indices of rows and of movements that are compared. */
  datatype Pair = Pair(ri: Indices, mi: Indices)

  /** The words of a text; what counts as a letter is up to the character tables. */
  type Words = string -> set<string>

  function Min(a: int, b: int): int {
    if a < b then a else b
  }

  predicate InRange(c: Indices, n: nat) {
    forall i :: 0 <= i < |c| ==> c[i] < n
  }

  /** The elements at the given indices. */
  function Pick<T>(xs: seq<T>, c: Indices): (ys: seq<T>)
    requires InRange(c, |xs|)
    ensures |ys| == |c| && forall i :: 0 <= i < |c| ==> ys[i] == xs[c[i]]
  {
    seq(|c|, i requires 0 <= i < |c| => xs[c[i]])
  }

  // ----- judging one pair

  function RowDate(row: StatementRow): string { row.date }
  function MovementDate(m: Movement): string { m.date }

  /** The largest distance of one date to others, if it exceeds `max`. */
  function MaxToDates(max: nat, date: string, others: seq<string>): Result<nat, Error> {
    if others == [] then Ok(max) else
    var before :- MaxToDates(max, date, others[..|others| - 1]);
    var distance :- DateDistance(date, others[|others| - 1]);
    Ok(Max(before, distance))
  }

  function MaxDistance(dates: seq<string>, others: seq<string>): Result<nat, Error> {
    if dates == [] then Ok(0) else
    var before :- MaxDistance(dates[..|dates| - 1], others);
    MaxToDates(before, dates[|dates| - 1], others)
  }

  predicate SameCurrency(rows: seq<StatementRow>, movements: seq<Movement>)
    requires rows != []
  {
    && (forall i :: 0 <= i < |rows| ==> rows[i].currency == rows[0].currency)
    && (forall i :: 0 <= i < |movements| ==> movements[i].currency == rows[0].currency)
  }

  function ExactCandidate(rows: seq<StatementRow>, movements: seq<Movement>, maxDistance: nat): Result<bool, Error>
    requires rows != []
  {
    if !SameCurrency(rows, movements) then Ok(false) else
    var rowTotal :- CheckedTotal(Map(RowAmount, rows));
    var movementTotal :- CheckedTotal(Map(MovementAmount, movements));
    if rowTotal != movementTotal then Ok(false) else
    var distance :- MaxDistance(Map(RowDate, rows), Map(MovementDate, movements));
    Ok(distance <= maxDistance)
  }

  function AllWords(words: Words, texts: seq<Option<string>>): set<string> {
    set t, w | t in texts && t.Some? && w in words(t.value) :: w
  }

  function RowText(row: StatementRow): Option<string> { row.description }
  function MovementText(m: Movement): Option<string> { m.text }

  function TextPenalty(words: Words, rows: seq<StatementRow>, movements: seq<Movement>): (p: nat)
    ensures p <= 1
  {
    if AllWords(words, Map(RowText, rows)) !! AllWords(words, Map(MovementText, movements)) then 1 else 0
  }

  function KindOf(rowCount: nat, movementCount: nat): Kind {
    if rowCount == 1 && movementCount == 1 then OneToOne
    else if rowCount == 1 then OneToMany
    else ManyToOne
  }

  /** The review record of a matching pair. */
  function CandidateOf(words: Words, rows: seq<StatementRow>, movements: seq<Movement>, distance: nat): Candidate {
    Candidate(
      KindOf(|rows|, |movements|), Map(Identity, rows), Map(VoucherId, movements),
      2 * distance + TextPenalty(words, rows, movements))
  }

  function Judge(words: Words, rows: seq<StatementRow>, movements: seq<Movement>, maxDistance: nat)
    : Result<Option<Candidate>, Error>
    requires rows != []
  {
    var exact :- ExactCandidate(rows, movements, maxDistance);
    if !exact then Ok(None) else
    var distance :- MaxDistance(Map(RowDate, rows), Map(MovementDate, movements));
    Ok(Some(CandidateOf(words, rows, movements, distance)))
  }

  lemma {:induction false} MaxToDatesStop(max: nat, date: string, others: seq<string>, k: nat)
    requires k <= |others| && MaxToDates(max, date, others[..k]).Err?
    ensures MaxToDates(max, date, others) == MaxToDates(max, date, others[..k])
  {
    hide DateDistance;
    if k < |others| {
      assert others[..|others| - 1][..k] == others[..k];
      MaxToDatesStop(max, date, others[..|others| - 1], k);
    } else {
      assert others[..k] == others;
    }
  }

  lemma {:induction false} MaxDistanceStop(dates: seq<string>, others: seq<string>, k: nat)
    requires k <= |dates| && MaxDistance(dates[..k], others).Err?
    ensures MaxDistance(dates, others) == MaxDistance(dates[..k], others)
  {
    hide MaxToDates;
    if k < |dates| {
      assert dates[..|dates| - 1][..k] == dates[..k];
      MaxDistanceStop(dates[..|dates| - 1], others, k);
    } else {
      assert dates[..k] == dates;
    }
  }

  lemma MaxToDatesNext(max: nat, date: string, others: seq<string>, k: nat)
    requires k < |others|
    ensures MaxToDates(max, date, others[..k]).Ok? ==>
      MaxToDates(max, date, others[..k + 1]) == (
        if DateDistance(date, others[k]).Err? then Err(DateDistance(date, others[k]).error)
        else Ok(Max(MaxToDates(max, date, others[..k]).value, DateDistance(date, others[k]).value)))
  {
    hide DateDistance;
    assert others[..k + 1][..k] == others[..k];
  }

  lemma MaxDistanceNext(dates: seq<string>, others: seq<string>, i: nat)
    requires i < |dates| && MaxDistance(dates[..i], others).Ok?
    ensures MaxDistance(dates[..i + 1], others) == MaxToDates(MaxDistance(dates[..i], others).value, dates[i], others)
  {
    hide MaxToDates;
    assert dates[..i + 1][..i] == dates[..i];
  }

  /** `max_date_distance`: the largest distance between a date of one side and a date of the other. */
  method MaxDateDistance(dates: seq<string>, others: seq<string>) returns (r: Result<nat, Error>)
    ensures r == MaxDistance(dates, others)
  {
    var max: nat := 0;
    assert MaxDistance(dates[..0], others) == Ok(max);
    hide MaxDistance;
    hide DateDistance;
    for i := 0 to |dates|
      invariant MaxDistance(dates[..i], others) == Ok(max)
    {
      MaxDistanceNext(dates, others, i);
      ghost var before := max;
      assert MaxToDates(before, dates[i], others[..0]) == Ok(max);
      hide MaxToDates;
      for k := 0 to |others|
        invariant MaxToDates(before, dates[i], others[..k]) == Ok(max)
      {
        MaxToDatesNext(before, dates[i], others, k);
        var distance := DateDistance(dates[i], others[k]);
        if distance.Err? {
          MaxToDatesStop(before, dates[i], others, k + 1);
          MaxDistanceStop(dates, others, i + 1);
          return Err(distance.error);
        }
        max := Max(max, distance.value);
      }
      assert others[..|others|] == others;
    }
    assert dates[..|dates|] == dates;
    r := Ok(max);
  }

  /** `exact_candidate`, and the record of a match. */
  method JudgeRows(words: Words, rows: seq<StatementRow>, movements: seq<Movement>, maxDistance: nat)
    returns (r: Result<Option<Candidate>, Error>)
    requires rows != []
    ensures r == Judge(words, rows, movements, maxDistance)
  {
    hide SameCurrency;
    hide CandidateOf;
    hide MaxDistance;
    if !SameCurrency(rows, movements) {
      return Ok(None);
    }
    var rowTotal :- CheckedTotal(Map(RowAmount, rows));
    var movementTotal :- CheckedTotal(Map(MovementAmount, movements));
    if rowTotal != movementTotal {
      return Ok(None);
    }
    var distance :- MaxDateDistance(Map(RowDate, rows), Map(MovementDate, movements));
    r := Ok(if distance > maxDistance then None else Some(CandidateOf(words, rows, movements, distance)));
  }

  // ----- what a matching pair is

  /** Two dates are comparable and at most `bound` days apart. */
  predicate Near(date: string, other: string, bound: nat) {
    DateDistance(date, other).Ok? && DateDistance(date, other).value <= bound
  }

  ghost predicate WithinDays(dates: seq<string>, others: seq<string>, bound: nat) {
    forall x, y :: x in dates && y in others ==> Near(x, y, bound)
  }

  lemma {:induction false} MaxToDatesBounds(max: nat, date: string, others: seq<string>, bound: nat)
    ensures MaxToDates(max, date, others).Ok? ==>
      && max <= MaxToDates(max, date, others).value
      && (MaxToDates(max, date, others).value <= bound <==>
            max <= bound && forall y :: y in others ==> Near(date, y, bound))
  {
    hide DateDistance;
    hide Near;
    if others != [] && MaxToDates(max, date, others).Ok? {
      var before, last := others[..|others| - 1], others[|others| - 1];
      assert others == before + [last];
      MaxToDatesBounds(max, date, before, bound);
      NearStep(date, last, MaxToDates(max, date, before).value, bound);
      assert forall y :: y in others <==> y in before || y == last;
    }
  }

  lemma NearStep(date: string, other: string, before: nat, bound: nat)
    ensures DateDistance(date, other).Ok? ==>
      (Max(before, DateDistance(date, other).value) <= bound <==> before <= bound && Near(date, other, bound))
  {
    hide DateDistance;
  }

  /** The maximum is within a bound just when every distance is. */
  lemma {:induction false} MaxDistanceBounds(dates: seq<string>, others: seq<string>, bound: nat)
    requires MaxDistance(dates, others).Ok?
    ensures MaxDistance(dates, others).value <= bound <==> WithinDays(dates, others, bound)
  {
    if dates != [] {
      hide Near;
      var init, last := dates[..|dates| - 1], dates[|dates| - 1];
      assert dates == init + [last];
      var before := MaxDistance(init, others).value;
      MaxDistanceBounds(init, others, bound);
      MaxToDatesBounds(before, last, others, bound);
      hide MaxToDates;
      assert forall x :: x in dates <==> x in init || x == last;
    }
  }

  /** An exact match: one currency, equal exact sums, all dates within the bound. */
  ghost predicate Matches(rows: seq<StatementRow>, movements: seq<Movement>, maxDistance: nat)
    requires rows != []
  {
    && (forall i :: 0 <= i < |rows| ==> rows[i].currency == rows[0].currency)
    && (forall j :: 0 <= j < |movements| ==> movements[j].currency == rows[0].currency)
    && SumOf(RowAmount, rows) == SumOf(MovementAmount, movements)
    && WithinDays(Map(RowDate, rows), Map(MovementDate, movements), maxDistance)
  }

  lemma {:induction false} NearToDates(max: nat, date: string, others: seq<string>, bound: nat)
    requires forall y :: y in others ==> Near(date, y, bound)
    ensures MaxToDates(max, date, others).Ok?
  {
    hide DateDistance;
    if others != [] {
      var init, last := others[..|others| - 1], others[|others| - 1];
      assert last in others;
      forall y | y in init ensures Near(date, y, bound) {
        assert y in others;
      }
      NearToDates(max, date, init, bound);
    }
  }

  lemma {:induction false} WithinDaysComparable(dates: seq<string>, others: seq<string>, bound: nat)
    requires WithinDays(dates, others, bound)
    ensures MaxDistance(dates, others).Ok?
  {
    if dates != [] {
      hide Near;
      var init, last := dates[..|dates| - 1], dates[|dates| - 1];
      WithinDaysComparable(init, others, bound);
      NearToDates(MaxDistance(init, others).value, last, others, bound);
    }
  }

  /** A judged pair yields a candidate exactly when it matches. */
  lemma JudgeExact(words: Words, rows: seq<StatementRow>, movements: seq<Movement>, maxDistance: nat)
    requires rows != [] && Judge(words, rows, movements, maxDistance).Ok?
    ensures
      var r := Judge(words, rows, movements, maxDistance).value;
      var d := MaxDistance(Map(RowDate, rows), Map(MovementDate, movements));
      && (r.Some? <==> Matches(rows, movements, maxDistance))
      && (r.Some? ==> d.Ok? && r.value == CandidateOf(words, rows, movements, d.value))
  {
    hide MaxDistance;
    hide WithinDays;
    hide CandidateOf;
    var dates, others := Map(RowDate, rows), Map(MovementDate, movements);
    if MaxDistance(dates, others).Ok? {
      MaxDistanceBounds(dates, others, maxDistance);
    }
    if WithinDays(dates, others, maxDistance) {
      WithinDaysComparable(dates, others, maxDistance);
    }
  }

  // ----- when a pair can be judged

  /** Every partial sum, from the left, is a 64-bit integer. */
  ghost predicate SumsFit(xs: seq<int>) {
    forall k :: 0 <= k <= |xs| ==> IsI64(Sum(xs[..k]))
  }

  /** Each date of one side has a distance to each of the other. */
  ghost predicate Comparable(dates: seq<string>, others: seq<string>) {
    forall x, y :: x in dates && y in others ==> DateDistance(x, y).Ok?
  }

  /** Currencies differ, or all sums fit and then differ or leave comparable dates. */
  ghost predicate Judgeable(rows: seq<StatementRow>, movements: seq<Movement>)
    requires rows != []
  {
    && (forall i :: 0 <= i < |rows| ==> rows[i].currency == rows[0].currency)
    && (forall j :: 0 <= j < |movements| ==> movements[j].currency == rows[0].currency) ==>
      && SumsFit(Map(RowAmount, rows)) && SumsFit(Map(MovementAmount, movements))
      && (SumOf(RowAmount, rows) == SumOf(MovementAmount, movements) ==>
            Comparable(Map(RowDate, rows), Map(MovementDate, movements)))
  }

  lemma {:induction false} MaxToDatesOk(max: nat, date: string, others: seq<string>)
    ensures MaxToDates(max, date, others).Ok? <==> forall y :: y in others ==> DateDistance(date, y).Ok?
  {
    hide DateDistance;
    if others != [] {
      var init, last := others[..|others| - 1], others[|others| - 1];
      assert others == init + [last];
      MaxToDatesOk(max, date, init);
    }
  }

  lemma {:induction false} MaxDistanceOk(dates: seq<string>, others: seq<string>)
    ensures MaxDistance(dates, others).Ok? <==> Comparable(dates, others)
  {
    hide DateDistance;
    hide MaxToDates;
    if dates != [] {
      var init, last := dates[..|dates| - 1], dates[|dates| - 1];
      assert dates == init + [last];
      MaxDistanceOk(init, others);
      if MaxDistance(init, others).Ok? {
        MaxToDatesOk(MaxDistance(init, others).value, last, others);
      }
    }
  }

  /** A pair is judged, one way or the other, exactly when no sum overflows and no date stands in the way. */
  lemma JudgeOk(words: Words, rows: seq<StatementRow>, movements: seq<Movement>, maxDistance: nat)
    requires rows != []
    ensures Judge(words, rows, movements, maxDistance).Ok? <==> Judgeable(rows, movements)
  {
    hide MaxDistance;
    hide Comparable;
    hide CheckedSum;
    hide CandidateOf;
    CheckedSumExact(Map(RowAmount, rows));
    CheckedSumExact(Map(MovementAmount, movements));
    MaxDistanceOk(Map(RowDate, rows), Map(MovementDate, movements));
  }

  // ----- the order of enumeration

  /** Movement combinations tried with row combinations of size `rowSize`, up to a size. */
  function MovementSets(rowSize: nat, m: nat, upTo: nat): seq<Indices> {
    if upTo == 0 then []
    else MovementSets(rowSize, m, upTo - 1) + (if rowSize > 1 && upTo > 1 then [] else Combos(m, upTo))
  }

  function PairsFor(ri: Indices, sets: seq<Indices>): (r: seq<Pair>)
    ensures |r| == |sets| && forall i :: 0 <= i < |r| ==> r[i] == Pair(ri, sets[i])
  {
    seq(|sets|, i requires 0 <= i < |sets| => Pair(ri, sets[i]))
  }

  function RowPairs(rows: seq<Indices>, sets: seq<Indices>): seq<Pair> {
    if rows == [] then [] else RowPairs(rows[..|rows| - 1], sets) + PairsFor(rows[|rows| - 1], sets)
  }

  /** The pairs in the order they are examined, for row combinations up to a size. */
  function PairsUpTo(n: nat, m: nat, cap: nat, upTo: nat): seq<Pair> {
    if upTo == 0 then []
    else PairsUpTo(n, m, cap, upTo - 1) + RowPairs(Combos(n, upTo), MovementSets(upTo, m, Min(cap, m)))
  }

  function AllPairs(n: nat, m: nat, cap: nat): seq<Pair> {
    PairsUpTo(n, m, cap, Min(cap, n))
  }

  /** The pairs of interest: one side of size one, both within the cardinality bound. */
  predicate Eligible(p: Pair, n: nat, m: nat, cap: nat) {
    && Choice(p.ri, 0, n, |p.ri|) && Choice(p.mi, 0, m, |p.mi|)
    && 1 <= |p.ri| <= cap && 1 <= |p.mi| <= cap
    && (|p.ri| == 1 || |p.mi| == 1)
  }

  lemma MovementSetsParts(rowSize: nat, m: nat, upTo: nat)
    ensures MovementSets(rowSize, m, upTo) == (
      if upTo == 0 then []
      else MovementSets(rowSize, m, upTo - 1) + if rowSize > 1 && upTo > 1 then [] else Combos(m, upTo))
  {
  }

  lemma {:induction false} MovementSetsExact(rowSize: nat, m: nat, upTo: nat, c: Indices)
    ensures c in MovementSets(rowSize, m, upTo) <==>
      Choice(c, 0, m, |c|) && 1 <= |c| <= upTo && (rowSize > 1 ==> |c| == 1)
  {
    hide Choice;
    hide Combos;
    hide MovementSets;
    MovementSetsParts(rowSize, m, upTo);
    if upTo > 0 {
      MovementSetsExact(rowSize, m, upTo - 1, c);
      CombosExact(m, upTo);
      ChoiceSize(c, m, upTo);
      InConcat(MovementSets(rowSize, m, upTo - 1), if rowSize > 1 && upTo > 1 then [] else Combos(m, upTo), c);
    }
  }

  lemma ChoiceSize(c: Indices, m: nat, size: nat)
    ensures Choice(c, 0, m, size) ==> |c| == size
  {
  }

  lemma PairsForExact(row: Indices, sets: seq<Indices>, p: Pair)
    ensures p in PairsFor(row, sets) <==> p.ri == row && p.mi in sets
  {
    if p.ri == row && p.mi in sets {
      var i :| 0 <= i < |sets| && sets[i] == p.mi;
      assert PairsFor(row, sets)[i] == p;
    }
  }

  lemma RowPairsSnoc(rows: seq<Indices>, row: Indices, sets: seq<Indices>)
    ensures RowPairs(rows + [row], sets) == RowPairs(rows, sets) + PairsFor(row, sets)
  {
    assert (rows + [row])[..|rows + [row]| - 1] == rows;
  }

  lemma NoRowPairs(sets: seq<Indices>)
    ensures RowPairs([], sets) == []
  {
  }

  lemma {:induction false} RowPairsExact(rows: seq<Indices>, sets: seq<Indices>, p: Pair)
    ensures p in RowPairs(rows, sets) <==> p.ri in rows && p.mi in sets
  {
    hide RowPairs;
    if rows == [] {
      NoRowPairs(sets);
    } else {
      var init, last := rows[..|rows| - 1], rows[|rows| - 1];
      RowPairsExact(init, sets, p);
      RowPairsSnoc(init, last, sets);
      PairsForExact(last, sets, p);
      InConcat(RowPairs(init, sets), PairsFor(last, sets), p);
      InConcat(init, [last], p.ri);
      assert rows == init + [last];
    }
  }

  /** What row combinations of one size contribute. */
  lemma AddedExact(n: nat, m: nat, cap: nat, upTo: nat, p: Pair)
    requires 0 < upTo <= Min(cap, n)
    ensures p in RowPairs(Combos(n, upTo), MovementSets(upTo, m, Min(cap, m))) <==>
      Eligible(p, n, m, cap) && |p.ri| == upTo
  {
    hide RowPairs;
    hide MovementSets;
    hide Combos;
    RowPairsExact(Combos(n, upTo), MovementSets(upTo, m, Min(cap, m)), p);
    MovementSetsExact(upTo, m, Min(cap, m), p.mi);
    CombosExact(n, upTo);
    assert p.ri in Combos(n, upTo) <==> Choice(p.ri, 0, n, upTo);
    if Choice(p.mi, 0, m, |p.mi|) && p.mi != [] {
      ChoiceFits(p.mi, 0, m, |p.mi|);
    }
  }

  lemma PairsSplit(n: nat, m: nat, cap: nat, upTo: nat)
    requires 0 < upTo
    ensures PairsUpTo(n, m, cap, upTo) ==
      PairsUpTo(n, m, cap, upTo - 1) + RowPairs(Combos(n, upTo), MovementSets(upTo, m, Min(cap, m)))
  {
  }

  lemma NoPairs(n: nat, m: nat, cap: nat)
    ensures PairsUpTo(n, m, cap, 0) == []
  {
  }

  lemma EligibleNonEmpty(p: Pair, n: nat, m: nat, cap: nat)
    ensures Eligible(p, n, m, cap) ==> |p.ri| > 0
  {
  }

  lemma {:induction false} PairsExact(n: nat, m: nat, cap: nat, upTo: nat, p: Pair)
    requires upTo <= Min(cap, n)
    ensures p in PairsUpTo(n, m, cap, upTo) <==> Eligible(p, n, m, cap) && |p.ri| <= upTo
  {
    hide PairsUpTo;
    hide RowPairs;
    hide MovementSets;
    hide Combos;
    hide Eligible;
    if upTo == 0 {
      NoPairs(n, m, cap);
      EligibleNonEmpty(p, n, m, cap);
    } else {
      PairsExact(n, m, cap, upTo - 1, p);
      AddedExact(n, m, cap, upTo, p);
      PairsSplit(n, m, cap, upTo);
      InConcat(PairsUpTo(n, m, cap, upTo - 1), RowPairs(Combos(n, upTo), MovementSets(upTo, m, Min(cap, m))), p);
    }
  }

  lemma {:induction false} MovementSetsNoDup(rowSize: nat, m: nat, upTo: nat)
    ensures NoDup(MovementSets(rowSize, m, upTo))
  {
    if upTo > 0 {
      var before := MovementSets(rowSize, m, upTo - 1);
      MovementSetsNoDup(rowSize, m, upTo - 1);
      CombosExact(m, upTo);
      forall c | c in before ensures c !in Combos(m, upTo) {
        MovementSetsExact(rowSize, m, upTo - 1, c);
      }
      NoDupConcat(before, Combos(m, upTo));
      assert before + [] == before;
    }
  }

  lemma {:induction false} RowPairsNoDup(rows: seq<Indices>, sets: seq<Indices>)
    requires NoDup(rows) && NoDup(sets)
    ensures NoDup(RowPairs(rows, sets))
  {
    if rows != [] {
      var before, last := rows[..|rows| - 1], rows[|rows| - 1];
      RowPairsNoDup(before, sets);
      forall p | p in RowPairs(before, sets) ensures p !in PairsFor(last, sets) {
        RowPairsExact(before, sets, p);
      }
      NoDupConcat(RowPairs(before, sets), PairsFor(last, sets));
    }
  }

  /** Row combinations of one size add new pairs, each once. */
  lemma AddedNoDup(n: nat, m: nat, cap: nat, upTo: nat)
    requires 0 < upTo <= Min(cap, n)
    ensures NoDup(RowPairs(Combos(n, upTo), MovementSets(upTo, m, Min(cap, m))))
    ensures forall p :: p in PairsUpTo(n, m, cap, upTo - 1) ==>
      p !in RowPairs(Combos(n, upTo), MovementSets(upTo, m, Min(cap, m)))
  {
    hide PairsUpTo;
    hide Combos;
    hide RowPairs;
    hide MovementSets;
    hide Eligible;
    hide NoDup;
    CombosExact(n, upTo);
    hide Choice;
    MovementSetsNoDup(upTo, m, Min(cap, m));
    RowPairsNoDup(Combos(n, upTo), MovementSets(upTo, m, Min(cap, m)));
    forall p | p in PairsUpTo(n, m, cap, upTo - 1)
      ensures p !in RowPairs(Combos(n, upTo), MovementSets(upTo, m, Min(cap, m)))
    {
      PairsExact(n, m, cap, upTo - 1, p);
      AddedExact(n, m, cap, upTo, p);
    }
  }

  lemma {:induction false} PairsNoDup(n: nat, m: nat, cap: nat, upTo: nat)
    requires upTo <= Min(cap, n)
    ensures NoDup(PairsUpTo(n, m, cap, upTo))
  {
    hide PairsUpTo;
    hide RowPairs;
    hide Combos;
    hide MovementSets;
    if upTo == 0 {
      NoPairs(n, m, cap);
    } else {
      hide NoDup;
      PairsNoDup(n, m, cap, upTo - 1);
      PairsSplit(n, m, cap, upTo);
      AddedNoDup(n, m, cap, upTo);
      NoDupConcat(PairsUpTo(n, m, cap, upTo - 1), RowPairs(Combos(n, upTo), MovementSets(upTo, m, Min(cap, m))));
    }
  }

  // ----- the number of pairs

  /** The choices of sizes `from` up to `upTo`. */
  function ChooseSum(n: nat, from: nat, upTo: nat): nat {
    if upTo < from then 0 else (if upTo == 0 then 1 else ChooseSum(n, from, upTo - 1) + Choose(n, upTo))
  }

  lemma {:induction false} ChooseOne(n: nat)
    ensures Choose(n, 1) == n
  {
    if n > 0 {
      ChooseOne(n - 1);
      assert Choose(n - 1, 0) == 1;
    }
  }

  lemma {:induction false} MovementSetsCount(rowSize: nat, m: nat, upTo: nat)
    ensures |MovementSets(rowSize, m, upTo)| ==
      if rowSize <= 1 then ChooseSum(m, 1, upTo) else if upTo == 0 then 0 else m
  {
    if upTo > 0 {
      MovementSetsCount(rowSize, m, upTo - 1);
      CombosExact(m, upTo);
      ChooseOne(m);
    }
  }

  lemma {:induction false} RowPairsCount(rows: seq<Indices>, sets: seq<Indices>)
    ensures |RowPairs(rows, sets)| == |rows| * |sets|
  {
    if rows != [] {
      RowPairsCount(rows[..|rows| - 1], sets);
      Times(|rows| - 1, |sets|);
    }
  }

  lemma Times(a: nat, b: nat)
    ensures (a + 1) * b == a * b + b
  {
  }

  /** The pairs that row combinations of size `upTo` add. */
  lemma PairsAdded(n: nat, m: nat, cap: nat, upTo: nat)
    requires 0 < upTo <= Min(cap, n)
    ensures |PairsUpTo(n, m, cap, upTo)| ==
      |PairsUpTo(n, m, cap, upTo - 1)| + Choose(n, upTo) * |MovementSets(upTo, m, Min(cap, m))|
  {
    hide Combos;
    hide RowPairs;
    hide MovementSets;
    CombosExact(n, upTo);
    RowPairsCount(Combos(n, upTo), MovementSets(upTo, m, Min(cap, m)));
  }

  lemma PairsFirst(n: nat, m: nat, cap: nat)
    requires 1 <= Min(cap, n)
    ensures |PairsUpTo(n, m, cap, 1)| == n * ChooseSum(m, 1, Min(cap, m))
  {
    PairsAdded(n, m, cap, 1);
    MovementSetsCount(1, m, Min(cap, m));
    ChooseOne(n);
    hide MovementSets;
    hide Choose;
    assert |PairsUpTo(n, m, cap, 0)| == 0;
  }

  lemma PairsLater(n: nat, m: nat, cap: nat, upTo: nat)
    requires 2 <= upTo <= Min(cap, n)
    ensures |PairsUpTo(n, m, cap, upTo)| ==
      |PairsUpTo(n, m, cap, upTo - 1)| + m * ChooseSum(n, 2, upTo) - m * ChooseSum(n, 2, upTo - 1)
  {
    PairsAdded(n, m, cap, upTo);
    MovementSetsCount(upTo, m, Min(cap, m));
    hide MovementSets;
    hide PairsUpTo;
    hide Choose;
    Spread(|PairsUpTo(n, m, cap, upTo)|, |PairsUpTo(n, m, cap, upTo - 1)|, Choose(n, upTo),
           |MovementSets(upTo, m, Min(cap, m))|, m, ChooseSum(n, 2, upTo - 1), ChooseSum(n, 2, upTo));
  }

  lemma {:induction false} PairsCount(n: nat, m: nat, cap: nat, upTo: nat)
    requires upTo <= Min(cap, n)
    ensures |PairsUpTo(n, m, cap, upTo)| ==
      if upTo == 0 then 0 else n * ChooseSum(m, 1, Min(cap, m)) + m * ChooseSum(n, 2, upTo)
  {
    if upTo == 1 {
      PairsFirst(n, m, cap);
      assert ChooseSum(n, 2, 1) == 0;
    } else if upTo > 1 {
      hide PairsUpTo;
      hide ChooseSum;
      hide Min;
      PairsCount(n, m, cap, upTo - 1);
      PairsLater(n, m, cap, upTo);
    }
  }

  lemma Spread(total: int, before: int, chosen: nat, sets: nat, m: nat, sum: nat, next: nat)
    requires total == before + chosen * sets && sets == m && next == sum + chosen
    ensures total == before + m * next - m * sum
  {
    assert m * next == m * sum + chosen * m;
  }
}
