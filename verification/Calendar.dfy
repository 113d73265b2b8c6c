/** Calendar dates: their ordinals, their distances and their canonical text. */
module Calendar {
  import opened Text

  datatype Date = Date(year: int, month: int, day: int)

  // ----- the proleptic Gregorian calendar (section 5.7 and appendix C of RFC 3339)

  predicate Leap(year: int) {
    year % 4 == 0 && (year % 100 != 0 || year % 400 == 0)
  }

  function MonthLength(year: int, month: int): int {
    if month == 2 then (if Leap(year) then 29 else 28)
    else if month in {4, 6, 9, 11} then 30
    else 31
  }

  predicate Valid(d: Date) {
    1 <= d.month <= 12 && 1 <= d.day <= MonthLength(d.year, d.month)
  }

  function NextDay(d: Date): (next: Date)
    requires Valid(d)
    ensures Valid(next)
  {
    if d.day < MonthLength(d.year, d.month) then Date(d.year, d.month, d.day + 1)
    else if d.month < 12 then Date(d.year, d.month + 1, 1)
    else Date(d.year + 1, 1, 1)
  }

  /** The date `n` days after `d`. */
  function DaysAfter(d: Date, n: nat): (later: Date)
    requires Valid(d)
    ensures Valid(later)
  {
    if n == 0 then d else NextDay(DaysAfter(d, n - 1))
  }

  predicate Earlier(a: Date, b: Date) {
    || a.year < b.year
    || (a.year == b.year && (a.month < b.month || (a.month == b.month && a.day < b.day)))
  }

  // ----- ordinals

  /** Days up to the first of March of a year. */
  function MarchStart(year: int): int {
    var era := year / 400;
    var yearOfEra := year - era * 400;
    era * 146097 + yearOfEra * 365 + yearOfEra / 4 - yearOfEra / 100
  }

  /** The day number that distances are computed from. */
  function Ordinal(d: Date): int {
    var adjusted := if d.month <= 2 then d.year - 1 else d.year;
    var shiftedMonth := d.month + (if d.month > 2 then -3 else 9);
    MarchStart(adjusted) + (153 * shiftedMonth + 2) / 5 + d.day - 1
  }

  lemma MarchStartFlat(year: int)
    ensures MarchStart(year) == year * 365 + year / 4 - year / 100 + year / 400
  {
    var era, rest := year / 400, year % 400;
    assert year / 4 == era * 100 + rest / 4;
    assert year / 100 == era * 4 + rest / 100;
  }

  lemma MultiplesBelow(year: int)
    ensures year / 4 - (year - 1) / 4 == if year % 4 == 0 then 1 else 0
    ensures year / 100 - (year - 1) / 100 == if year % 100 == 0 then 1 else 0
    ensures year / 400 - (year - 1) / 400 == if year % 400 == 0 then 1 else 0
    ensures year % 400 == 0 ==> year % 100 == 0
    ensures year % 100 == 0 ==> year % 4 == 0
  {
  }

  lemma MarchStartStep(year: int)
    ensures MarchStart(year) - MarchStart(year - 1) == if Leap(year) then 366 else 365
  {
    MarchStartFlat(year);
    MarchStartFlat(year - 1);
    MultiplesBelow(year);
  }

  /** The ordinal rises by exactly one from each calendar day to the next. */
  lemma OrdinalNextDay(d: Date)
    requires Valid(d)
    ensures Ordinal(NextDay(d)) == Ordinal(d) + 1
  {
    hide MarchStart;
    if d.month == 2 {
      MarchStartStep(d.year);
    }
  }

  lemma {:induction false} OrdinalDaysAfter(d: Date, n: nat)
    requires Valid(d)
    ensures Ordinal(DaysAfter(d, n)) == Ordinal(d) + n
  {
    hide Ordinal;
    if n > 0 {
      OrdinalDaysAfter(d, n - 1);
      OrdinalNextDay(DaysAfter(d, n - 1));
    }
  }

  /** From each valid date, counting days reaches every later valid date. */
  lemma Reach(a: Date, b: Date) returns (n: nat)
    requires Valid(a) && Valid(b) && !Earlier(b, a)
    ensures DaysAfter(a, n) == b
    decreases b.year - a.year, 12 - a.month, 31 - a.day
  {
    if a == b {
      n := 0;
    } else {
      var m := Reach(NextDay(a), b);
      DaysAfterNext(a, m);
      n := m + 1;
    }
  }

  lemma {:induction false} DaysAfterNext(d: Date, n: nat)
    requires Valid(d)
    ensures DaysAfter(NextDay(d), n) == DaysAfter(d, n + 1)
  {
    if n > 0 {
      DaysAfterNext(d, n - 1);
    }
  }

  /** Ordinals order valid dates, and differ by the number of days between them. */
  lemma OrdinalCountsDays(a: Date, b: Date)
    requires Valid(a) && Valid(b)
    ensures Ordinal(a) < Ordinal(b) <==> Earlier(a, b)
    ensures Ordinal(a) == Ordinal(b) <==> a == b
    ensures Ordinal(a) <= Ordinal(b) ==> DaysAfter(a, Ordinal(b) - Ordinal(a)) == b
  {
    hide Ordinal;
    if Earlier(b, a) {
      var n := Reach(b, a);
      OrdinalDaysAfter(b, n);
    } else {
      var n := Reach(a, b);
      OrdinalDaysAfter(a, n);
    }
  }

  // ----- text

  /** `YYYY-MM-DD`. */
  function IsoText(d: Date): string
    requires d.year >= 0 && d.month >= 0 && d.day >= 0
  {
    Padded(d.year, 4) + ['-'] + Padded(d.month, 2) + ['-'] + Padded(d.day, 2)
  }

  lemma IsoTextSplits(d: Date)
    requires d.year >= 0 && d.month >= 0 && d.day >= 0
    ensures Split(IsoText(d), '-') == [Padded(d.year, 4), Padded(d.month, 2), Padded(d.day, 2)]
  {
    SplitThree(Padded(d.year, 4), Padded(d.month, 2), Padded(d.day, 2), '-');
  }
}
