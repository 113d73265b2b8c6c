/** The list of candidates that is returned, in the terms of statement rows and movements. */
module CandidateOrder {
  import opened Wrappers
  import opened Sequences
  import opened Sorting
  import opened StatementData
  import opened Evidence
  import opened Candidates
  import opened CandidateSearch
  import opened CandidateProperties

  // ----- what a record says

  /** Row `i` and movement `j` of a pair. */
  function RowIn(q: Problem, p: Pair, i: nat): StatementRow
    requires Applies(q, p) && i < |p.ri|
  {
    q.rows[p.ri[i]]
  }

  function MovementIn(q: Problem, p: Pair, j: nat): Movement
    requires Applies(q, p) && j < |p.mi|
  {
    q.movements[p.mi[j]]
  }

  /** The days between row `i` and movement `j` of a pair. */
  function DaysApart(q: Problem, p: Pair, i: nat, j: nat): Result<nat, Error>
    requires Applies(q, p) && i < |p.ri| && j < |p.mi|
  {
    DateDistance(RowIn(q, p, i).date, MovementIn(q, p, j).date)
  }

  /** The description of row `i` and the text of movement `j` have a word in common. */
  ghost predicate ShareWord(q: Problem, p: Pair, i: nat, j: nat)
    requires Applies(q, p) && i < |p.ri| && j < |p.mi|
  {
    var description, text := RowIn(q, p, i).description, MovementIn(q, p, j).text;
    description.Some? && text.Some? && exists w :: w in q.words(description.value) && w in q.words(text.value)
  }

  lemma {:induction false} MaxToDatesReached(max: nat, date: string, others: seq<string>) returns (j: nat)
    requires MaxToDates(max, date, others).Ok?
    ensures MaxToDates(max, date, others).value == max ||
      (j < |others| && DateDistance(date, others[j]).Ok? &&
       DateDistance(date, others[j]).value == MaxToDates(max, date, others).value)
  {
    hide DateDistance;
    j := 0;
    if others != [] {
      var n := |others| - 1;
      j := MaxToDatesReached(max, date, others[..n]);
      if DateDistance(date, others[n]).value == MaxToDates(max, date, others).value {
        j := n;
      }
    }
  }

  /** The maximum is the distance of some pair of dates. */
  lemma {:induction false} MaxDistanceReached(dates: seq<string>, others: seq<string>) returns (i: nat, j: nat)
    requires MaxDistance(dates, others).Ok?
    ensures MaxDistance(dates, others).value == 0 ||
      (i < |dates| && j < |others| && DateDistance(dates[i], others[j]).Ok? &&
       DateDistance(dates[i], others[j]).value == MaxDistance(dates, others).value)
  {
    hide DateDistance;
    hide MaxToDates;
    i, j := 0, 0;
    if dates != [] {
      var n := |dates| - 1;
      i, j := MaxDistanceReached(dates[..n], others);
      var before := MaxDistance(dates[..n], others).value;
      var last := MaxToDatesReached(before, dates[n], others);
      if MaxDistance(dates, others).value != before {
        i, j := n, last;
      }
    }
  }

  /** Half the rank is the largest distance between a row and a movement, and is the distance of some two. */
  lemma RankIsDistance(q: Problem, p: Pair, c: Candidate)
    requires RecordOf(q, p, c)
    ensures forall i: nat, j: nat :: i < |p.ri| && j < |p.mi| ==>
      DaysApart(q, p, i, j).Ok? && DaysApart(q, p, i, j).value <= c.rank / 2
    ensures exists i: nat, j: nat :: i < |p.ri| && j < |p.mi| && DaysApart(q, p, i, j) == Ok(c.rank / 2)
  {
    hide Matches;
    hide DateDistance;
    hide MaxDistance;
    hide TextPenalty;
    hide KindOf;
    var dates, others := Map(RowDate, Pick(q.rows, p.ri)), Map(MovementDate, Pick(q.movements, p.mi));
    MaxDistanceBounds(dates, others, c.rank / 2);
    forall i: nat, j: nat | i < |p.ri| && j < |p.mi|
      ensures DaysApart(q, p, i, j).Ok? && DaysApart(q, p, i, j).value <= c.rank / 2
    {
      assert dates[i] in dates && others[j] in others;
      assert Near(dates[i], others[j], c.rank / 2);
    }
    var i, j := MaxDistanceReached(dates, others);
    if MaxDistance(dates, others).value == 0 {
      assert DaysApart(q, p, 0, 0) == Ok(0);
    } else {
      assert DaysApart(q, p, i, j) == Ok(c.rank / 2);
    }
  }

  ghost predicate WordInBoth(words: Words, left: Option<string>, right: Option<string>) {
    left.Some? && right.Some? && exists w :: w in words(left.value) && w in words(right.value)
  }

  lemma WordsMeet(words: Words, left: seq<Option<string>>, right: seq<Option<string>>)
    ensures AllWords(words, left) !! AllWords(words, right) <==>
      !exists i: nat, j: nat :: i < |left| && j < |right| && WordInBoth(words, left[i], right[j])
  {
    if i: nat, j: nat :| i < |left| && j < |right| && WordInBoth(words, left[i], right[j]) {
      var w :| w in words(left[i].value) && w in words(right[j].value);
      assert left[i] in left && right[j] in right;
      assert w in AllWords(words, left) && w in AllWords(words, right);
    }
    if !(AllWords(words, left) !! AllWords(words, right)) {
      var w :| w in AllWords(words, left) && w in AllWords(words, right);
      var t :| t in left && t.Some? && w in words(t.value);
      var u :| u in right && u.Some? && w in words(u.value);
      var i: nat :| i < |left| && left[i] == t;
      var j: nat :| j < |right| && right[j] == u;
      assert WordInBoth(words, left[i], right[j]);
    }
  }

  /** The rank is even exactly when the two sides share a word. */
  lemma RankIsText(q: Problem, p: Pair, c: Candidate)
    requires RecordOf(q, p, c)
    ensures c.rank % 2 == 0 <==> exists i: nat, j: nat :: i < |p.ri| && j < |p.mi| && ShareWord(q, p, i, j)
  {
    hide Matches;
    hide MaxDistance;
    hide KindOf;
    hide Eligible;
    hide AllWords;
    var left, right := Map(RowText, Pick(q.rows, p.ri)), Map(MovementText, Pick(q.movements, p.mi));
    WordsMeet(q.words, left, right);
    forall i: nat, j: nat | i < |p.ri| && j < |p.mi|
      ensures WordInBoth(q.words, left[i], right[j]) <==> ShareWord(q, p, i, j)
    {
    }
    hide WordInBoth;
    hide ShareWord;
  }

  /** Kind, identities, currency and sums of a record. */
  lemma RecordSays(q: Problem, p: Pair, c: Candidate)
    requires RecordOf(q, p, c)
    ensures |p.ri| >= 1 && |p.mi| >= 1 && (|p.ri| == 1 || |p.mi| == 1)
    ensures c.kind == if |p.ri| > 1 then ManyToOne else if |p.mi| > 1 then OneToMany else OneToOne
    ensures |c.rowIds| == |p.ri| && forall i: nat :: i < |p.ri| ==> c.rowIds[i] == RowIn(q, p, i).identity
    ensures |c.voucherIds| == |p.mi| && forall j: nat :: j < |p.mi| ==> c.voucherIds[j] == MovementIn(q, p, j).voucherId
    ensures forall i: nat, j: nat :: i < |p.ri| && j < |p.mi| ==>
      RowIn(q, p, i).currency == MovementIn(q, p, j).currency
    ensures SumOf((k: nat) => if k < |q.rows| then q.rows[k].amount as int else 0, p.ri)
         == SumOf((k: nat) => if k < |q.movements| then q.movements[k].amount as int else 0, p.mi)
  {
    hide MaxDistance;
    hide TextPenalty;
    hide WithinDays;
    hide SumOf;
    var rows, movements := Pick(q.rows, p.ri), Pick(q.movements, p.mi);
    var atRow := (k: nat) => if k < |q.rows| then q.rows[k].amount as int else 0;
    var atMovement := (k: nat) => if k < |q.movements| then q.movements[k].amount as int else 0;
    assert Map(RowAmount, rows) == Map(atRow, p.ri);
    assert Map(MovementAmount, movements) == Map(atMovement, p.mi);
    SumOfMapped(RowAmount, rows, atRow, p.ri);
    SumOfMapped(MovementAmount, movements, atMovement, p.mi);
    forall i: nat, j: nat | i < |p.ri| && j < |p.mi|
      ensures RowIn(q, p, i).currency == MovementIn(q, p, j).currency
    {
      assert rows[i].currency == rows[0].currency && movements[j].currency == rows[0].currency;
    }
  }

  lemma SumOfMapped<A, B>(f: A -> int, xs: seq<A>, g: B -> int, ys: seq<B>)
    requires Map(f, xs) == Map(g, ys)
    ensures SumOf(f, xs) == SumOf(g, ys)
  {
  }

  // ----- the order of the list

  ghost predicate IdsBefore(a: seq<string>, b: seq<string>) {
    exists k: nat :: PartAt(a, b, k) && (k == |a| || TextBefore(a[k], b[k]))
  }

  ghost predicate VouchersBefore(a: seq<int>, b: seq<int>) {
    exists k: nat :: PartAt(a, b, k) && (k == |a| || a[k] < b[k])
  }

  lemma IdsLessExact(a: seq<string>, b: seq<string>)
    ensures IdsLess(a, b) <==> IdsBefore(a, b)
  {
    hide TextBefore;
    LexExact(StringLess, a, b);
    hide Lex;
    forall k: nat | PartAt(a, b, k) && k < |a| ensures StringLess(a[k], b[k]) <==> TextBefore(a[k], b[k]) {
      StringLessExact(a[k], b[k]);
    }
  }

  lemma VouchersLessExact(a: seq<int>, b: seq<int>)
    ensures VouchersLess(a, b) <==> VouchersBefore(a, b)
  {
    LexExact(IntLess, a, b);
  }

  /** One-to-one comes first, many-to-one last. */
  predicate KindBefore(a: Kind, b: Kind) {
    (a == OneToOne && b != OneToOne) || (a == OneToMany && b == ManyToOne)
  }

  /** Lower rank first; then by kind; then by row identities; then by voucher ids. */
  ghost predicate ListedBefore(a: Candidate, b: Candidate) {
    && a.rank <= b.rank
    && (a.rank == b.rank ==> a.kind == b.kind || KindBefore(a.kind, b.kind))
    && (a.rank == b.rank && a.kind == b.kind ==>
          IdsBefore(a.rowIds, b.rowIds) || (a.rowIds == b.rowIds && VouchersBefore(a.voucherIds, b.voucherIds)))
  }

  lemma ReviewedBeforeExact(a: Candidate, b: Candidate)
    ensures ReviewOrder(a, b) <==> ListedBefore(a, b)
  {
    IdsLessExact(a.rowIds, b.rowIds);
    VouchersLessExact(a.voucherIds, b.voucherIds);
    hide Lex;
    hide IdsBefore;
    hide VouchersBefore;
  }

  /**
   The returned list: ranks do not fall along it, at equal rank the kinds follow each other
   one-to-one, one-to-many, many-to-one, and then row and voucher ids ascend. A matching
   pair that is not in it stands behind all of it, and only when the list is full.
   */
  lemma ListInOrder(inputs: Inputs, bounds: Bounds, words: Words)
    requires Generate(inputs, bounds, words).Ok?
    ensures
      var q := Problem(words, inputs.statement.rows, inputs.movements, bounds);
      var list := Generate(inputs, bounds, words).value;
      && (forall i, j :: 0 <= i < j < |list| ==> ListedBefore(list[i], list[j]))
      && (forall c :: c in list ==> IsCandidate(q, c))
      && (forall c :: IsCandidate(q, c) && c !in list ==>
            |list| == bounds.maxResults && forall i :: 0 <= i < |list| ==> ListedBefore(list[i], c))
      && |list| <= bounds.maxResults
  {
    hide Generate;
    hide IsCandidate;
    hide ListedBefore;
    hide ReviewedBefore;
    var q := Problem(words, inputs.statement.rows, inputs.movements, bounds);
    var list := Generate(inputs, bounds, words).value;
    var all := GenerateExact(inputs, bounds, words);
    hide WorkCount;
    forall a, b ensures ReviewOrder(a, b) <==> ListedBefore(a, b) {
      ReviewedBeforeExact(a, b);
    }
    forall c | IsCandidate(q, c) && c !in list
      ensures |list| == bounds.maxResults && forall i :: 0 <= i < |list| ==> ListedBefore(list[i], c)
    {
      assert c in all;
      var k :| 0 <= k < |all| && all[k] == c;
      assert k >= |list|;
    }
  }
}
