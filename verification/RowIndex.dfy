/**
 The primary index of a cached table, seen as a graph: offsets linked by the row
 blocks that a decoder finds there.
 */
module RowIndex {
  import opened Wrappers
  import opened Sequences
  import opened Cells

  /** What one row block says: its two index links and its cells. */
  datatype RowBlock = RowBlock(left: int, right: int, cells: seq<Cell>)

  type Decoder = int -> Result<RowBlock, HsqlError>

  /** The decoder finds rows only inside a file of `len` bytes. */
  ghost predicate Within(decode: Decoder, len: nat) {
    forall o :: decode(o).Ok? ==> o < len
  }

  ghost function OffsetsBelow(n: nat): (s: set<int>)
    ensures forall o :: o in s <==> 0 < o < n
  {
    if n <= 1 then {} else OffsetsBelow(n - 1) + {n - 1}
  }

  // ----- the walk

  /**
   The in-order walk from `offset`: the offsets seen when it is done, and its rows.
   Each step moves an offset of the file into `seen`, so the walk ends on any bytes.
   */
  ghost function Walk(decode: Decoder, len: nat, offset: int, seen: set<int>)
    : (r: Result<(set<int>, seq<seq<Cell>>), HsqlError>)
    requires Within(decode, len)
    ensures r.Ok? ==> seen <= r.value.0
    decreases OffsetsBelow(len) - seen
  {
    if offset <= 0 then Ok((seen, []))
    else if offset in seen then Err(RowCycle(offset))
    else
      var row :- decode(offset);
      assert offset in OffsetsBelow(len);
      var (seenLeft, rowsLeft) :- Walk(decode, len, row.left, seen + {offset});
      var (seenRight, rowsRight) :- Walk(decode, len, row.right, seenLeft);
      Ok((seenRight, rowsLeft + [row.cells] + rowsRight))
  }

  /** The cases of one step of the walk. */
  lemma WalkStep(decode: Decoder, len: nat, offset: int, seen: set<int>)
    requires Within(decode, len)
    ensures offset <= 0 ==> Walk(decode, len, offset, seen) == Ok((seen, []))
    ensures offset > 0 && offset in seen ==> Walk(decode, len, offset, seen) == Err(RowCycle(offset))
    ensures offset > 0 && offset !in seen && decode(offset).Err? ==>
      Walk(decode, len, offset, seen) == Err(decode(offset).error)
    ensures offset > 0 && offset !in seen && decode(offset).Ok? ==>
      var row := decode(offset).value;
      var left := Walk(decode, len, row.left, seen + {offset});
      if left.Err? then Walk(decode, len, offset, seen) == Err(left.error) else
      var right := Walk(decode, len, row.right, left.value.0);
      if right.Err? then Walk(decode, len, offset, seen) == Err(right.error) else
      Walk(decode, len, offset, seen) == Ok((right.value.0, left.value.1 + [row.cells] + right.value.1))
  {
  }

  // ----- the graph, by paths

  /** One turn at an index node. */
  datatype Turn = L | R

  type Path = seq<Turn>

  function Child(row: RowBlock, t: Turn): int {
    if t == L then row.left else row.right
  }

  /** The offset that a path of turns leads to; 0 where a link or a row is missing. */
  function Follow(decode: Decoder, offset: int, path: Path): int
    decreases path
  {
    if path == [] then offset
    else if offset <= 0 || decode(offset).Err? then 0
    else Follow(decode, Child(decode(offset).value, path[0]), path[1..])
  }

  /** In-order precedence of two nodes of a binary tree, given by their paths. */
  predicate Before(p: Path, q: Path) {
    if p == [] then q != [] && q[0] == R
    else if q == [] then p[0] == L
    else if p[0] == q[0] then Before(p[1..], q[1..])
    else p[0] == L
  }

  /** Every node that the index reaches holds a row. */
  ghost predicate AllDecode(decode: Decoder, root: int) {
    forall p :: Follow(decode, root, p) > 0 ==> decode(Follow(decode, root, p)).Ok?
  }

  /** No node is reached along two paths. */
  ghost predicate ReachedOnce(decode: Decoder, root: int) {
    forall p, q :: Follow(decode, root, p) == Follow(decode, root, q) > 0 ==> p == q
  }

  /** `paths` are the paths to the nodes below `root`, all of them, in order. */
  ghost predicate InOrder(decode: Decoder, root: int, paths: seq<Path>) {
    && (forall p :: p in paths <==> Follow(decode, root, p) > 0)
    && (forall i, j :: 0 <= i < j < |paths| ==> Before(paths[i], paths[j]))
  }

  /** `rows` are the rows at the ends of `paths`. */
  ghost predicate RowsAt(decode: Decoder, root: int, paths: seq<Path>, rows: seq<seq<Cell>>) {
    && |rows| == |paths|
    && forall i :: 0 <= i < |rows| ==>
         && decode(Follow(decode, root, paths[i])).Ok?
         && rows[i] == decode(Follow(decode, root, paths[i])).value.cells
  }

  lemma FollowStep(decode: Decoder, offset: int, t: Turn, path: Path)
    requires offset > 0 && decode(offset).Ok?
    ensures Follow(decode, offset, [t] + path) == Follow(decode, Child(decode(offset).value, t), path)
  {
    assert ([t] + path)[1..] == path;
  }

  /** A proper path that leads somewhere starts with a turn at a decodable node. */
  lemma FollowCons(decode: Decoder, offset: int, path: Path)
    requires path != [] && Follow(decode, offset, path) > 0
    ensures offset > 0 && decode(offset).Ok? && path == [path[0]] + path[1..]
  {
  }

  // ----- a walk that succeeds

  /** What a finished walk knows: its new offsets are exactly the nodes reached, each once. */
  ghost predicate Covers(decode: Decoder, offset: int, seen: set<int>, after: set<int>) {
    && (forall p :: Follow(decode, offset, p) > 0 ==>
          Follow(decode, offset, p) in after && Follow(decode, offset, p) !in seen)
    && (forall o :: o in after && o !in seen ==> exists p :: Follow(decode, offset, p) == o > 0)
  }

  lemma NoNodes(decode: Decoder, offset: int, seen: set<int>)
    requires offset <= 0
    ensures Covers(decode, offset, seen, seen) && AllDecode(decode, offset) && ReachedOnce(decode, offset)
  {
    forall p ensures Follow(decode, offset, p) <= 0 {
    }
  }

  lemma JoinCovers(decode: Decoder, offset: int, seen: set<int>, seen2: set<int>, seen3: set<int>)
    requires offset > 0 && offset !in seen && decode(offset).Ok? && seen + {offset} <= seen2 <= seen3
    requires Covers(decode, decode(offset).value.left, seen + {offset}, seen2)
    requires Covers(decode, decode(offset).value.right, seen2, seen3)
    requires AllDecode(decode, decode(offset).value.left) && AllDecode(decode, decode(offset).value.right)
    ensures Covers(decode, offset, seen, seen3) && AllDecode(decode, offset)
  {
    forall p | Follow(decode, offset, p) > 0
      ensures Follow(decode, offset, p) in seen3 && Follow(decode, offset, p) !in seen
      ensures decode(Follow(decode, offset, p)).Ok?
    {
      if p != [] {
        FollowCons(decode, offset, p);
        FollowStep(decode, offset, p[0], p[1..]);
      }
    }
    forall o | o in seen3 && o !in seen
      ensures exists p :: Follow(decode, offset, p) == o > 0
    {
      var p := PathTo(decode, offset, seen + {offset}, seen2, seen3, o);
    }
  }

  lemma JoinReachedOnce(decode: Decoder, offset: int, seen1: set<int>, seen2: set<int>, seen3: set<int>)
    requires offset in seen1 && offset > 0 && decode(offset).Ok? && seen1 <= seen2
    requires Covers(decode, decode(offset).value.left, seen1, seen2)
    requires Covers(decode, decode(offset).value.right, seen2, seen3)
    requires ReachedOnce(decode, decode(offset).value.left) && ReachedOnce(decode, decode(offset).value.right)
    ensures ReachedOnce(decode, offset)
  {
    hide Covers;
    forall p, q | Follow(decode, offset, p) == Follow(decode, offset, q) > 0
      ensures p == q
    {
      SamePath(decode, offset, seen1, seen2, seen3, p, q);
    }
  }

  lemma {:induction false} WalkCovers(decode: Decoder, len: nat, offset: int, seen: set<int>)
    requires Within(decode, len) && Walk(decode, len, offset, seen).Ok?
    ensures Covers(decode, offset, seen, Walk(decode, len, offset, seen).value.0)
    ensures AllDecode(decode, offset) && ReachedOnce(decode, offset)
    decreases OffsetsBelow(len) - seen
  {
    hide Walk;
    hide Covers;
    hide AllDecode;
    hide ReachedOnce;
    WalkStep(decode, len, offset, seen);
    if offset <= 0 {
      NoNodes(decode, offset, seen);
    } else {
      var row := decode(offset).value;
      assert offset in OffsetsBelow(len);
      var seen1 := seen + {offset};
      var seen2 := Walk(decode, len, row.left, seen1).value.0;
      WalkCovers(decode, len, row.left, seen1);
      WalkCovers(decode, len, row.right, seen2);
      var seen3 := Walk(decode, len, row.right, seen2).value.0;
      JoinCovers(decode, offset, seen, seen2, seen3);
      JoinReachedOnce(decode, offset, seen1, seen2, seen3);
    }
  }

  lemma PathTo(decode: Decoder, offset: int, seen1: set<int>, seen2: set<int>, seen3: set<int>, o: int)
    returns (p: Path)
    requires offset > 0 && decode(offset).Ok?
    requires Covers(decode, decode(offset).value.left, seen1, seen2)
    requires Covers(decode, decode(offset).value.right, seen2, seen3)
    requires o in seen3 && (o == offset || o !in seen1)
    ensures Follow(decode, offset, p) == o > 0
  {
    var row := decode(offset).value;
    if o == offset {
      p := [];
    } else if o in seen2 {
      var q :| Follow(decode, row.left, q) == o > 0;
      FollowStep(decode, offset, L, q);
      p := [L] + q;
    } else {
      var q :| Follow(decode, row.right, q) == o > 0;
      FollowStep(decode, offset, R, q);
      p := [R] + q;
    }
  }

  lemma SamePath(decode: Decoder, offset: int, seen1: set<int>, seen2: set<int>, seen3: set<int>, p: Path, q: Path)
    requires offset in seen1 && offset > 0 && decode(offset).Ok? && seen1 <= seen2
    requires Covers(decode, decode(offset).value.left, seen1, seen2)
    requires Covers(decode, decode(offset).value.right, seen2, seen3)
    requires ReachedOnce(decode, decode(offset).value.left)
    requires ReachedOnce(decode, decode(offset).value.right)
    requires Follow(decode, offset, p) == Follow(decode, offset, q) > 0
    ensures p == q
  {
    if p != [] {
      FollowCons(decode, offset, p);
    }
    if q != [] {
      FollowCons(decode, offset, q);
    }
  }

  /** A walk that succeeds returns the rows of all reachable nodes in order. */
  lemma {:induction false} WalkRowsInOrder(decode: Decoder, len: nat, offset: int, seen: set<int>)
    returns (paths: seq<Path>)
    requires Within(decode, len) && Walk(decode, len, offset, seen).Ok?
    ensures InOrder(decode, offset, paths)
    ensures RowsAt(decode, offset, paths, Walk(decode, len, offset, seen).value.1)
    decreases OffsetsBelow(len) - seen
  {
    if offset <= 0 {
      paths := [];
      forall p ensures Follow(decode, offset, p) <= 0 {
      }
    } else {
      var row := decode(offset).value;
      assert offset in OffsetsBelow(len);
      var left := WalkRowsInOrder(decode, len, row.left, seen + {offset});
      var (seen2, rowsLeft) := Walk(decode, len, row.left, seen + {offset}).value;
      var right := WalkRowsInOrder(decode, len, row.right, seen2);
      var rowsRight := Walk(decode, len, row.right, seen2).value.1;
      paths := Prefixed([L], left) + [[]] + Prefixed([R], right);
      JoinRows(decode, offset, left, right, rowsLeft, rowsRight);
      JoinPaths(decode, offset, left, right);
    }
  }

  lemma JoinRows(decode: Decoder, offset: int, left: seq<Path>, right: seq<Path>, rowsLeft: seq<seq<Cell>>,
                 rowsRight: seq<seq<Cell>>)
    requires offset > 0 && decode(offset).Ok?
    requires RowsAt(decode, decode(offset).value.left, left, rowsLeft)
    requires RowsAt(decode, decode(offset).value.right, right, rowsRight)
    ensures RowsAt(decode, offset, Prefixed([L], left) + [[]] + Prefixed([R], right),
                   rowsLeft + [decode(offset).value.cells] + rowsRight)
  {
    forall i | 0 <= i < |left|
      ensures Follow(decode, offset, Prefixed([L], left)[i]) == Follow(decode, decode(offset).value.left, left[i])
    {
      FollowStep(decode, offset, L, left[i]);
    }
    forall i | 0 <= i < |right|
      ensures Follow(decode, offset, Prefixed([R], right)[i]) == Follow(decode, decode(offset).value.right, right[i])
    {
      FollowStep(decode, offset, R, right[i]);
    }
  }

  lemma JoinMembers(decode: Decoder, offset: int, left: seq<Path>, right: seq<Path>, p: Path)
    requires offset > 0 && decode(offset).Ok?
    requires InOrder(decode, decode(offset).value.left, left)
    requires InOrder(decode, decode(offset).value.right, right)
    ensures p in Prefixed([L], left) + [[]] + Prefixed([R], right) <==> Follow(decode, offset, p) > 0
  {
    var paths := Prefixed([L], left) + [[]] + Prefixed([R], right);
    if p == [] {
      assert paths[|left|] == [];
    } else {
      var side := if p[0] == L then left else right;
      assert p == [p[0]] + p[1..];
      FollowStep(decode, offset, p[0], p[1..]);
      if p[1..] in side {
        var i :| 0 <= i < |side| && side[i] == p[1..];
        assert Prefixed([p[0]], side)[i] == p;
      }
    }
  }

  lemma JoinPaths(decode: Decoder, offset: int, left: seq<Path>, right: seq<Path>)
    requires offset > 0 && decode(offset).Ok?
    requires InOrder(decode, decode(offset).value.left, left)
    requires InOrder(decode, decode(offset).value.right, right)
    ensures InOrder(decode, offset, Prefixed([L], left) + [[]] + Prefixed([R], right))
  {
    var paths := Prefixed([L], left) + [[]] + Prefixed([R], right);
    forall p
      ensures p in paths <==> Follow(decode, offset, p) > 0
    {
      JoinMembers(decode, offset, left, right, p);
    }
    forall i, j | 0 <= i < j < |paths|
      ensures Before(paths[i], paths[j])
    {
      hide Follow;
      if j < |left| {
        assert paths[i][1..] == left[i] && paths[j][1..] == left[j];
      } else if i > |left| {
        var k := |left| + 1;
        assert paths[i][1..] == right[i - k] && paths[j][1..] == right[j - k];
      }
    }
  }

  // ----- a walk that fails

  /** Evidence against the index below `offset`. */
  datatype Flaw =
    | Undecodable(p: Path)
    | SeenBefore(p: Path)
    | Twice(p: Path, q: Path)

  ghost predicate FlawOf(decode: Decoder, offset: int, seen: set<int>, flaw: Flaw) {
    match flaw
    case Undecodable(p) => Follow(decode, offset, p) > 0 && decode(Follow(decode, offset, p)).Err?
    case SeenBefore(p) => Follow(decode, offset, p) > 0 && Follow(decode, offset, p) in seen
    case Twice(p, q) => p != q && Follow(decode, offset, p) == Follow(decode, offset, q) > 0
  }

  /** What a walk that meets the flaw reports: the decoder's own refusal, or the offset met again. */
  ghost function FlawError(decode: Decoder, offset: int, seen: set<int>, flaw: Flaw): HsqlError
    requires FlawOf(decode, offset, seen, flaw)
  {
    match flaw
    case Undecodable(p) => decode(Follow(decode, offset, p)).error
    case SeenBefore(p) => RowCycle(Follow(decode, offset, p))
    case Twice(p, _) => RowCycle(Follow(decode, offset, p))
  }

  lemma LiftFlaw(decode: Decoder, offset: int, t: Turn, seen: set<int>, flaw: Flaw) returns (lifted: Flaw)
    requires offset > 0 && decode(offset).Ok?
    requires FlawOf(decode, Child(decode(offset).value, t), seen, flaw)
    ensures FlawOf(decode, offset, seen, lifted)
    ensures FlawError(decode, offset, seen, lifted) == FlawError(decode, Child(decode(offset).value, t), seen, flaw)
    ensures flaw.SeenBefore? ==> lifted == SeenBefore([t] + flaw.p)
    ensures !flaw.SeenBefore? ==> !lifted.SeenBefore?
  {
    FollowStep(decode, offset, t, flaw.p);
    match flaw
    case Undecodable(p) => lifted := Undecodable([t] + p);
    case SeenBefore(p) => lifted := SeenBefore([t] + p);
    case Twice(p, q) =>
      FollowStep(decode, offset, t, q);
      assert ([t] + p)[1..] == p && ([t] + q)[1..] == q;
      lifted := Twice([t] + p, [t] + q);
  }

  /** A walk that fails has met a node without a row, or a node for the second time, and reports just that. */
  lemma {:induction false} WalkFlaw(decode: Decoder, len: nat, offset: int, seen: set<int>) returns (flaw: Flaw)
    requires Within(decode, len) && Walk(decode, len, offset, seen).Err?
    ensures FlawOf(decode, offset, seen, flaw)
    ensures Walk(decode, len, offset, seen) == Err(FlawError(decode, offset, seen, flaw))
    decreases OffsetsBelow(len) - seen
  {
    hide Walk;
    WalkStep(decode, len, offset, seen);
    if offset in seen {
      return SeenBefore([]);
    }
    if decode(offset).Err? {
      return Undecodable([]);
    }
    assert offset in OffsetsBelow(len);
    var row := decode(offset).value;
    var seen1 := seen + {offset};
    if Walk(decode, len, row.left, seen1).Err? {
      var inner := WalkFlaw(decode, len, row.left, seen1);
      flaw := LiftFlaw(decode, offset, L, seen1, inner);
      if flaw.SeenBefore? && Follow(decode, offset, flaw.p) !in seen {
        flaw := Twice([], flaw.p);
      }
    } else {
      var seen2 := Walk(decode, len, row.left, seen1).value.0;
      WalkCovers(decode, len, row.left, seen1);
      var inner := WalkFlaw(decode, len, row.right, seen2);
      flaw := LiftFlaw(decode, offset, R, seen2, inner);
      if flaw.SeenBefore? {
        var o := Follow(decode, offset, flaw.p);
        if o == offset {
          flaw := Twice([], flaw.p);
        } else if o !in seen {
          var q :| Follow(decode, row.left, q) == o > 0;
          FollowStep(decode, offset, L, q);
          assert ([L] + q)[0] != flaw.p[0];
          flaw := Twice([L] + q, flaw.p);
        }
      }
    }
  }

  /**
   Exact characterisation on arbitrary bytes: the walk succeeds just when every
   reachable offset holds a row and none is reached twice, and it then returns one
   row per reachable offset, in order.
   */
  lemma WalkExact(decode: Decoder, len: nat, root: int)
    requires Within(decode, len)
    ensures Walk(decode, len, root, {}).Ok? <==> AllDecode(decode, root) && ReachedOnce(decode, root)
    ensures Walk(decode, len, root, {}).Ok? ==>
      exists paths ::
        InOrder(decode, root, paths) && RowsAt(decode, root, paths, Walk(decode, len, root, {}).value.1)
  {
    if Walk(decode, len, root, {}).Ok? {
      WalkCovers(decode, len, root, {});
      var paths := WalkRowsInOrder(decode, len, root, {});
    } else {
      var flaw := WalkFlaw(decode, len, root, {});
    }
  }

  // ----- a walk over a stored tree

  /** A binary tree of rows, each at its offset. */
  datatype RowTree =
    | Leaf
    | Node(left: RowTree, offset: int, cells: seq<Cell>, right: RowTree)
  {
    /** The link to this tree. */
    function Link(): int {
      if Leaf? then 0 else offset
    }

    function Rows(): seq<seq<Cell>> {
      if Leaf? then [] else left.Rows() + [cells] + right.Rows()
    }

    function Offsets(): set<int> {
      if Leaf? then {} else left.Offsets() + {offset} + right.Offsets()
    }

    /** No two rows share an offset. */
    predicate Distinct() {
      Node? ==>
        && left.Distinct() && right.Distinct()
        && offset !in left.Offsets() && offset !in right.Offsets()
        && left.Offsets() !! right.Offsets()
    }
  }

  /** The decoder finds every row of `t` where `t` says, with its links. */
  ghost predicate Stored(decode: Decoder, t: RowTree) {
    t.Node? ==>
      && t.offset > 0
      && decode(t.offset) == Ok(RowBlock(t.left.Link(), t.right.Link(), t.cells))
      && Stored(decode, t.left) && Stored(decode, t.right)
  }

  /** The walk reads a stored tree back as its rows in order. */
  lemma {:induction false} WalkTree(decode: Decoder, len: nat, t: RowTree, seen: set<int>)
    requires Within(decode, len) && Stored(decode, t) && t.Distinct() && t.Offsets() !! seen
    ensures Walk(decode, len, t.Link(), seen) == Ok((seen + t.Offsets(), t.Rows()))
    decreases t
  {
    if t.Node? {
      assert t.offset in t.Offsets() && t.offset in OffsetsBelow(len);
      WalkTree(decode, len, t.left, seen + {t.offset});
      WalkTree(decode, len, t.right, seen + {t.offset} + t.left.Offsets());
      assert seen + t.Offsets() == seen + {t.offset} + t.left.Offsets() + t.right.Offsets();
    } else {
      assert seen + t.Offsets() == seen;
    }
  }
}
