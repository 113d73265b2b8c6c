/** Traversal of a cached table: row blocks linked by their primary index nodes. */
module Table {
  import opened Wrappers
  import opened Numbers
  import opened BigInteger
  import opened Cells
  import opened RowIndex

  // ----- decoding one row block

  /** Links of the primary index node, and the position behind the last of `count` nodes. */
  function ReadNodes(data: seq<byte>, pos: nat, end: nat, index: nat, count: nat, left: int, right: int)
    : Result<(int, int, nat), HsqlError>
    requires index <= count
    decreases count - index
  {
    if index == count then Ok((left, right, pos)) else
    var (_, next) :- ReadI32(data, pos);
    var (nodeLeft, next) :- ReadI32(data, next);
    var (nodeRight, next) :- ReadI32(data, next);
    var (_, next) :- ReadI32(data, next);
    if next > end then Err(UnexpectedEof(end, next - end, end)) else
    if index == 0 then ReadNodes(data, next, end, 1, count, nodeLeft, nodeRight)
    else ReadNodes(data, next, end, index + 1, count, left, right)
  }

  /** The cells of the columns from number `k` on, behind the cells already read. */
  function ReadCells(data: seq<byte>, pos: nat, end: nat, cols: seq<ColType>, k: nat, cells: seq<Cell>)
    : Result<seq<Cell>, HsqlError>
    requires k <= |cols|
    decreases |cols| - k
  {
    if k == |cols| then Ok(cells) else
    var (cell, next) :- ReadCell(data, pos, cols[k]);
    if next > end then Err(UnexpectedEof(pos, next - pos, end))
    else ReadCells(data, next, end, cols, k + 1, cells + [cell])
  }

  function RowBlockAt(data: seq<byte>, offset: nat, cols: seq<ColType>, indexCount: nat)
    : (r: Result<RowBlock, HsqlError>)
    ensures r.Ok? ==> offset < |data|
  {
    var (size, pos) :- ReadI32(data, offset);
    if size < 4 then Err(InvalidRowSize(size)) else
    if offset + size > |data| then Err(UnexpectedEof(offset, size, |data|)) else
    var (left, right, pos) :- ReadNodes(data, pos, offset + size, 0, indexCount, 0, 0);
    var cells :- ReadCells(data, pos, offset + size, cols, 0, []);
    Ok(RowBlock(left, right, cells))
  }

  /** The decoder that a table file, its columns and its number of indexes give. */
  function Rows(data: seq<byte>, cols: seq<ColType>, indexCount: nat): (decode: Decoder)
    ensures Within(decode, |data|)
  {
    (offset: int) =>
      if offset < 0 then Err(InvalidRowOffset(offset)) else RowBlockAt(data, offset, cols, indexCount)
  }

  method DecodeNodes(data: seq<byte>, start: nat, end: nat, indexCount: nat)
    returns (r: Result<(int, int, nat), HsqlError>)
    ensures r == ReadNodes(data, start, end, 0, indexCount, 0, 0)
  {
    hide ReadI32;
    var pos: nat, left: int, right: int := start, 0, 0;
    for index := 0 to indexCount
      invariant ReadNodes(data, pos, end, index, indexCount, left, right)
             == ReadNodes(data, start, end, 0, indexCount, 0, 0)
    {
      var balance :- ReadI32(data, pos);
      var nodeLeft :- ReadI32(data, balance.1);
      var nodeRight :- ReadI32(data, nodeLeft.1);
      var nodeParent :- ReadI32(data, nodeRight.1);
      if index == 0 {
        left, right := nodeLeft.0, nodeRight.0;
      }
      pos := nodeParent.1;
      if pos > end {
        return Err(UnexpectedEof(end, pos - end, end));
      }
    }
    r := Ok((left, right, pos));
  }

  method DecodeCells(data: seq<byte>, start: nat, end: nat, cols: seq<ColType>)
    returns (r: Result<seq<Cell>, HsqlError>)
    ensures r == ReadCells(data, start, end, cols, 0, [])
  {
    hide ReadCell;
    var pos: nat := start;
    var cells: seq<Cell> := [];
    for k := 0 to |cols|
      invariant ReadCells(data, pos, end, cols, k, cells) == ReadCells(data, start, end, cols, 0, [])
    {
      var read :- ReadCell(data, pos, cols[k]);
      var (cell, next) := read;
      if next > end {
        return Err(UnexpectedEof(pos, next - pos, end));
      }
      cells := cells + [cell];
      pos := next;
    }
    r := Ok(cells);
  }

  method DecodeRow(data: seq<byte>, offset: int, cols: seq<ColType>, indexCount: nat)
    returns (r: Result<RowBlock, HsqlError>)
    ensures r == Rows(data, cols, indexCount)(offset)
  {
    if offset < 0 {
      return Err(InvalidRowOffset(offset));
    }
    var header :- ReadI32(data, offset);
    var (size, pos) := header;
    if size < 4 {
      return Err(InvalidRowSize(size));
    }
    var end := offset + size;
    if end > |data| {
      return Err(UnexpectedEof(offset, size, |data|));
    }
    var nodes :- DecodeNodes(data, pos, end, indexCount);
    var cells :- DecodeCells(data, nodes.2, end, cols);
    r := Ok(RowBlock(nodes.0, nodes.1, cells));
  }

  // ----- the traversal

  /** The accumulators of one traversal. */
  class Traversal {
    var seen: set<int>
    var rows: seq<seq<Cell>>

    constructor ()
      ensures seen == {} && rows == []
    {
      seen, rows := {}, [];
    }

    /** Appends the rows below `offset`; `decode` names what `DecodeRow` computes. */
    method WalkRow(data: seq<byte>, offset: int, cols: seq<ColType>, indexCount: nat, ghost decode: Decoder)
      returns (r: Result<(), HsqlError>)
      requires decode == Rows(data, cols, indexCount)
      modifies this
      ensures match Walk(decode, |data|, offset, old(seen))
        case Ok((after, more)) => r.Ok? && seen == after && rows == old(rows) + more
        case Err(e) => r == Err(e)
      decreases OffsetsBelow(|data|) - seen
    {
      hide Rows;
      hide Walk;
      ghost var before, rowsBefore := seen, rows;
      WalkStep(decode, |data|, offset, before);
      if offset <= 0 {
        return Ok(());
      }
      if offset in seen {
        return Err(RowCycle(offset));
      }
      seen := seen + {offset};
      var row :- DecodeRow(data, offset, cols, indexCount);
      assert offset in OffsetsBelow(|data|);
      var _ :- WalkRow(data, row.left, cols, indexCount, decode);
      ghost var left := Walk(decode, |data|, row.left, before + {offset}).value;
      rows := rows + [row.cells];
      var _ :- WalkRow(data, row.right, cols, indexCount, decode);
      ghost var right := Walk(decode, |data|, row.right, left.0).value;
      assert rows == rowsBefore + (left.1 + [row.cells] + right.1);
      r := Ok(());
    }
  }

  /** What reading a table must give: the walk from its root. */
  ghost function TableRows(data: seq<byte>, root: int, cols: seq<ColType>, indexCount: nat)
    : Result<seq<seq<Cell>>, HsqlError>
  {
    var (_, rows) :- Walk(Rows(data, cols, indexCount), |data|, root, {});
    Ok(rows)
  }

  method ReadTable(data: seq<byte>, root: int, cols: seq<ColType>, indexCount: nat)
    returns (r: Result<seq<seq<Cell>>, HsqlError>)
    ensures r == TableRows(data, root, cols, indexCount)
  {
    ghost var decode := Rows(data, cols, indexCount);
    var traversal := new Traversal();
    var _ :- traversal.WalkRow(data, root, cols, indexCount, decode);
    assert traversal.rows == TableRows(data, root, cols, indexCount).value;
    r := Ok(traversal.rows);
  }

  /**
   On arbitrary bytes, a table reads exactly when every offset that its links reach
   holds a row block and none is reached twice; the result has one row per reached
   offset, in order.
   */
  lemma TableExact(data: seq<byte>, root: int, cols: seq<ColType>, indexCount: nat)
    ensures
      var decode := Rows(data, cols, indexCount);
      var r := TableRows(data, root, cols, indexCount);
      && (r.Ok? <==> AllDecode(decode, root) && ReachedOnce(decode, root))
      && (r.Ok? ==> exists paths :: InOrder(decode, root, paths) && RowsAt(decode, root, paths, r.value))
  {
    WalkExact(Rows(data, cols, indexCount), |data|, root);
  }

  // ----- the layout of row blocks

  /** Encoded cells, one behind the other. */
  function EncodeCells(cells: seq<Cell>, cols: seq<ColType>): seq<byte>
    requires Writable(cells, cols)
  {
    if cells == [] then [] else EncodeCell(cells[0], cols[0]).value + EncodeCells(cells[1..], cols[1..])
  }

  /** One valid cell for each column, each accepted by the writer. */
  predicate Writable(cells: seq<Cell>, cols: seq<ColType>) {
    && |cells| == |cols|
    && forall k :: 0 <= k < |cells| ==> ValidCell(cells[k]) && EncodeCell(cells[k], cols[k]).Ok?
  }

  /** An index node: its balance, and where its left, right and parent row stand. */
  datatype IndexNode = IndexNode(balance: i32, left: i32, right: i32, parent: i32)

  function NodeWords(n: IndexNode): (words: seq<byte>)
    ensures |words| == 16
  {
    BigEndian(n.balance, 4) + (BigEndian(n.left, 4) + (BigEndian(n.right, 4) + BigEndian(n.parent, 4)))
  }

  /** Index nodes, one behind the other. */
  function NodesWords(nodes: seq<IndexNode>): (words: seq<byte>)
    ensures |words| == 16 * |nodes|
  {
    if nodes == [] then [] else NodeWords(nodes[0]) + NodesWords(nodes[1..])
  }

  /** The links of the first index node; none without one. */
  function FirstLeft(nodes: seq<IndexNode>): int {
    if nodes == [] then 0 else nodes[0].left
  }

  function FirstRight(nodes: seq<IndexNode>): int {
    if nodes == [] then 0 else nodes[0].right
  }

  /** A row block: its size, one node for each index, its cells. The size may leave room behind the cells. */
  ghost predicate BlockStands(data: seq<byte>, offset: nat, size: nat, nodes: seq<IndexNode>, cells: seq<Cell>,
                              cols: seq<ColType>) {
    && Writable(cells, cols)
    && 4 + 16 * |nodes| + |EncodeCells(cells, cols)| <= size <= I32_MAX && offset + size <= |data|
    && At(data, offset, BigEndian(size, 4) + (NodesWords(nodes) + EncodeCells(cells, cols)))
  }

  lemma {:induction false} ReadCellsAt(data: seq<byte>, pos: nat, end: nat, cols: seq<ColType>, k: nat,
                                       read: seq<Cell>, cells: seq<Cell>)
    requires k <= |cols| && Writable(cells, cols[k..])
    requires At(data, pos, EncodeCells(cells, cols[k..])) && pos + |EncodeCells(cells, cols[k..])| <= end
    ensures ReadCells(data, pos, end, cols, k, read) == Ok(read + cells)
    decreases |cells|
  {
    hide ReadCell;
    hide EncodeCell;
    if cells == [] {
      assert read + cells == read;
    } else {
      var first := EncodeCell(cells[0], cols[k]).value;
      assert cols[k..][1..] == cols[k + 1..] && cols[k..][0] == cols[k];
      AtSplit(data, pos, first, EncodeCells(cells[1..], cols[k + 1..]));
      ReadCellAt(data, pos, cells[0], cols[k]);
      ReadCellsAt(data, pos + |first|, end, cols, k + 1, read + [cells[0]], cells[1..]);
      assert read + [cells[0]] + cells[1..] == read + cells;
    }
  }

  lemma NodeWordsAt(data: seq<byte>, pos: nat, n: IndexNode)
    requires At(data, pos, NodeWords(n))
    ensures ReadI32(data, pos) == Ok((n.balance, pos + 4)) && ReadI32(data, pos + 4) == Ok((n.left, pos + 8))
    ensures ReadI32(data, pos + 8) == Ok((n.right, pos + 12)) && ReadI32(data, pos + 12) == Ok((n.parent, pos + 16))
  {
    hide BigEndian;
    hide At;
    hide ReadI32;
    AtSplit(data, pos, BigEndian(n.balance, 4), BigEndian(n.left, 4) +
      (BigEndian(n.right, 4) + BigEndian(n.parent, 4)));
    AtSplit(data, pos + 4, BigEndian(n.left, 4), BigEndian(n.right, 4) + BigEndian(n.parent, 4));
    AtSplit(data, pos + 8, BigEndian(n.right, 4), BigEndian(n.parent, 4));
    ReadI32At(data, pos, n.balance);
    ReadI32At(data, pos + 4, n.left);
    ReadI32At(data, pos + 8, n.right);
    ReadI32At(data, pos + 12, n.parent);
  }

  /** The nodes from number `index` on: the links are those of node zero, or those already read. */
  lemma {:induction false} ReadNodesAt(data: seq<byte>, pos: nat, end: nat, index: nat, nodes: seq<IndexNode>,
                                       left: int, right: int)
    requires At(data, pos, NodesWords(nodes)) && pos + 16 * |nodes| <= end
    ensures ReadNodes(data, pos, end, index, index + |nodes|, left, right) == Ok((
      if index == 0 && nodes != [] then nodes[0].left else left,
      if index == 0 && nodes != [] then nodes[0].right else right,
      pos + 16 * |nodes|))
    decreases |nodes|
  {
    hide At;
    hide ReadI32;
    hide NodeWords;
    if nodes != [] {
      AtSplit(data, pos, NodeWords(nodes[0]), NodesWords(nodes[1..]));
      NodeWordsAt(data, pos, nodes[0]);
      ReadNodesAt(data, pos + 16, end, index + 1, nodes[1..],
                  if index == 0 then nodes[0].left else left, if index == 0 then nodes[0].right else right);
    }
  }

  /** A block in a file decodes to the links of its first index node and its cells, whatever else the words of its
    * nodes say, however many there are, and whatever surrounds it. */
  lemma BlockAt(data: seq<byte>, offset: nat, size: nat, nodes: seq<IndexNode>, cells: seq<Cell>, cols: seq<ColType>)
    requires BlockStands(data, offset, size, nodes, cells, cols)
    ensures RowBlockAt(data, offset, cols, |nodes|) == Ok(RowBlock(FirstLeft(nodes), FirstRight(nodes), cells))
  {
    hide ReadNodes;
    hide ReadCells;
    hide EncodeCells;
    hide NodesWords;
    hide BigEndian;
    hide At;
    hide ReadI32;
    var encoded := EncodeCells(cells, cols);
    AtSplit(data, offset, BigEndian(size, 4), NodesWords(nodes) + encoded);
    ReadI32At(data, offset, size);
    AtSplit(data, offset + 4, NodesWords(nodes), encoded);
    ReadNodesAt(data, offset + 4, offset + size, 0, nodes, 0, 0);
    assert cols[0..] == cols;
    ReadCellsAt(data, offset + 4 + 16 * |nodes|, offset + size, cols, 0, [], cells);
    assert [] + cells == cells;
  }

  /** A block for the row stands at its offset: the first index node has its links, all other words are arbitrary. */
  ghost predicate RowStands(data: seq<byte>, offset: nat, left: int, right: int, cells: seq<Cell>, cols: seq<ColType>,
                            indexCount: nat) {
    exists size: nat, nodes :: |nodes| == indexCount && FirstLeft(nodes) == left && FirstRight(nodes) == right
      && BlockStands(data, offset, size, nodes, cells, cols)
  }

  /** Every row of `t` stands in the file as a block, at a positive offset. */
  ghost predicate LaidOut(data: seq<byte>, t: RowTree, cols: seq<ColType>, indexCount: nat) {
    t.Node? ==>
      && 0 < t.offset
      && LaidOut(data, t.left, cols, indexCount) && LaidOut(data, t.right, cols, indexCount)
      && RowStands(data, t.offset, t.left.Link(), t.right.Link(), t.cells, cols, indexCount)
  }

  lemma {:induction false} LaidOutStored(data: seq<byte>, t: RowTree, cols: seq<ColType>, indexCount: nat)
    requires LaidOut(data, t, cols, indexCount)
    ensures Stored(Rows(data, cols, indexCount), t)
  {
    if t.Node? {
      hide BlockStands;
      LaidOutStored(data, t.left, cols, indexCount);
      LaidOutStored(data, t.right, cols, indexCount);
      var size: nat, nodes :| |nodes| == indexCount && FirstLeft(nodes) == t.left.Link()
        && FirstRight(nodes) == t.right.Link() && BlockStands(data, t.offset, size, nodes, t.cells, cols);
      BlockAt(data, t.offset, size, nodes, t.cells, cols);
      hide RowBlockAt;
    }
  }

  /**
   File round trip: a tree of writable rows laid out at distinct offsets, with any number of
   indexes, is read back as its rows in order. Only the first index matters, and so do no
   other bytes of the file.
   */
  lemma TableRoundTrip(data: seq<byte>, t: RowTree, cols: seq<ColType>, indexCount: nat)
    requires LaidOut(data, t, cols, indexCount) && t.Distinct()
    ensures TableRows(data, t.Link(), cols, indexCount) == Ok(t.Rows())
  {
    hide LaidOut;
    LaidOutStored(data, t, cols, indexCount);
    WalkTree(Rows(data, cols, indexCount), |data|, t, {});
  }
}
