/** What stands in a table file, byte by byte: exactly what the readers accept. */
module CellLayout {
  import opened Wrappers
  import opened Numbers
  import opened BigInteger
  import opened Cells
  import opened RowIndex
  import opened Table

  // ----- words

  lemma WordOf(bs: seq<byte>, n: nat)
    requires |bs| == n > 0
    ensures bs == BigEndian(Signed(bs), n)
  {
    SignedRange(bs);
    BigEndianSigned(Signed(bs), n);
    SignedInjective(bs, BigEndian(Signed(bs), n));
  }

  lemma ReadExactOk(buf: seq<byte>, pos: nat, len: nat)
    ensures ReadExact(buf, pos, len).Ok? ==>
      |ReadExact(buf, pos, len).value| == len && At(buf, pos, ReadExact(buf, pos, len).value)
  {
  }

  /** A word is read exactly where its four bytes stand. */
  lemma WordRead(buf: seq<byte>, pos: nat, v: int, next: nat)
    ensures ReadI32(buf, pos) == Ok((v, next)) <==> IsI32(v) && At(buf, pos, BigEndian(v, 4)) && next == pos + 4
  {
    ReadExactOk(buf, pos, 4);
    hide At;
    hide BigEndian;
    hide Signed;
    if ReadI32(buf, pos) == Ok((v, next)) {
      WordOf(ReadExact(buf, pos, 4).value, 4);
    }
    if IsI32(v) && At(buf, pos, BigEndian(v, 4)) {
      ReadI32At(buf, pos, v);
    }
  }

  lemma LongWordRead(buf: seq<byte>, pos: nat, v: int, next: nat)
    ensures ReadI64(buf, pos) == Ok((v, next)) <==> IsI64(v) && At(buf, pos, BigEndian(v, 8)) && next == pos + 8
  {
    ReadExactOk(buf, pos, 8);
    hide At;
    hide BigEndian;
    hide Signed;
    if ReadI64(buf, pos) == Ok((v, next)) {
      WordOf(ReadExact(buf, pos, 8).value, 8);
      SignedRange(ReadExact(buf, pos, 8).value);
      HalfOfWords();
    }
    if IsI64(v) && At(buf, pos, BigEndian(v, 8)) {
      ReadI64At(buf, pos, v);
    }
  }

  lemma AtJoin(buf: seq<byte>, pos: nat, a: seq<byte>, b: seq<byte>)
    ensures At(buf, pos, a + b) <==> At(buf, pos, a) && At(buf, pos + |a|, b)
  {
    if At(buf, pos, a + b) {
      AtSplit(buf, pos, a, b);
    }
    if At(buf, pos, a) && At(buf, pos + |a|, b) {
      assert buf[pos..pos + |a + b|] == buf[pos..pos + |a|] + buf[pos + |a|..pos + |a| + |b|];
    }
  }

  /** Bytes are read with their length exactly where the length word and they stand. */
  lemma LenBytesRead(buf: seq<byte>, pos: nat, bytes: seq<byte>, next: nat)
    ensures ReadLenBytes(buf, pos) == Ok((bytes, next)) <==>
      |bytes| <= I32_MAX && At(buf, pos, BigEndian(|bytes|, 4) + bytes) && next == pos + 4 + |bytes|
  {
    hide BigEndian;
    hide ReadI32;
    hide ReadExact;
    hide At;
    AtJoin(buf, pos, BigEndian(|bytes|, 4), bytes);
    if ReadLenBytes(buf, pos) == Ok((bytes, next)) {
      var (len, behind) := ReadI32(buf, pos).value;
      WordRead(buf, pos, len, behind);
      ReadExactOk(buf, pos + 4, len);
    }
    if |bytes| <= I32_MAX && At(buf, pos, BigEndian(|bytes|, 4)) && At(buf, pos + 4, bytes) {
      WordRead(buf, pos, |bytes|, pos + 4);
      ReadExactAt(buf, pos + 4, bytes);
    }
  }

  // ----- cells

  /** A cell of a column stands at `pos`, and the next thing at `next`. A marker other than zero is as good as one. */
  ghost predicate CellStands(buf: seq<byte>, pos: nat, ty: ColType, cell: Cell, next: nat) {
    && pos < |buf|
    && (buf[pos] == 0 <==> cell == Null)
    && match cell
       case Null => next == pos + 1
       case Int(v) => ty == Integer && IsI32(v) && At(buf, pos + 1, BigEndian(v, 4)) && next == pos + 5
       case Str(utf8) =>
         && ty == Varchar && |utf8| <= I32_MAX && ValidUtf8(utf8)
         && At(buf, pos + 1, BigEndian(|utf8|, 4) + utf8) && next == pos + 5 + |utf8|
       case DateCell(day) =>
         && ty == Date && -4371587 <= day <= 2932896 && next == pos + 9
         && exists millis :: IsI64(millis) && At(buf, pos + 1, BigEndian(millis, 8))
              && day * 86400000 <= millis < (day + 1) * 86400000
       case Num(minor) =>
         && ty == Numeric
         && ScaledCell(buf, pos + 1, minor, next)
  }

  /** A decimal: the bytes of its unscaled number with their length, then its scale. */
  ghost predicate ScaledStands(buf: seq<byte>, pos: nat, bytes: seq<byte>, scale: int, next: nat) {
    && bytes != [] && |bytes| <= I32_MAX && IsI32(scale)
    && At(buf, pos, BigEndian(|bytes|, 4) + bytes) && At(buf, pos + 4 + |bytes|, BigEndian(scale, 4))
    && next == pos + 8 + |bytes|
  }

  ghost predicate ScaledCell(buf: seq<byte>, pos: nat, minor: i64, next: nat) {
    exists bytes, scale ::
      ScaledStands(buf, pos, bytes, scale, next) && ScaledTo(Signed(bytes), scale, minor)
  }

  /** The number at the scale is `minor` hundredths; a scale above two is refused, and so is a factor beyond 64 bits. */
  predicate ScaledTo(unscaled: int, scale: int, minor: i64) {
    && IsI64(unscaled) && scale <= 2
    && Pow10(2 - scale) <= I64_MAX && minor == unscaled * Pow10(2 - scale)
  }

  lemma MarkerRead(buf: seq<byte>, pos: nat)
    ensures ReadU8(buf, pos) == if pos < |buf| then Ok((buf[pos], pos + 1)) else Err(UnexpectedEof(pos, 1, |buf|))
  {
  }

  lemma IntegerRead(buf: seq<byte>, pos: nat, cell: Cell, next: nat)
    ensures ReadInteger(buf, pos) == Ok((cell, next)) <==>
      cell.Int? && IsI32(cell.value) && At(buf, pos, BigEndian(cell.value, 4)) && next == pos + 4
  {
    if cell.Int? {
      WordRead(buf, pos, cell.value, next);
    }
    hide ReadI32;
    hide At;
  }

  lemma VarcharRead(buf: seq<byte>, pos: nat, cell: Cell, next: nat)
    ensures ReadVarchar(buf, pos) == Ok((cell, next)) <==>
      && cell.Str? && |cell.utf8| <= I32_MAX && ValidUtf8(cell.utf8)
      && At(buf, pos, BigEndian(|cell.utf8|, 4) + cell.utf8) && next == pos + 4 + |cell.utf8|
  {
    if cell.Str? {
      LenBytesRead(buf, pos, cell.utf8, next);
    }
    hide ReadLenBytes;
    hide At;
    hide ValidUtf8;
  }

  lemma DayOfMillis(millis: int, day: int)
    ensures millis / MILLIS_PER_SECOND / SECONDS_PER_DAY == day <==> day * 86400000 <= millis < (day + 1) * 86400000
  {
    assert millis / 1000 / 86400 == millis / 86400000;
  }

  lemma DateRead(buf: seq<byte>, pos: nat, cell: Cell, next: nat)
    ensures ReadDate(buf, pos) == Ok((cell, next)) <==>
      && cell.DateCell? && -4371587 <= cell.day <= 2932896 && next == pos + 8
      && exists millis :: IsI64(millis) && At(buf, pos, BigEndian(millis, 8))
           && cell.day * 86400000 <= millis < (cell.day + 1) * 86400000
  {
    hide ReadI64;
    hide At;
    hide BigEndian;
    if ReadDate(buf, pos).Ok? {
      var (millis, behind) := ReadI64(buf, pos).value;
      LongWordRead(buf, pos, millis, behind);
      DayOfMillis(millis, ReadDate(buf, pos).value.0.day);
    }
    if && cell.DateCell? && -4371587 <= cell.day <= 2932896 && next == pos + 8
       && exists millis :: IsI64(millis) && At(buf, pos, BigEndian(millis, 8))
            && cell.day * 86400000 <= millis < (cell.day + 1) * 86400000 {
      var millis :| IsI64(millis) && At(buf, pos, BigEndian(millis, 8))
        && cell.day * 86400000 <= millis < (cell.day + 1) * 86400000;
      LongWordRead(buf, pos, millis, pos + 8);
      DayOfMillis(millis, cell.day);
    }
  }

  lemma NumericRead(buf: seq<byte>, pos: nat, cell: Cell, next: nat)
    ensures ReadNumeric(buf, pos) == Ok((cell, next)) <==>
      cell.Num? && ScaledCell(buf, pos, cell.minor, next)
  {
    hide ReadI32;
    hide ReadLenBytes;
    hide At;
    hide BigEndian;
    hide Signed;
    hide Pow10;
    if ReadNumeric(buf, pos) == Ok((cell, next)) {
      var (bytes, behind) := ReadLenBytes(buf, pos).value;
      var (scale, end) := ReadI32(buf, behind).value;
      LenBytesRead(buf, pos, bytes, behind);
      WordRead(buf, behind, scale, end);
      assert ScaledStands(buf, pos, bytes, scale, next) && ScaledTo(Signed(bytes), scale, cell.minor);
    }
    if cell.Num? && ScaledCell(buf, pos, cell.minor, next) {
      var bytes, scale :| ScaledStands(buf, pos, bytes, scale, next) && ScaledTo(Signed(bytes), scale, cell.minor);
      LenBytesRead(buf, pos, bytes, pos + 4 + |bytes|);
      WordRead(buf, pos + 4 + |bytes|, scale, next);
    }
  }

  /** A cell is read exactly where it stands, for every marker, length, scale and column. */
  lemma CellExact(buf: seq<byte>, pos: nat, ty: ColType, cell: Cell, next: nat)
    ensures ReadCell(buf, pos, ty) == Ok((cell, next)) <==> CellStands(buf, pos, ty, cell, next)
  {
    hide ReadInteger;
    hide ReadVarchar;
    hide ReadDate;
    hide ReadNumeric;
    hide At;
    hide BigEndian;
    hide ValidUtf8;
    hide ScaledStands;
    hide ScaledTo;
    MarkerRead(buf, pos);
    hide ReadU8;
    IntegerRead(buf, pos + 1, cell, next);
    VarcharRead(buf, pos + 1, cell, next);
    DateRead(buf, pos + 1, cell, next);
    NumericRead(buf, pos + 1, cell, next);
  }

  // ----- blocks

  /** The cells of the columns stand one behind the other, and end by `end`. */
  ghost predicate CellsStand(data: seq<byte>, pos: nat, end: nat, cols: seq<ColType>, cells: seq<Cell>)
    decreases |cells|
  {
    && |cells| == |cols|
    && (cells != [] ==>
          exists next: nat :: CellStands(data, pos, cols[0], cells[0], next) && next <= end
            && CellsStand(data, next, end, cols[1..], cells[1..]))
  }

  lemma CellNext(data: seq<byte>, pos: nat, ty: ColType, cell: Cell, next: nat)
    requires CellStands(data, pos, ty, cell, next)
    ensures ReadCell(data, pos, ty) == Ok((cell, next))
  {
    CellExact(data, pos, ty, cell, next);
  }

  lemma {:induction false} CellsRead(data: seq<byte>, pos: nat, end: nat, cols: seq<ColType>, k: nat,
                                     read: seq<Cell>, cells: seq<Cell>)
    requires k <= |cols|
    ensures ReadCells(data, pos, end, cols, k, read) == Ok(read + cells) <==>
      CellsStand(data, pos, end, cols[k..], cells)
    decreases |cols| - k
  {
    hide ReadCell;
    hide CellStands;
    if k == |cols| {
      assert read + [] == read;
      assert read + cells == read ==> cells == [];
    } else {
      assert cols[k..][0] == cols[k] && cols[k..][1..] == cols[k + 1..];
      if ReadCell(data, pos, cols[k]).Ok? && ReadCell(data, pos, cols[k]).value.1 <= end {
        var (cell, next) := ReadCell(data, pos, cols[k]).value;
        CellExact(data, pos, cols[k], cell, next);
        ReadCellsExtend(data, next, end, cols, k + 1, read + [cell]);
        if ReadCells(data, pos, end, cols, k, read) == Ok(read + cells) {
          assert (read + cells)[|read|] == cell;
          assert read + cells == read + [cell] + cells[1..];
          CellsRead(data, next, end, cols, k + 1, read + [cell], cells[1..]);
        }
      }
      if CellsStand(data, pos, end, cols[k..], cells) {
        var next: nat :| CellStands(data, pos, cols[k], cells[0], next) && next <= end
          && CellsStand(data, next, end, cols[k + 1..], cells[1..]);
        CellNext(data, pos, cols[k], cells[0], next);
        CellsRead(data, next, end, cols, k + 1, read + [cells[0]], cells[1..]);
        assert read + [cells[0]] + cells[1..] == read + cells;
      }
    }
  }

  /** Cells that are read follow those already read. */
  lemma {:induction false} ReadCellsExtend(data: seq<byte>, pos: nat, end: nat, cols: seq<ColType>, k: nat,
                                           read: seq<Cell>)
    requires k <= |cols|
    ensures ReadCells(data, pos, end, cols, k, read).Ok? ==> read <= ReadCells(data, pos, end, cols, k, read).value
    decreases |cols| - k
  {
    hide ReadCell;
    if k < |cols| && ReadCell(data, pos, cols[k]).Ok? {
      var (cell, next) := ReadCell(data, pos, cols[k]).value;
      ReadCellsExtend(data, next, end, cols, k + 1, read + [cell]);
    }
  }

  lemma NodeFrom(data: seq<byte>, pos: nat) returns (n: IndexNode)
    requires pos + 16 <= |data|
    ensures At(data, pos, NodeWords(n))
  {
    var a, b, c, d := data[pos..pos + 4], data[pos + 4..pos + 8], data[pos + 8..pos + 12], data[pos + 12..pos + 16];
    SignedRange(a);
    SignedRange(b);
    SignedRange(c);
    SignedRange(d);
    HalfOfWords();
    n := IndexNode(Signed(a), Signed(b), Signed(c), Signed(d));
    WordOf(a, 4);
    WordOf(b, 4);
    WordOf(c, 4);
    WordOf(d, 4);
    hide Signed;
    hide BigEndian;
    assert data[pos..pos + 16] == a + (b + (c + d));
  }

  /** Any bytes are index nodes. */
  lemma {:induction false} NodesFrom(data: seq<byte>, pos: nat, count: nat) returns (nodes: seq<IndexNode>)
    requires pos + 16 * count <= |data|
    ensures |nodes| == count && At(data, pos, NodesWords(nodes))
    decreases count
  {
    nodes := [];
    if count > 0 {
      var first := NodeFrom(data, pos);
      var rest := NodesFrom(data, pos + 16, count - 1);
      hide At;
      hide NodeWords;
      nodes := [first] + rest;
      AtJoin(data, pos, NodeWords(first), NodesWords(rest));
      assert nodes[1..] == rest;
    }
  }

  /** Nodes are read exactly where the block has room for them. */
  lemma {:induction false} NodesFit(data: seq<byte>, pos: nat, end: nat, index: nat, count: nat, left: int, right: int)
    requires index <= count && end <= |data|
    ensures pos <= end && ReadNodes(data, pos, end, index, count, left, right).Ok? ==> pos + 16 * (count - index) <= end
    decreases count - index
  {
    hide Signed;
    if index < count && pos <= end && ReadNodes(data, pos, end, index, count, left, right).Ok? {
      assert pos + 16 <= end;
      NodesFit(data, pos + 16, end, index + 1, count,
               if index == 0 then ReadI32(data, pos + 4).value.0 else left,
               if index == 0 then ReadI32(data, pos + 8).value.0 else right);
    }
  }

  /** What a block is, byte by byte: a size within the file, a node for each index, and the cells within the size. */
  ghost predicate Decodes(data: seq<byte>, offset: nat, cols: seq<ColType>, indexCount: nat, b: RowBlock) {
    exists size: nat, nodes ::
      && 4 + 16 * indexCount <= size <= I32_MAX && offset + size <= |data| && |nodes| == indexCount
      && At(data, offset, BigEndian(size, 4) + NodesWords(nodes))
      && b.left == FirstLeft(nodes) && b.right == FirstRight(nodes)
      && CellsStand(data, offset + 4 + 16 * indexCount, offset + size, cols, b.cells)
  }

  lemma DecodedStands(data: seq<byte>, offset: nat, cols: seq<ColType>, indexCount: nat, b: RowBlock)
    requires RowBlockAt(data, offset, cols, indexCount) == Ok(b)
    ensures Decodes(data, offset, cols, indexCount, b)
  {
    hide ReadI32;
    hide ReadNodes;
    hide ReadCells;
    hide CellsStand;
    hide At;
    hide BigEndian;
    hide NodesWords;
    var (size, pos) := ReadI32(data, offset).value;
    WordRead(data, offset, size, pos);
    NodesFit(data, pos, offset + size, 0, indexCount, 0, 0);
    var nodes := NodesFrom(data, pos, indexCount);
    ReadNodesAt(data, pos, offset + size, 0, nodes, 0, 0);
    AtJoin(data, offset, BigEndian(size, 4), NodesWords(nodes));
    assert [] + b.cells == b.cells && cols[0..] == cols;
    CellsRead(data, pos + 16 * indexCount, offset + size, cols, 0, [], b.cells);
  }

  lemma StandingDecodes(data: seq<byte>, offset: nat, cols: seq<ColType>, indexCount: nat, b: RowBlock)
    requires Decodes(data, offset, cols, indexCount, b)
    ensures RowBlockAt(data, offset, cols, indexCount) == Ok(b)
  {
    hide ReadI32;
    hide ReadNodes;
    hide ReadCells;
    hide CellsStand;
    hide At;
    hide BigEndian;
    hide NodesWords;
    var size: nat, nodes :|
      && 4 + 16 * indexCount <= size <= I32_MAX && offset + size <= |data| && |nodes| == indexCount
      && At(data, offset, BigEndian(size, 4) + NodesWords(nodes))
      && b.left == FirstLeft(nodes) && b.right == FirstRight(nodes)
      && CellsStand(data, offset + 4 + 16 * indexCount, offset + size, cols, b.cells);
    AtJoin(data, offset, BigEndian(size, 4), NodesWords(nodes));
    WordRead(data, offset, size, offset + 4);
    ReadNodesAt(data, offset + 4, offset + size, 0, nodes, 0, 0);
    assert [] + b.cells == b.cells && cols[0..] == cols;
    CellsRead(data, offset + 4 + 16 * indexCount, offset + size, cols, 0, [], b.cells);
  }

  /** On arbitrary bytes, an offset decodes to a row exactly when such a block stands there. */
  lemma RowBlockExact(data: seq<byte>, offset: int, cols: seq<ColType>, indexCount: nat, b: RowBlock)
    ensures Rows(data, cols, indexCount)(offset) == Ok(b) <==> offset >= 0 && Decodes(data, offset, cols, indexCount, b)
  {
    hide RowBlockAt;
    hide Decodes;
    if offset >= 0 {
      if RowBlockAt(data, offset, cols, indexCount) == Ok(b) {
        DecodedStands(data, offset, cols, indexCount, b);
      }
      if Decodes(data, offset, cols, indexCount, b) {
        StandingDecodes(data, offset, cols, indexCount, b);
      }
    }
  }

  // ----- refusals

  /** The word of this value stands at `pos`. */
  ghost predicate WordStands(data: seq<byte>, pos: nat, v: int) {
    IsI32(v) && At(data, pos, BigEndian(v, 4))
  }

  /** A negative length is refused as such, whatever follows it. */
  lemma LengthRefused(data: seq<byte>, pos: nat, len: int)
    requires WordStands(data, pos, len) && len < 0
    ensures ReadVarchar(data, pos) == Err(NegativeLength(len)) && ReadNumeric(data, pos) == Err(NegativeLength(len))
  {
    WordRead(data, pos, len, pos + 4);
    hide ReadI32;
    hide At;
    hide BigEndian;
  }

  /** A scale above two is refused, whatever the number, as long as the number itself is read. */
  lemma ScaleRefused(data: seq<byte>, pos: nat, bytes: seq<byte>, scale: int, next: nat)
    requires ScaledStands(data, pos, bytes, scale, next)
    ensures !IsI64(Signed(bytes)) ==> ReadNumeric(data, pos) == Err(Overflow)
    ensures IsI64(Signed(bytes)) && scale > 2 ==> ReadNumeric(data, pos) == Err(UnsupportedNumericScale(scale))
  {
    hide ReadI32;
    hide ReadLenBytes;
    hide At;
    hide BigEndian;
    hide Signed;
    LenBytesRead(data, pos, bytes, pos + 4 + |bytes|);
    WordRead(data, pos + 4 + |bytes|, scale, next);
  }

  /** Negative offsets, sizes below four and sizes beyond the file are refused before anything else is read. */
  lemma BlockRefused(data: seq<byte>, offset: int, size: int, cols: seq<ColType>, indexCount: nat)
    ensures offset < 0 ==> Rows(data, cols, indexCount)(offset) == Err(InvalidRowOffset(offset))
    ensures offset >= 0 && WordStands(data, offset, size) && size < 4 ==>
      Rows(data, cols, indexCount)(offset) == Err(InvalidRowSize(size))
    ensures offset >= 0 && WordStands(data, offset, size) && size >= 4 && offset + size > |data| ==>
      Rows(data, cols, indexCount)(offset) == Err(UnexpectedEof(offset, size, |data|))
  {
    if offset >= 0 {
      WordRead(data, offset, size, offset + 4);
    }
    hide ReadI32;
    hide ReadNodes;
    hide ReadCells;
    hide At;
    hide BigEndian;
  }
}
