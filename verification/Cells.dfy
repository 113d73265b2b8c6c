/**
 The HSQLDB 1.8 column encoding: one marker byte, then a typed payload.

 A `String` is its valid UTF-8 byte string, and a DATE value is the number of
 its day since 1970-01-01.
 */
module Cells {
  import opened Wrappers
  import opened Numbers
  import opened BigInteger

  datatype ColType = Integer | Varchar | Date | Numeric

  datatype Cell =
    | Null
    | Int(value: i64)
    | Str(utf8: seq<byte>)
    | DateCell(day: int)
    | Num(minor: i64)

  datatype HsqlError =
    | UnexpectedEof(pos: nat, needed: nat, len: nat)
    | InvalidUtf8
    | InvalidDateMillis(millis: int)
    | NegativeLength(negative: int)
    | UnsupportedNumericScale(scale: int)
    | BadBigInteger
    | Overflow
    | InvalidRowOffset(offset: int)
    | InvalidRowSize(size: int)
    | RowCycle(again: int)

  datatype WriteCellError =
    | TypeMismatch(cell: Cell, ty: ColType)
    | LengthOutOfRange(len: nat)
    | InvalidDate(day: int)
    | IntegerOutOfRange(value: i64)

  // Days of -9999-01-01 and 9999-12-31, the calendar range of the date library.
  const FIRST_DAY: int := -4371587
  const LAST_DAY: int := 2932896
  const SECONDS_PER_DAY: int := 86400
  const MILLIS_PER_SECOND: int := 1000

  // ----- UTF-8

  predicate Continuation(b: byte) {
    0x80 <= b < 0xc0
  }

  /** Byte length of the well-formed UTF-8 sequence `bs` starts with; 0 if there is none. */
  function FirstScalar(bs: seq<byte>): (n: nat)
    ensures n <= |bs|
  {
    if bs == [] then 0
    else if bs[0] < 0x80 then 1
    else if 0xc2 <= bs[0] < 0xe0 && |bs| >= 2 && Continuation(bs[1]) then 2
    else if
      && 0xe0 <= bs[0] < 0xf0 && |bs| >= 3 && Continuation(bs[1]) && Continuation(bs[2])
      && (bs[0] == 0xe0 ==> bs[1] >= 0xa0) && (bs[0] == 0xed ==> bs[1] < 0xa0)
    then 3
    else if
      && 0xf0 <= bs[0] < 0xf5 && |bs| >= 4
      && Continuation(bs[1]) && Continuation(bs[2]) && Continuation(bs[3])
      && (bs[0] == 0xf0 ==> bs[1] >= 0x90) && (bs[0] == 0xf4 ==> bs[1] < 0x90)
    then 4
    else 0
  }

  /** Well-formed UTF-8 (section 4 of RFC 3629). */
  predicate ValidUtf8(bs: seq<byte>) {
    bs == [] || (FirstScalar(bs) > 0 && ValidUtf8(bs[FirstScalar(bs)..]))
  }

  // ----- reading

  function ReadExact(buf: seq<byte>, pos: nat, len: nat): Result<seq<byte>, HsqlError> {
    if pos + len > |buf| then Err(UnexpectedEof(pos, len, |buf|)) else Ok(buf[pos..pos + len])
  }

  function ReadU8(buf: seq<byte>, pos: nat): Result<(byte, nat), HsqlError> {
    var bytes :- ReadExact(buf, pos, 1);
    Ok((bytes[0], pos + 1))
  }

  function ReadI32(buf: seq<byte>, pos: nat): (r: Result<(int, nat), HsqlError>)
    ensures r.Ok? ==> r.value.1 == pos + 4 <= |buf| && IsI32(r.value.0)
  {
    var bytes :- ReadExact(buf, pos, 4);
    SignedRange(bytes);
    HalfOfWords();
    Ok((Signed(bytes), pos + 4))
  }

  function ReadI64(buf: seq<byte>, pos: nat): Result<(int, nat), HsqlError> {
    var bytes :- ReadExact(buf, pos, 8);
    Ok((Signed(bytes), pos + 8))
  }

  function ReadLenBytes(buf: seq<byte>, pos: nat): Result<(seq<byte>, nat), HsqlError> {
    var (len, next) :- ReadI32(buf, pos);
    if len < 0 then Err(NegativeLength(len)) else
    var bytes :- ReadExact(buf, next, len);
    Ok((bytes, next + len))
  }

  function DayFromMillis(millis: int): Result<int, HsqlError> {
    var day := millis / MILLIS_PER_SECOND / SECONDS_PER_DAY;
    if FIRST_DAY <= day <= LAST_DAY then Ok(day) else Err(InvalidDateMillis(millis))
  }

  lemma {:induction false} Pow10Monotone(m: nat, n: nat)
    requires m <= n
    ensures Pow10(m) <= Pow10(n)
  {
    if m < n {
      Pow10Monotone(m, n - 1);
    }
  }

  /** `pow10`: multiplies up, refusing as soon as a product leaves `i64`. */
  method CheckedPow10(exponent: nat) returns (r: Result<int, HsqlError>)
    ensures r == if Pow10(exponent) <= I64_MAX then Ok(Pow10(exponent)) else Err(Overflow)
  {
    var value := 1;
    for i := 0 to exponent
      invariant value == Pow10(i) <= I64_MAX
    {
      if value * 10 > I64_MAX {
        Pow10Monotone(i + 1, exponent);
        return Err(Overflow);
      }
      value := value * 10;
    }
    r := Ok(value);
  }

  /** An unscaled number at a decimal scale, in hundredths. */
  function ToMinorUnits(unscaled: int, scale: int): Result<i64, HsqlError> {
    if scale > 2 then Err(UnsupportedNumericScale(scale))
    else if Pow10(2 - scale) > I64_MAX then Err(Overflow)
    else if IsI64(unscaled * Pow10(2 - scale)) then Ok(unscaled * Pow10(2 - scale))
    else Err(Overflow)
  }

  function DecodePayload(bytes: seq<byte>): Result<int, HsqlError> {
    match DecodeSpec(bytes)
    case Ok(v) => Ok(v)
    case Err(InvalidBigInteger) => Err(BadBigInteger)
    case Err(NumericOverflow) => Err(Overflow)
  }

  function ReadInteger(buf: seq<byte>, pos: nat): Result<(Cell, nat), HsqlError> {
    var (value, next) :- ReadI32(buf, pos);
    Ok((Int(value), next))
  }

  function ReadVarchar(buf: seq<byte>, pos: nat): Result<(Cell, nat), HsqlError> {
    var (bytes, next) :- ReadLenBytes(buf, pos);
    if ValidUtf8(bytes) then Ok((Str(bytes), next)) else Err(InvalidUtf8)
  }

  function ReadDate(buf: seq<byte>, pos: nat): Result<(Cell, nat), HsqlError> {
    var (millis, next) :- ReadI64(buf, pos);
    var day :- DayFromMillis(millis);
    Ok((DateCell(day), next))
  }

  function ReadNumeric(buf: seq<byte>, pos: nat): Result<(Cell, nat), HsqlError> {
    var (bytes, afterBytes) :- ReadLenBytes(buf, pos);
    var (scale, next) :- ReadI32(buf, afterBytes);
    var unscaled :- DecodePayload(bytes);
    var minor :- ToMinorUnits(unscaled, scale);
    Ok((Num(minor), next))
  }

  /** Decodes one column value at `pos`, with the position that follows it. */
  function ReadCell(buf: seq<byte>, pos: nat, ty: ColType): (r: Result<(Cell, nat), HsqlError>)
    ensures r.Ok? ==> pos < r.value.1 <= |buf|
  {
    var (marker, next) :- ReadU8(buf, pos);
    if marker == 0 then Ok((Null, next)) else
    match ty
    case Integer => ReadInteger(buf, next)
    case Varchar => ReadVarchar(buf, next)
    case Date => ReadDate(buf, next)
    case Numeric => ReadNumeric(buf, next)
  }

  // ----- writing

  function LenBytes(bytes: seq<byte>): Result<seq<byte>, WriteCellError> {
    if |bytes| > I32_MAX then Err(LengthOutOfRange(|bytes|))
    else Ok([1] + BigEndian(|bytes|, 4) + bytes)
  }

  /** The bytes of one column value. */
  function EncodeCell(cell: Cell, ty: ColType): Result<seq<byte>, WriteCellError> {
    match cell
    case Null => Ok([0])
    case Int(value) =>
      if ty != Integer then Err(TypeMismatch(cell, ty))
      else if IsI32(value) then Ok([1] + BigEndian(value, 4))
      else Err(IntegerOutOfRange(value))
    case Str(utf8) =>
      if ty != Varchar then Err(TypeMismatch(cell, ty)) else LenBytes(utf8)
    case DateCell(day) =>
      if ty != Date then Err(TypeMismatch(cell, ty))
      else if FIRST_DAY <= day <= LAST_DAY
      then Ok([1] + BigEndian(day * SECONDS_PER_DAY * MILLIS_PER_SECOND, 8))
      else Err(InvalidDate(day))
    case Num(minor) =>
      if ty != Numeric then Err(TypeMismatch(cell, ty)) else
      var prefix :- LenBytes(Shortest(minor));
      Ok(prefix + BigEndian(2, 4))
  }

  /** A growing output buffer. */
  class ByteBuffer {
    var bytes: seq<byte>

    constructor ()
      ensures bytes == []
    {
      bytes := [];
    }

    method Append(more: seq<byte>)
      modifies this
      ensures bytes == old(bytes) + more
    {
      bytes := bytes + more;
    }
  }

  method WriteLenBytes(out: ByteBuffer, bytes: seq<byte>) returns (r: Result<(), WriteCellError>)
    modifies out
    ensures match LenBytes(bytes)
      case Ok(more) => r.Ok? && out.bytes == old(out.bytes) + more
      case Err(e) => r == Err(e) && out.bytes == old(out.bytes)
  {
    if |bytes| > I32_MAX {
      return Err(LengthOutOfRange(|bytes|));
    }
    out.Append([1]);
    out.Append(BigEndian(|bytes|, 4));
    out.Append(bytes);
    assert out.bytes == old(out.bytes) + ([1] + BigEndian(|bytes|, 4) + bytes);
    r := Ok(());
  }

  /** Appends one column value, or refuses it and appends nothing. */
  method TryWriteCell(out: ByteBuffer, cell: Cell, ty: ColType) returns (r: Result<(), WriteCellError>)
    modifies out
    ensures match EncodeCell(cell, ty)
      case Ok(more) => r.Ok? && out.bytes == old(out.bytes) + more
      case Err(e) => r == Err(e) && out.bytes == old(out.bytes)
  {
    hide BigEndian;
    hide Shortest;
    if cell.Null? {
      out.Append([0]);
      return Ok(());
    }
    match (cell, ty)
    case (Int(value), Integer) =>
      if !IsI32(value) {
        return Err(IntegerOutOfRange(value));
      }
      out.Append([1]);
      out.Append(BigEndian(value, 4));
      assert out.bytes == old(out.bytes) + ([1] + BigEndian(value, 4));
      r := Ok(());
    case (Str(utf8), Varchar) =>
      r := WriteLenBytes(out, utf8);
    case (DateCell(day), Date) =>
      if !(FIRST_DAY <= day <= LAST_DAY) {
        return Err(InvalidDate(day));
      }
      var millis := day * SECONDS_PER_DAY * MILLIS_PER_SECOND;
      out.Append([1]);
      out.Append(BigEndian(millis, 8));
      assert out.bytes == old(out.bytes) + ([1] + BigEndian(millis, 8));
      r := Ok(());
    case (Num(minor), Numeric) =>
      var bytes := EncodeBigInteger(minor);
      r := WriteLenBytes(out, bytes);
      if r.Ok? {
        ghost var written := out.bytes;
        out.Append(BigEndian(2, 4));
        assert out.bytes == old(out.bytes) + (LenBytes(bytes).value + BigEndian(2, 4));
      }
    case _ =>
      r := Err(TypeMismatch(cell, ty));
  }

  // ----- reading back what was written

  /** `bs` stands at `pos` in `buf`. */
  ghost predicate At(buf: seq<byte>, pos: nat, bs: seq<byte>) {
    pos + |bs| <= |buf| && buf[pos..pos + |bs|] == bs
  }

  lemma AtSplit(buf: seq<byte>, pos: nat, a: seq<byte>, b: seq<byte>)
    requires At(buf, pos, a + b)
    ensures At(buf, pos, a) && At(buf, pos + |a|, b)
  {
    var s := buf[pos..pos + |a + b|];
    assert buf[pos..pos + |a|] == s[..|a|];
    assert buf[pos + |a|..pos + |a| + |b|] == s[|a|..];
  }

  lemma ReadExactAt(buf: seq<byte>, pos: nat, bytes: seq<byte>)
    requires At(buf, pos, bytes)
    ensures ReadExact(buf, pos, |bytes|) == Ok(bytes)
  {
  }

  lemma ReadMarkerAt(buf: seq<byte>, pos: nat)
    requires At(buf, pos, [1])
    ensures ReadU8(buf, pos) == Ok((1, pos + 1))
  {
    ReadExactAt(buf, pos, [1]);
    hide ReadExact;
  }

  lemma ReadI32At(buf: seq<byte>, pos: nat, v: int)
    requires IsI32(v) && At(buf, pos, BigEndian(v, 4))
    ensures ReadI32(buf, pos) == Ok((v, pos + 4))
  {
    ReadExactAt(buf, pos, BigEndian(v, 4));
    hide ReadExact;
    hide BigEndian;
    hide Signed;
    hide At;
    HalfOfWords();
    BigEndianSigned(v, 4);
  }

  lemma ReadLenBytesAt(buf: seq<byte>, pos: nat, bytes: seq<byte>)
    requires LenBytes(bytes).Ok? && At(buf, pos, LenBytes(bytes).value)
    ensures ReadU8(buf, pos) == Ok((1, pos + 1))
    ensures ReadLenBytes(buf, pos + 1) == Ok((bytes, pos + 5 + |bytes|))
  {
    hide BigEndian;
    hide ReadExact;
    hide At;
    hide ReadU8;
    hide ReadI32;
    AtSplit(buf, pos, [1] + BigEndian(|bytes|, 4), bytes);
    AtSplit(buf, pos, [1], BigEndian(|bytes|, 4));
    ReadMarkerAt(buf, pos);
    ReadI32At(buf, pos + 1, |bytes|);
    ReadExactAt(buf, pos + 5, bytes);
  }

  /** A cell the Rust types allow: text is valid UTF-8. */
  predicate ValidCell(cell: Cell) {
    cell.Str? ==> ValidUtf8(cell.utf8)
  }

  lemma ReadI64At(buf: seq<byte>, pos: nat, v: int)
    requires IsI64(v) && At(buf, pos, BigEndian(v, 8))
    ensures ReadI64(buf, pos) == Ok((v, pos + 8))
  {
    ReadExactAt(buf, pos, BigEndian(v, 8));
    hide ReadExact;
    hide BigEndian;
    hide Signed;
    hide At;
    HalfOfWords();
    BigEndianSigned(v, 8);
  }

  lemma DayOfMidnight(day: int)
    ensures day * SECONDS_PER_DAY * MILLIS_PER_SECOND / MILLIS_PER_SECOND / SECONDS_PER_DAY == day
  {
  }

  lemma ReadDateAt(buf: seq<byte>, pos: nat, day: int)
    requires FIRST_DAY <= day <= LAST_DAY
    requires At(buf, pos, BigEndian(day * SECONDS_PER_DAY * MILLIS_PER_SECOND, 8))
    ensures ReadDate(buf, pos) == Ok((DateCell(day), pos + 8))
  {
    DayOfMidnight(day);
    ReadI64At(buf, pos, day * SECONDS_PER_DAY * MILLIS_PER_SECOND);
  }

  lemma ShortestPayload(minor: i64)
    ensures DecodePayload(Shortest(minor)) == Ok(minor)
    ensures ToMinorUnits(minor, 2) == Ok(minor)
  {
    assert Pow10(0) == 1;
  }

  lemma ReadNumericAt(buf: seq<byte>, pos: nat, minor: i64)
    requires At(buf, pos, LenBytes(Shortest(minor)).value + BigEndian(2, 4))
    ensures ReadNumeric(buf, pos + 1) == Ok((Num(minor), pos + |LenBytes(Shortest(minor)).value| + 4))
  {
    hide At;
    hide BigEndian;
    hide Shortest;
    hide ReadLenBytes;
    hide ReadI32;
    hide ReadU8;
    hide DecodePayload;
    hide ToMinorUnits;
    var payload := LenBytes(Shortest(minor)).value;
    AtSplit(buf, pos, payload, BigEndian(2, 4));
    ReadLenBytesAt(buf, pos, Shortest(minor));
    ReadI32At(buf, pos + |payload|, 2);
    ShortestPayload(minor);
  }

  lemma ReadIntCellAt(buf: seq<byte>, pos: nat, cell: Cell, ty: ColType)
    requires cell.Int?
    requires ValidCell(cell) && EncodeCell(cell, ty).Ok?
    requires At(buf, pos, EncodeCell(cell, ty).value)
    ensures ReadCell(buf, pos, ty) == Ok((cell, pos + |EncodeCell(cell, ty).value|))
  {
    hide At;
    hide BigEndian;
    hide ReadI32;
    hide ReadU8;
    AtSplit(buf, pos, [1], BigEndian(cell.value, 4));
    ReadMarkerAt(buf, pos);
    ReadI32At(buf, pos + 1, cell.value);
  }

  lemma ReadStrCellAt(buf: seq<byte>, pos: nat, cell: Cell, ty: ColType)
    requires cell.Str?
    requires ValidCell(cell) && EncodeCell(cell, ty).Ok?
    requires At(buf, pos, EncodeCell(cell, ty).value)
    ensures ReadCell(buf, pos, ty) == Ok((cell, pos + |EncodeCell(cell, ty).value|))
  {
    hide At;
    hide BigEndian;
    hide ReadLenBytes;
    hide ReadU8;
    hide ValidUtf8;
    ReadLenBytesAt(buf, pos, cell.utf8);
  }

  lemma ReadDateCellAt(buf: seq<byte>, pos: nat, cell: Cell, ty: ColType)
    requires cell.DateCell?
    requires ValidCell(cell) && EncodeCell(cell, ty).Ok?
    requires At(buf, pos, EncodeCell(cell, ty).value)
    ensures ReadCell(buf, pos, ty) == Ok((cell, pos + |EncodeCell(cell, ty).value|))
  {
    hide At;
    hide BigEndian;
    hide ReadDate;
    hide ReadU8;
    AtSplit(buf, pos, [1], BigEndian(cell.day * SECONDS_PER_DAY * MILLIS_PER_SECOND, 8));
    ReadMarkerAt(buf, pos);
    ReadDateAt(buf, pos + 1, cell.day);
  }

  lemma ReadNumCellAt(buf: seq<byte>, pos: nat, cell: Cell, ty: ColType)
    requires cell.Num?
    requires ValidCell(cell) && EncodeCell(cell, ty).Ok?
    requires At(buf, pos, EncodeCell(cell, ty).value)
    ensures ReadCell(buf, pos, ty) == Ok((cell, pos + |EncodeCell(cell, ty).value|))
  {
    hide At;
    hide BigEndian;
    hide Shortest;
    hide ReadNumeric;
    hide ReadLenBytes;
    hide ReadU8;
    AtSplit(buf, pos, LenBytes(Shortest(cell.minor)).value, BigEndian(2, 4));
    ReadLenBytesAt(buf, pos, Shortest(cell.minor));
    ReadNumericAt(buf, pos, cell.minor);
  }

  /**
   Round trip: whatever is written for a cell is read back as that cell, wherever
   it stands, and the reader stops right behind it.
   */
  lemma ReadCellAt(buf: seq<byte>, pos: nat, cell: Cell, ty: ColType)
    requires ValidCell(cell) && EncodeCell(cell, ty).Ok?
    requires At(buf, pos, EncodeCell(cell, ty).value)
    ensures ReadCell(buf, pos, ty) == Ok((cell, pos + |EncodeCell(cell, ty).value|))
  {
    match cell
    case Null =>
    case Int(_) => ReadIntCellAt(buf, pos, cell, ty);
    case Str(_) => ReadStrCellAt(buf, pos, cell, ty);
    case DateCell(_) => ReadDateCellAt(buf, pos, cell, ty);
    case Num(_) => ReadNumCellAt(buf, pos, cell, ty);
  }
}
