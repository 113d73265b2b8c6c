/**
 Big-endian two's-complement integers: the fixed-width integers of the file
 format, and the variable-width payload of a NUMERIC column.
 */
module BigInteger {
  import opened Wrappers
  import opened Numbers

  datatype DecodeError = InvalidBigInteger | NumericOverflow

  // ----- the meaning of a byte string

  /** The top byte of a two's-complement number, read with its sign. */
  function SignedByte(b: byte): int {
    if b >= 0x80 then b - 0x100 else b
  }

  /** The number a big-endian two's-complement byte string stands for. */
  function Signed(bs: seq<byte>): int
    requires bs != []
  {
    if |bs| == 1 then SignedByte(bs[0]) else Signed(bs[..|bs| - 1]) * 0x100 + bs[|bs| - 1]
  }

  /** The low `n` bytes of `v`, most significant first (`to_be_bytes`). */
  function BigEndian(v: int, n: nat): (bs: seq<byte>)
    requires n > 0
    ensures |bs| == n
    decreases n
  {
    if n == 1 then [v % 0x100] else BigEndian(v / 0x100, n - 1) + [v % 0x100]
  }

  /** One past the largest number that `n` bytes can hold. */
  function Half(n: nat): (h: int)
    requires n > 0
    ensures h > 0
  {
    if n == 1 then 0x80 else 0x100 * Half(n - 1)
  }

  /** Whether the first byte only repeats the sign of the second. */
  predicate Redundant(bs: seq<byte>) {
    |bs| >= 2 && ((bs[0] == 0 && bs[1] < 0x80) || (bs[0] == 0xff && bs[1] >= 0x80))
  }

  lemma HalfOfWords()
    ensures Half(4) == -I32_MIN == I32_MAX + 1
    ensures Half(8) == -I64_MIN == I64_MAX + 1
  {
    assert Half(2) == 0x8000 && Half(3) == 0x80_0000 && Half(4) == 0x8000_0000;
    assert Half(6) == 0x8000_0000_0000 && Half(7) == 0x80_0000_0000_0000;
  }

  lemma {:induction false} HalfMonotone(m: nat, n: nat)
    requires 0 < m <= n
    ensures Half(m) <= Half(n)
  {
    if m < n {
      HalfMonotone(m, n - 1);
    }
  }

  lemma {:induction false} SignedRange(bs: seq<byte>)
    requires bs != []
    ensures -Half(|bs|) <= Signed(bs) < Half(|bs|)
  {
    if |bs| > 1 {
      SignedRange(bs[..|bs| - 1]);
    }
  }

  /** Every number that fits `n` bytes is read back from its `n`-byte form. */
  lemma {:induction false} BigEndianSigned(v: int, n: nat)
    requires n > 0 && -Half(n) <= v < Half(n)
    ensures Signed(BigEndian(v, n)) == v
    decreases n
  {
    if n > 1 {
      BigEndianSigned(v / 0x100, n - 1);
      var bs := BigEndian(v, n);
      assert bs[..n - 1] == BigEndian(v / 0x100, n - 1);
    }
  }

  /** Among byte strings of one length, a number has one representation. */
  lemma {:induction false} SignedInjective(a: seq<byte>, b: seq<byte>)
    requires |a| == |b| > 0 && Signed(a) == Signed(b)
    ensures a == b
  {
    var n := |a| - 1;
    if n > 0 {
      SignedInjective(a[..n], b[..n]);
      assert a == a[..n] + [a[n]] && b == b[..n] + [b[n]];
    }
  }

  lemma {:induction false} DropRedundant(bs: seq<byte>)
    requires Redundant(bs)
    ensures Signed(bs) == Signed(bs[1..])
  {
    var n := |bs| - 1;
    if n > 1 {
      DropRedundant(bs[..n]);
      assert bs[1..][..n - 1] == bs[..n][1..];
    } else {
      assert bs[..1] == [bs[0]] && bs[1..] == [bs[1]];
    }
  }

  /** A byte string without a redundant byte does not fit one byte less. */
  lemma {:induction false} EssentialRange(bs: seq<byte>)
    requires |bs| >= 2 && !Redundant(bs)
    ensures Signed(bs) >= Half(|bs| - 1) || Signed(bs) < -Half(|bs| - 1)
  {
    var n := |bs| - 1;
    if n > 1 {
      EssentialRange(bs[..n]);
    } else {
      assert bs[..1] == [bs[0]];
    }
  }

  // ----- decoding

  /** What decoding a NUMERIC payload must give, by the meaning of its bytes. */
  function DecodeSpec(bytes: seq<byte>): Result<int, DecodeError> {
    if bytes == [] then Err(InvalidBigInteger)
    else if IsI64(Signed(bytes)) then Ok(Signed(bytes))
    else Err(NumericOverflow)
  }

  /** Sign-extends a short payload to the eight bytes of an `i64`. */
  lemma {:induction false} SignExtend(bs: seq<byte>, fill: byte, n: nat)
    requires bs != [] && fill == (if bs[0] >= 0x80 then 0xff else 0)
    ensures Signed(seq(n, _ => fill) + bs) == Signed(bs)
    decreases n
  {
    var out := seq(n, _ => fill) + bs;
    if n > 0 {
      DropRedundant(out);
      assert out[1..] == seq(n - 1, _ => fill) + bs;
      SignExtend(bs, fill, n - 1);
    } else {
      assert out == bs;
    }
  }

  lemma LongEssentialOverflows(bs: seq<byte>)
    requires |bs| > 8 && !Redundant(bs)
    ensures !IsI64(Signed(bs))
  {
    EssentialRange(bs);
    HalfMonotone(8, |bs| - 1);
    HalfOfWords();
  }

  method DecodeBigInteger(bytes: seq<byte>) returns (r: Result<int, DecodeError>)
    ensures r.Ok? <==> bytes != [] && IsI64(Signed(bytes))
    ensures r.Ok? ==> r.value == Signed(bytes)
    ensures r == DecodeSpec(bytes)
  {
    if bytes == [] {
      return Err(InvalidBigInteger);
    }
    var negative := bytes[0] >= 0x80;
    var fill: byte := if negative then 0xff else 0x00;
    var start := 0;
    while |bytes| - start > 8
      invariant 0 <= start < |bytes|
      invariant (bytes[start] >= 0x80) == negative
      invariant Signed(bytes[start..]) == Signed(bytes)
    {
      var nextSignMatches := (bytes[start + 1] >= 0x80) == negative;
      if bytes[start] != fill || !nextSignMatches {
        LongEssentialOverflows(bytes[start..]);
        return Err(NumericOverflow);
      }
      DropRedundant(bytes[start..]);
      assert bytes[start..][1..] == bytes[start + 1..];
      start := start + 1;
    }
    var payload := bytes[start..];
    var out := seq(8 - |payload|, _ => fill) + payload;
    SignExtend(payload, fill, 8 - |payload|);
    SignedRange(out);
    HalfOfWords();
    r := Ok(Signed(out));
  }

  // ----- encoding

  /** Drops redundant leading bytes. */
  function Trim(bs: seq<byte>): (t: seq<byte>)
    requires bs != []
    ensures t != [] && !Redundant(t) && |t| <= |bs| && Signed(t) == Signed(bs)
  {
    if Redundant(bs) then
      DropRedundant(bs);
      Trim(bs[1..])
    else
      bs
  }

  /** The shortest two's-complement form of an `i64`. */
  function Shortest(v: i64): (bs: seq<byte>)
    ensures 0 < |bs| <= 8 && !Redundant(bs) && Signed(bs) == v
  {
    HalfOfWords();
    assert IsI64(v);
    BigEndianSigned(v, 8);
    Trim(BigEndian(v, 8))
  }

  method EncodeBigInteger(value: i64) returns (bytes: seq<byte>)
    ensures bytes == Shortest(value)
  {
    bytes := BigEndian(value, 8);
    while |bytes| > 1
      invariant bytes != []
      invariant Trim(bytes) == Shortest(value)
    {
      var redundantPositive := bytes[0] == 0 && bytes[1] < 0x80;
      var redundantNegative := bytes[0] == 0xff && bytes[1] >= 0x80;
      if redundantPositive || redundantNegative {
        bytes := bytes[1..];
      } else {
        break;
      }
    }
  }

  /**
   `Shortest` is the one shortest representation: every other byte string with
   the same value is longer.
   */
  lemma ShortestIsUnique(v: i64, bs: seq<byte>)
    requires bs != [] && Signed(bs) == v
    ensures |Shortest(v)| <= |bs|
    ensures |bs| == |Shortest(v)| ==> bs == Shortest(v)
    ensures DecodeSpec(Shortest(v)) == Ok(v)
  {
    var s := Shortest(v);
    if |bs| < |s| {
      EssentialRange(s);
      SignedRange(bs);
      HalfMonotone(|bs|, |s| - 1);
    } else if |bs| == |s| {
      SignedInjective(s, bs);
    }
  }
}
