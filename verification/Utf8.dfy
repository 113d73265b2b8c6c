/** Well-formed UTF-8 is what encoding Unicode scalar values gives (section 3 of RFC 3629). */
module Utf8 {
  import opened Numbers
  import opened Cells
  import opened AmountText

  predicate Scalar(c: nat) {
    c < 0x110000 && !(0xd800 <= c < 0xe000)
  }

  function EncodeScalar(c: nat): (bs: seq<byte>)
    requires Scalar(c)
    ensures 1 <= |bs| <= 4
  {
    if c < 0x80 then [c]
    else if c < 0x800 then [0xc0 + c / 64, 0x80 + c % 64]
    else if c < 0x10000 then [0xe0 + c / 4096, 0x80 + c / 64 % 64, 0x80 + c % 64]
    else [0xf0 + c / 262144, 0x80 + c / 4096 % 64, 0x80 + c / 64 % 64, 0x80 + c % 64]
  }

  predicate AllScalars(cs: seq<nat>) {
    forall i :: 0 <= i < |cs| ==> Scalar(cs[i])
  }

  function EncodeScalars(cs: seq<nat>): seq<byte>
    requires AllScalars(cs)
  {
    if cs == [] then [] else EncodeScalar(cs[0]) + EncodeScalars(cs[1..])
  }

  lemma StartsTwo(a: nat, b: nat, rest: seq<byte>)
    requires 2 <= a < 32 && b < 64
    ensures FirstScalar([0xc0 + a, 0x80 + b] + rest) == 2
  {
  }

  lemma StartsThree(a: nat, b: nat, d: nat, rest: seq<byte>)
    requires a < 16 && b < 64 && d < 64 && (a == 0 ==> b >= 32) && (a == 13 ==> b < 32)
    ensures FirstScalar([0xe0 + a, 0x80 + b, 0x80 + d] + rest) == 3
  {
  }

  lemma StartsFour(a: nat, b: nat, d: nat, e: nat, rest: seq<byte>)
    requires a < 5 && b < 64 && d < 64 && e < 64 && (a == 0 ==> b >= 16) && (a == 4 ==> b < 16)
    ensures FirstScalar([0xf0 + a, 0x80 + b, 0x80 + d, 0x80 + e] + rest) == 4
  {
  }

  lemma ScalarStarts(c: nat, rest: seq<byte>)
    requires Scalar(c)
    ensures FirstScalar(EncodeScalar(c) + rest) == |EncodeScalar(c)|
  {
    if c < 0x80 {
      assert ([c] + rest)[0] == c;
    } else {
      hide FirstScalar;
      Nested64(c);
      if c < 0x800 {
        StartsTwo(c / 64, c % 64, rest);
      } else if c < 0x10000 {
        assert c / 64 == c / 64 / 64 * 64 + c / 64 % 64;
        StartsThree(c / 4096, c / 64 % 64, c % 64, rest);
      } else {
        assert c / 4096 == c / 262144 * 64 + c / 4096 % 64;
        StartsFour(c / 262144, c / 4096 % 64, c / 64 % 64, c % 64, rest);
      }
    }
  }

  lemma Base64(a: nat, b: nat)
    requires b < 64
    ensures (a * 64 + b) / 64 == a && (a * 64 + b) % 64 == b
  {
  }

  lemma Nested64(c: nat)
    ensures c / 4096 == c / 64 / 64 && c / 262144 == c / 64 / 64 / 64
  {
  }

  /** Two bytes, from the digits of their scalar value. */
  lemma TwoBytes(a: nat, b: nat)
    requires 2 <= a < 32 && b < 64
    ensures Scalar(a * 64 + b) && EncodeScalar(a * 64 + b) == [0xc0 + a, 0x80 + b]
  {
    Base64(a, b);
  }

  lemma ThreeBytes(a: nat, b: nat, d: nat)
    requires a < 16 && b < 64 && d < 64 && (a == 0 ==> b >= 32) && (a == 13 ==> b < 32)
    ensures
      var c := (a * 64 + b) * 64 + d;
      Scalar(c) && EncodeScalar(c) == [0xe0 + a, 0x80 + b, 0x80 + d]
  {
    Base64(a, b);
    Base64(a * 64 + b, d);
    Nested64((a * 64 + b) * 64 + d);
  }

  lemma FourBytes(a: nat, b: nat, d: nat, e: nat)
    requires a < 5 && b < 64 && d < 64 && e < 64 && (a == 0 ==> b >= 16) && (a == 4 ==> b < 16)
    ensures
      var c := ((a * 64 + b) * 64 + d) * 64 + e;
      Scalar(c) && EncodeScalar(c) == [0xf0 + a, 0x80 + b, 0x80 + d, 0x80 + e]
  {
    Base64(a, b);
    Base64(a * 64 + b, d);
    Base64((a * 64 + b) * 64 + d, e);
    Nested64(((a * 64 + b) * 64 + d) * 64 + e);
  }

  /** The scalar value at the start of well-formed bytes. */
  lemma ScalarAt(bs: seq<byte>) returns (c: nat)
    requires FirstScalar(bs) > 0
    ensures Scalar(c) && EncodeScalar(c) == bs[..FirstScalar(bs)]
  {
    var n := FirstScalar(bs);
    if n == 1 {
      c := bs[0];
    } else if n == 2 {
      hide EncodeScalar;
      hide Scalar;
      var a: nat, b: nat := bs[0] - 0xc0, bs[1] - 0x80;
      c := a * 64 + b;
      TwoBytes(a, b);
    } else if n == 3 {
      hide EncodeScalar;
      hide Scalar;
      var a: nat, b: nat, d: nat := bs[0] - 0xe0, bs[1] - 0x80, bs[2] - 0x80;
      c := (a * 64 + b) * 64 + d;
      ThreeBytes(a, b, d);
    } else {
      hide EncodeScalar;
      hide Scalar;
      var a: nat, b: nat, d: nat, e: nat := bs[0] - 0xf0, bs[1] - 0x80, bs[2] - 0x80, bs[3] - 0x80;
      c := ((a * 64 + b) * 64 + d) * 64 + e;
      FourBytes(a, b, d, e);
    }
  }

  lemma EncodeCons(c: nat, more: seq<nat>)
    requires Scalar(c) && AllScalars(more)
    ensures AllScalars([c] + more) && EncodeScalars([c] + more) == EncodeScalar(c) + EncodeScalars(more)
  {
    hide Scalar;
    assert ([c] + more)[1..] == more;
  }

  lemma ValidBehind(bs: seq<byte>, n: nat)
    requires bs != [] && n == FirstScalar(bs)
    ensures ValidUtf8(bs) <==> n > 0 && ValidUtf8(bs[n..])
    ensures n <= |bs| && bs == bs[..n] + bs[n..]
  {
  }

  lemma {:induction false} ScalarsValid(cs: seq<nat>)
    requires AllScalars(cs)
    ensures ValidUtf8(EncodeScalars(cs))
  {
    if cs != [] {
      hide FirstScalar;
      hide EncodeScalar;
      hide ValidUtf8;
      hide Scalar;
      var rest := EncodeScalars(cs[1..]);
      var bs := EncodeScalar(cs[0]) + rest;
      ScalarsValid(cs[1..]);
      ScalarStarts(cs[0], rest);
      ValidBehind(bs, |EncodeScalar(cs[0])|);
      assert bs[|EncodeScalar(cs[0])|..] == rest;
    }
  }

  lemma {:induction false} ValidScalars(bs: seq<byte>) returns (cs: seq<nat>)
    requires ValidUtf8(bs)
    ensures AllScalars(cs) && EncodeScalars(cs) == bs
    decreases |bs|
  {
    cs := [];
    if bs != [] {
      hide FirstScalar;
      hide EncodeScalar;
      hide EncodeScalars;
      hide ValidUtf8;
      hide Scalar;
      hide AllScalars;
      var n := FirstScalar(bs);
      ValidBehind(bs, n);
      var c := ScalarAt(bs);
      var more := ValidScalars(bs[n..]);
      cs := [c] + more;
      EncodeCons(c, more);
    }
  }

  /** Bytes are valid exactly when they encode scalar values. */
  lemma ValidUtf8Exact(bs: seq<byte>)
    ensures ValidUtf8(bs) <==> exists cs: seq<nat> :: AllScalars(cs) && EncodeScalars(cs) == bs
  {
    if ValidUtf8(bs) {
      var cs := ValidScalars(bs);
    }
    if cs: seq<nat> :| AllScalars(cs) && EncodeScalars(cs) == bs {
      ScalarsValid(cs);
    }
  }

  /** The scalar values of a text. */
  function ScalarsOf(s: string): (cs: seq<nat>)
    ensures |cs| == |s| && AllScalars(cs)
  {
    seq(|s|, i requires 0 <= i < |s| => s[i] as nat)
  }

  lemma {:induction false} EncodedSnoc(cs: seq<nat>, c: nat)
    requires AllScalars(cs) && Scalar(c)
    ensures AllScalars(cs + [c]) && EncodeScalars(cs + [c]) == EncodeScalars(cs) + EncodeScalar(c)
    decreases |cs|
  {
    hide EncodeScalar;
    hide Scalar;
    if cs == [] {
      assert cs + [c] == [c] + [];
      EncodeCons(c, []);
    } else {
      assert (cs + [c])[1..] == cs[1..] + [c];
      EncodedSnoc(cs[1..], c);
    }
  }

  /** The byte length that amounts are measured by is the length of the text in UTF-8. */
  lemma {:induction false} ByteLengthIsUtf8(s: string)
    ensures ByteLength(s) == |EncodeScalars(ScalarsOf(s))|
  {
    if s != "" {
      var n := |s| - 1;
      ByteLengthIsUtf8(s[..n]);
      assert ScalarsOf(s) == ScalarsOf(s[..n]) + [s[n] as nat];
      EncodedSnoc(ScalarsOf(s[..n]), s[n] as nat);
      hide EncodeScalars;
    }
  }
}
