/** pkg/endian/binary/endian.go: big-endian two's complement. A shift to the right by 8 bits is
    a floor division by 256, and the bytes that the decoder joins with | occupy disjoint bits. */
module Endian {
  import opened Basics

  function Byte(x: int): byte { x % 256 }

  function PutInt16(v: int16): (b: seq<byte>)
    ensures |b| == 2
  {
    [Byte(v / 0x100), Byte(v)]
  }

  function Int16(b: seq<byte>): int16
    requires |b| >= 2
  {
    ToInt16(b[0] as int * 0x100 + b[1])
  }

  function PutInt32(v: int32): (b: seq<byte>)
    ensures |b| == 4
  {
    [Byte(v / 0x100_0000), Byte(v / 0x1_0000), Byte(v / 0x100), Byte(v)]
  }

  function Int32(b: seq<byte>): int32
    requires |b| >= 4
  {
    ToInt32(b[0] as int * 0x100_0000 + b[1] as int * 0x1_0000 + b[2] as int * 0x100 + b[3])
  }

  /** The conversions keep the low bits. */
  lemma LowBitsStay(x: int)
    ensures (ToInt16(x) - x) % 0x1_0000 == 0 && (ToInt32(x) - x) % 0x1_0000_0000 == 0
  {
  }

  /** The most significant byte comes first, and negative numbers are in two's complement. */
  lemma Int16Layout(v: int16)
    ensures var b := PutInt16(v);
      b[0] as int * 0x100 + b[1] as int == if v >= 0 then v else v + 0x1_0000
  {
    var u := v / 0x100;
    assert v == 0x100 * u + Byte(v);
    assert u == Byte(u) || u == Byte(u) - 0x100;
  }

  lemma Int32Layout(v: int32)
    ensures var b := PutInt32(v);
      b[0] as int * 0x100_0000 + b[1] as int * 0x1_0000 + b[2] as int * 0x100 + b[3] as int
      == if v >= 0 then v else v + 0x1_0000_0000
  {
    var u1, u2, u3 := v / 0x100, v / 0x1_0000, v / 0x100_0000;
    assert v == 0x100 * u1 + Byte(v);
    assert u1 == 0x100 * u2 + Byte(u1);
    assert u2 == 0x100 * u3 + Byte(u2);
    assert u3 == Byte(u3) || u3 == Byte(u3) - 0x100;
  }

  lemma Int16RoundTrip(v: int16)
    ensures Int16(PutInt16(v)) == v
  {
    var u := v / 0x100;
    assert v == 0x100 * u + Byte(v);
    assert u == Byte(u) || u == Byte(u) - 0x100;
  }

  lemma Int32RoundTrip(v: int32)
    ensures Int32(PutInt32(v)) == v
  {
    hide PutInt32;
    Int32Layout(v);
    var b := PutInt32(v);
    assert v < 0 ==> ToInt32(v + 0x1_0000_0000) == v;
    assert v >= 0 ==> ToInt32(v) == v;
  }

  /** Every four bytes are the encoding of the number they decode to. */
  lemma Int32Onto(b: seq<byte>)
    requires |b| == 4
    ensures PutInt32(Int32(b)) == b
  {
    var high := if b[0] < 0x80 then b[0] as int else b[0] as int - 0x100;
    Parts(high, b[1], b[2], b[3]);
    assert Byte(high) == b[0];
    assert Int32(b) == ((high * 0x100 + b[1]) * 0x100 + b[2]) * 0x100 + b[3];
  }

  lemma Int16Onto(b: seq<byte>)
    requires |b| == 2
    ensures PutInt16(Int16(b)) == b
  {
    var high := if b[0] < 0x80 then b[0] as int else b[0] as int - 0x100;
    var v := high * 0x100 + b[1];
    assert Int16(b) == v && v / 0x100 == high && Byte(v) == b[1] && Byte(high) == b[0];
  }

  lemma Parts(b0: int, b1: byte, b2: byte, b3: byte)
    ensures var v := ((b0 * 0x100 + b1) * 0x100 + b2) * 0x100 + b3;
      && v / 0x100_0000 == b0 && Byte(v / 0x1_0000) == b1 && Byte(v / 0x100) == b2 && Byte(v) == b3
  {
    var u2 := b0 * 0x100 + b1;
    var u1 := u2 * 0x100 + b2;
    var v := u1 * 0x100 + b3;
    assert v / 0x100 == u1 && u1 / 0x100 == u2 && u2 / 0x100 == b0;
    assert v / 0x1_0000 == u2 && v / 0x100_0000 == b0;
  }

  /** PutInt16 and PutInt32 as the code performs them, in place. */
  method StoreInt16(b: array<byte>, at: nat, v: int16)
    requires at + 2 <= b.Length
    modifies b
    ensures b[..] == old(b[..at]) + PutInt16(v) + old(b[at + 2..])
  {
    b[at], b[at + 1] := Byte(v / 0x100), Byte(v);
  }

  method StoreInt32(b: array<byte>, at: nat, v: int32)
    requires at + 4 <= b.Length
    modifies b
    ensures b[..] == old(b[..at]) + PutInt32(v) + old(b[at + 4..])
  {
    b[at], b[at + 1], b[at + 2], b[at + 3] := Byte(v / 0x100_0000), Byte(v / 0x1_0000), Byte(v / 0x100), Byte(v);
  }
}
