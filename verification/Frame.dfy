/** pkg/websocket/conn.go: frames of RFC 6455. */
module Frames {
  import opened Basics
  import opened Bits
  import opened Streams
  import opened Readers
  import opened Writers

  const FIN_BIT := 0x80
  const RSV_BITS := 0x70
  const OP_BITS := 0x0f
  const MASK_BIT := 0x80
  const LEN_BITS := 0x7f

  /** An unsigned number in k bytes, most significant first. */
  function Big(n: nat, k: nat): (b: seq<byte>)
    ensures |b| == k
  {
    if k == 0 then [] else Big(n / 256, k - 1) + [n % 256]
  }

  function BigOf(b: seq<byte>): nat {
    if b == [] then 0 else BigOf(b[..|b| - 1]) * 256 + b[|b| - 1]
  }

  lemma {:induction false} BigRoundTrip(n: nat, k: nat)
    requires n < Pow2(8 * k)
    ensures BigOf(Big(n, k)) == n
  {
    if k != 0 {
      Pow2Eight(k - 1);
      BigRoundTrip(n / 256, k - 1);
      assert Big(n, k)[..k - 1] == Big(n / 256, k - 1);
    }
  }

  /** The most significant byte comes first. */
  lemma {:induction false} BigDigit(n: nat, k: nat, i: nat)
    requires i < k
    ensures Big(n, k)[i] == n / Pow2(8 * (k - 1 - i)) % 256
  {
    if i < k - 1 {
      BigDigit(n / 256, k - 1, i);
      var j := k - 2 - i;
      Pow2Eight(j);
      assert 8 * (k - 1 - i) == 8 * (j + 1);
      DivideBy256(n, Pow2(8 * j));
    } else {
      assert Pow2(8 * (k - 1 - i)) == 1;
    }
  }

  lemma DivideBy256(n: nat, p: nat)
    requires 0 < p
    ensures n / 256 / p == n / (256 * p)
  {
    var h := n / 256;
    var q := h / p;
    assert h == q * p + h % p;
    assert n == q * (256 * p) + (n % 256 + 256 * (h % p));
    ModUnique(n, 256 * p, q, n % 256 + 256 * (h % p));
  }

  /** Conversion of a uint64 to int64. */
  function ToInt64(x: nat): int {
    if x % TWO64 < TWO63 then x % TWO64 else x % TWO64 - TWO64
  }

  /** The masking of section 5.3 of RFC 6455, from position pos of the key on. */
  function XorByte(a: byte, b: byte): byte {
    assert Pow2(8) == 256;
    XorBound(a, b, 8);
    Xor(a, b)
  }

  function Masked(key: Key, pos: nat, s: seq<byte>): (r: seq<byte>)
    ensures |r| == |s|
  {
    seq(|s|, i requires 0 <= i < |s| => XorByte(s[i], key[(pos + i) % 4]))
  }

  method MaskBytes(key: Key, pos: nat, b: array<byte>) returns (end: nat)
    modifies b
    ensures b[..] == Masked(key, pos, old(b[..])) && end == (pos + b.Length) % 4
  {
    end := pos;
    for i := 0 to b.Length
      invariant end == pos + i
      invariant forall j :: 0 <= j < i ==> b[j] == XorByte(old(b[j]), key[(pos + j) % 4])
      invariant forall j :: i <= j < b.Length ==> b[j] == old(b[j])
    {
      b[i] := XorByte(b[i], key[end % 4]);
      end := end + 1;
    }
    end := end % 4;
  }

  /** Byte i is masked with byte (pos + i) mod 4 of the key: exactly the bits set there are flipped. */
  lemma MaskedBits(key: Key, pos: nat, s: seq<byte>, i: nat, k: nat)
    requires i < |s|
    ensures Bit(Masked(key, pos, s)[i], k) == if Bit(s[i], k) != Bit(key[(pos + i) % 4], k) then 1 else 0
  {
    hide Xor, Bit;
    XorBit(s[i], key[(pos + i) % 4], k);
  }

  /** Masking twice restores the bytes. */
  lemma MaskTwice(key: Key, pos: nat, s: seq<byte>)
    ensures Masked(key, pos, Masked(key, pos, s)) == s
  {
    forall i | 0 <= i < |s|
      ensures Masked(key, pos, Masked(key, pos, s))[i] == s[i]
    {
      XorTwice(s[i], key[(pos + i) % 4]);
    }
  }

  /** Masking in two pieces, the second from the position that the first returned, is masking the whole. */
  lemma MaskInPieces(key: Key, pos: nat, s: seq<byte>, t: seq<byte>)
    ensures Masked(key, pos, s) + Masked(key, (pos + |s|) % 4, t) == Masked(key, pos, s + t)
  {
    var q, r := Masked(key, (pos + |s|) % 4, t), Masked(key, pos, s + t);
    forall i | 0 <= i < |t|
      ensures q[i] == r[|s| + i]
    {
      AddMod4(pos + |s|, i);
    }
  }

  lemma AddMod4(a: nat, i: nat)
    ensures (a % 4 + i) % 4 == (a + i) % 4
  {
  }

  type Opcode = n: nat | n < 16

  type Key = k: seq<byte> | |k| == 4 witness [0, 0, 0, 0]

  datatype Frame = Frame(fin: bool, op: Opcode, key: Option<Key>, payload: seq<byte>)

  /** The payload length as WriteHeader encodes it, in the byte that also holds the mask bit. */
  function Length(n: nat, mask: nat): seq<byte>
    requires mask == 0 || mask == MASK_BIT
  {
    if n <= 125 then [n + mask]
    else if n < 65536 then [126 + mask] + Big(n, 2)
    else [127 + mask] + Big(n, 8)
  }

  /** Section 5.2 of RFC 6455. */
  function FrameBytes(f: Frame): seq<byte> {
    [(if f.fin then FIN_BIT else 0) + f.op]
    + match f.key
      case None => Length(|f.payload|, 0) + f.payload
      case Some(key) => Length(|f.payload|, MASK_BIT) + key + Masked(key, 0, f.payload)
  }

  datatype FrameError = Stream(e: Error) | Reserved

  datatype Parsed = Got(fin: bool, op: nat, payload: seq<byte>, rest: seq<byte>) | BadReserved | Cut

  /** The payload part of a frame. */
  function ParsePayload(fin: bool, op: nat, n: int, key: Option<Key>, s: seq<byte>, size: nat): Parsed
  {
    if n <= 0 then Got(fin, op, [], s)
    else if n > size || n > |s| then Cut
    else Got(fin, op, if key.Some? then Masked(key.value, 0, s[..n]) else s[..n], s[n..])
  }

  function ParseKey(fin: bool, op: nat, n: int, mask: bool, s: seq<byte>, size: nat): Parsed {
    if !mask then ParsePayload(fin, op, n, None, s, size)
    else if size < 4 || |s| < 4 then Cut
    else ParsePayload(fin, op, n, Some(s[..4]), s[4..], size)
  }

  function ParseFrame(s: seq<byte>, size: nat): Parsed {
    if |s| < 1 then Cut
    else if And(s[0], RSV_BITS) != 0 then BadReserved
    else if |s| < 2 then Cut
    else
      var fin, op, mask := And(s[0], FIN_BIT) != 0, And(s[0], OP_BITS), And(s[1], MASK_BIT) != 0;
      var rest := s[2..];
      match And(s[1], LEN_BITS)
      case 126 => if size < 2 || |rest| < 2 then Cut else ParseKey(fin, op, BigOf(rest[..2]), mask, rest[2..], size)
      case 127 =>
        if size < 8 || |rest| < 8 then Cut else ParseKey(fin, op, ToInt64(BigOf(rest[..8])), mask, rest[8..], size)
      case n => ParseKey(fin, op, n, mask, rest, size)
  }

  method ReadFrame(rd: Reader) returns (fin: bool, op: nat, payload: seq<byte>, e: Option<FrameError>)
    requires rd.Valid()
    modifies rd, rd.buf, rd.rd
    ensures rd.Valid()
    ensures match ParseFrame(old(rd.reliable), rd.buf.Length)
      case Got(f, o, p, rest) => e.None? && fin == f && op == o && payload == p && rd.reliable == rest
      case BadReserved => e == Some(Reserved)
      case Cut => e == Some(Stream(old(rd.trouble))) || e == Some(Stream(BufferFull))
  {
    hide And, BigOf, Masked, ToInt64;
    fin, op, payload := false, 0, [];
    var b, err := rd.ReadByte();
    if err.Some? {
      return fin, op, payload, Some(Stream(err.value));
    }
    fin := And(b, FIN_BIT) != 0;
    if And(b, RSV_BITS) != 0 {
      return false, 0, [], Some(Reserved);
    }
    op := And(b, OP_BITS);
    b, err := rd.ReadByte();
    if err.Some? {
      return fin, op, payload, Some(Stream(err.value));
    }
    var mask := And(b, MASK_BIT) != 0;
    var n: int;
    var p;
    match And(b, LEN_BITS) {
      case 126 =>
        p, err := rd.Pop(2);
        if err.Some? {
          return fin, op, payload, Some(Stream(err.value));
        }
        n := BigOf(p);
      case 127 =>
        p, err := rd.Pop(8);
        if err.Some? {
          return fin, op, payload, Some(Stream(err.value));
        }
        n := ToInt64(BigOf(p));
      case len =>
        n := len;
    }
    payload, err := ReadPayload(rd, n, mask, fin, op);
    e := if err.Some? then Some(Stream(err.value)) else None;
  }

  /** The end of readFrame: the masking key, if any, and the payload. */
  method ReadPayload(rd: Reader, n: int, mask: bool, ghost fin: bool, ghost op: nat)
    returns (payload: seq<byte>, e: Option<Error>)
    requires rd.Valid()
    modifies rd, rd.buf, rd.rd
    ensures rd.Valid()
    ensures match ParseKey(fin, op, n, mask, old(rd.reliable), rd.buf.Length)
      case Got(f, o, p, rest) => f == fin && o == op && e.None? && payload == p && rd.reliable == rest
      case BadReserved => false
      case Cut => e == Some(old(rd.trouble)) || e == Some(BufferFull)
  {
    hide Masked;
    payload := [];
    var key, err := [], None;
    if mask {
      key, err := rd.Pop(4);
      if err.Some? {
        return [], err;
      }
    }
    if n > 0 {
      payload, e := rd.Pop(n);
      if e.Some? {
        return;
      }
      if mask {
        var b := new byte[|payload|](i requires 0 <= i < |payload| => payload[i]);
        assert b[..] == payload;
        var _ := MaskBytes(key, 0, b);
        payload := b[..];
      }
    }
    e := None;
  }

  /** What WriteMessage sends: one final frame without a mask. */
  function MessageBytes(msgType: nat, msg: seq<byte>): seq<byte> {
    [Or(FIN_BIT, msgType % 256) % 256] + Length(|msg|, 0) + msg
  }

  /** A sink that takes everything, and a buffer for every header. */
  ghost predicate Steady(wr: Writer)
    reads wr, wr.wr
  {
    wr.err.None? && wr.wr.script == [] && 8 <= wr.buf.Length
  }

  method WriteHeader(wr: Writer, msgType: nat, length: nat) returns (e: Option<Error>)
    requires wr.Valid()
    modifies wr, wr.buf, wr.wr
    ensures wr.Valid()
    ensures Honest(old(wr.wr.script)) ==> Honest(wr.wr.script)
    ensures old(wr.err).None? ==> Reported(old(wr.wr.script), wr.wr.script, wr.err)
    ensures old(wr.err).Some? ==> e.Some? && unchanged(wr.wr)
    ensures 8 <= wr.buf.Length ==> e == wr.err
    ensures e.None? ==> wr.err.None?
    ensures old(Steady(wr)) ==> e.None? && Steady(wr)
    ensures e.None? ==> wr.taken == old(wr.taken) + [Or(FIN_BIT, msgType % 256) % 256] + Length(length, 0)
  {
    hide Or, Big, Honest, Reported, Writer.Valid;
    ghost var script := wr.wr.script;
    var b0 := Or(FIN_BIT, msgType % 256) % 256;
    if length <= 125 {
      e := WriteReserved(wr, [b0, length]);
      assert [b0, length] == [b0] + [length];
    } else if length < 65536 {
      e := WriteReserved(wr, [b0, 126]);
      if e.None? {
        ghost var mid := wr.wr.script;
        e := WriteReserved(wr, Big(length, 2));
        ReportedTwice(script, mid, wr.wr.script, wr.err);
      }
      assert [b0, 126] + Big(length, 2) == [b0] + ([126] + Big(length, 2));
    } else {
      e := WriteReserved(wr, [b0, 127]);
      if e.None? {
        ghost var mid := wr.wr.script;
        e := WriteReserved(wr, Big(length, 8));
        ReportedTwice(script, mid, wr.wr.script, wr.err);
      }
      assert [b0, 127] + Big(length, 8) == [b0] + ([127] + Big(length, 8));
    }
  }

  /** Reserves room with Peek, which may flush, and fills it. */
  method WriteReserved(wr: Writer, s: seq<byte>) returns (e: Option<Error>)
    requires wr.Valid()
    modifies wr, wr.buf, wr.wr
    ensures wr.Valid()
    ensures Honest(old(wr.wr.script)) ==> Honest(wr.wr.script)
    ensures old(wr.err).None? ==> Reported(old(wr.wr.script), wr.wr.script, wr.err)
    ensures old(wr.err).Some? ==> e.Some? && unchanged(wr.wr)
    ensures |s| <= wr.buf.Length ==> e == wr.err
    ensures old(Steady(wr)) && |s| <= 8 ==> e.None? && Steady(wr)
    ensures e.None? ==> wr.err.None? && wr.taken == old(wr.taken) + s
  {
    hide Honest, Reported;
    var at;
    at, e := wr.Peek(|s|);
    if e.None? {
      wr.Store(at, s);
    }
  }

  method WriteMessage(wr: Writer, msgType: nat, msg: seq<byte>) returns (e: Option<Error>)
    requires wr.Valid()
    modifies wr, wr.buf, wr.wr
    ensures wr.Valid()
    ensures Honest(old(wr.wr.script)) ==> Honest(wr.wr.script)
    ensures old(wr.err).None? ==> Reported(old(wr.wr.script), wr.wr.script, wr.err)
    ensures old(wr.err).Some? ==> e.Some? && unchanged(wr.wr)
    ensures 8 <= wr.buf.Length ==> e == wr.err
    ensures old(Steady(wr)) ==> e.None? && Steady(wr)
    ensures e.None? ==> wr.taken == old(wr.taken) + MessageBytes(msgType, msg)
  {
    hide Length, Or, Honest, Reported;
    ghost var script := wr.wr.script;
    ghost var before := wr.taken;
    e := WriteHeader(wr, msgType, |msg|);
    if e.Some? {
      return;
    }
    ghost var header := [Or(FIN_BIT, msgType % 256) % 256];
    if |msg| > 0 {
      var nn;
      ghost var mid := wr.wr.script;
      nn, e := wr.Write(msg);
      ReportedTwice(script, mid, wr.wr.script, wr.err);
      assert msg[..|msg|] == msg;
    }
    assert before + header + Length(|msg|, 0) + msg == before + (header + Length(|msg|, 0) + msg);
  }

  /** The fields of a byte, selected by masks. */
  lemma FieldsOf(b: byte)
    ensures And(b, OP_BITS) == b % 16 && And(b, LEN_BITS) == b % 128
    ensures And(b, FIN_BIT) != 0 <==> b >= 128
    ensures And(b, RSV_BITS) != 0 <==> b / 16 % 8 != 0
  {
    hide And;
    assert Pow2(4) == 16;
    assert Pow2(7) == 2 * Pow2(6) == 8 * Pow2(4);
    AndMask(b, 4);
    AndMask(b, 7);
    AndSixteen(b, 7);
    AndSixteen(b, 8);
    AndShift(b / 16, 4);
    AndShift(b / 32, 2);
    AndShift(b / 64, 1);
    AndMask(b / 128, 1);
    AndMask(b / 16, 3);
    assert Pow2(1) == 2 && Pow2(3) == 8;
  }

  lemma AndFour(a: nat, b: nat)
    ensures And(a, 4 * b) == 4 * And(a / 4, b)
  {
    hide And;
    AndShift(a, 2 * b);
    AndShift(a / 2, b);
    assert a / 2 / 2 == a / 4;
  }

  lemma AndSixteen(a: nat, b: nat)
    ensures And(a, 16 * b) == 16 * And(a / 16, b)
  {
    hide And;
    AndFour(a, 4 * b);
    AndFour(a / 4, b);
    assert a / 4 / 4 == a / 16;
  }

  /** The first bytes of a frame, up to the masking key. */
  lemma HeaderRoundTrip(b0: byte, n: nat, mask: nat, tail: seq<byte>, size: nat)
    requires b0 / 16 % 8 == 0 && n < TWO63 && (mask == 0 || mask == MASK_BIT)
    ensures ParseFrame([b0] + Length(n, mask) + tail, size) ==
      if (125 < n < 65536 && size < 2) || (65536 <= n && size < 8) then Cut
      else ParseKey(b0 >= 128, b0 % 16, n, mask == MASK_BIT, tail, size)
  {
    hide And, Big, BigOf, ParseKey;
    var s := [b0] + Length(n, mask) + tail;
    FieldsOf(b0);
    FieldsOf(s[1]);
    if n <= 125 {
      assert s[2..] == tail;
    } else if n < 65536 {
      assert s[2..] == Big(n, 2) + tail;
      BigReadsBack(n, 2, tail);
    } else {
      assert s[2..] == Big(n, 8) + tail;
      BigReadsBack(n, 8, tail);
    }
  }

  lemma BigReadsBack(n: nat, k: nat, tail: seq<byte>)
    requires (k == 2 && n < 65536) || (k == 8 && n < TWO63)
    ensures var s := Big(n, k) + tail; BigOf(s[..k]) == n && s[k..] == tail
  {
    hide Big, BigOf;
    PowersOfTwo();
    BigRoundTrip(n, k);
    var s := Big(n, k) + tail;
    assert s[..k] == Big(n, k) && s[k..] == tail;
  }

  /** A frame is read back, whichever length encoding it takes, exactly if the payload fits the reader's buffer. */
  lemma FrameRoundTrip(f: Frame, rest: seq<byte>, size: nat)
    requires |f.payload| < TWO63 && 4 <= size
    ensures ParseFrame(FrameBytes(f) + rest, size) == Got(f.fin, f.op, f.payload, rest) <==> |f.payload| <= size
  {
    hide FrameBytes, ParseFrame;
    if f.key.None? {
      PlainRoundTrip(f, rest, size);
    } else {
      MaskedRoundTrip(f, rest, size);
    }
  }

  lemma PlainRoundTrip(f: Frame, rest: seq<byte>, size: nat)
    requires |f.payload| < TWO63 && 4 <= size && f.key.None?
    ensures ParseFrame(FrameBytes(f) + rest, size) == Got(f.fin, f.op, f.payload, rest) <==> |f.payload| <= size
  {
    hide Length, ParseFrame, ParsePayload;
    var b0, n := (if f.fin then FIN_BIT else 0) + f.op, |f.payload|;
    assert FrameBytes(f) + rest == [b0] + Length(n, 0) + (f.payload + rest);
    FirstByte(f.fin, f.op);
    HeaderRoundTrip(b0, n, 0, f.payload + rest, size);
    PayloadRoundTrip(f, f.payload, rest, size);
  }

  lemma MaskedRoundTrip(f: Frame, rest: seq<byte>, size: nat)
    requires |f.payload| < TWO63 && 4 <= size && f.key.Some?
    ensures ParseFrame(FrameBytes(f) + rest, size) == Got(f.fin, f.op, f.payload, rest) <==> |f.payload| <= size
  {
    hide Length, ParseFrame, ParsePayload, Masked;
    var b0, n, key := (if f.fin then FIN_BIT else 0) + f.op, |f.payload|, f.key.value;
    var body := Masked(key, 0, f.payload);
    var tail := key + (body + rest);
    assert FrameBytes(f) + rest == [b0] + Length(n, MASK_BIT) + tail;
    FirstByte(f.fin, f.op);
    HeaderRoundTrip(b0, n, MASK_BIT, tail, size);
    assert tail[..4] == key && tail[4..] == body + rest;
    PayloadRoundTrip(f, body, rest, size);
  }

  lemma FirstByte(fin: bool, op: Opcode)
    ensures var b0 := (if fin then FIN_BIT else 0) + op; b0 / 16 % 8 == 0 && b0 % 16 == op && (b0 >= 128 <==> fin)
  {
  }

  lemma PayloadRoundTrip(f: Frame, body: seq<byte>, rest: seq<byte>, size: nat)
    requires body == if f.key.Some? then Masked(f.key.value, 0, f.payload) else f.payload
    ensures ParsePayload(f.fin, f.op, |body|, f.key, body + rest, size) == Got(f.fin, f.op, f.payload, rest)
      <==> |f.payload| <= size
  {
    hide Masked;
    assert (body + rest)[..|body|] == body && (body + rest)[|body|..] == rest;
    if f.key.Some? {
      MaskTwice(f.key.value, 0, f.payload);
    }
  }

  /** The three encodings of the payload length, most significant byte first. */
  lemma LengthLayout(n: nat, mask: nat)
    requires n < TWO63 && (mask == 0 || mask == 128)
    ensures var s := Length(n, mask);
      && |s| == (if n <= 125 then 1 else if n < 65536 then 3 else 9)
      && s[0] == mask + (if n <= 125 then n else if n < 65536 then 126 else 127)
      && (125 < n < 65536 ==> s[1] as int * 256 + s[2] as int == n)
      && (65536 <= n ==> forall i :: 1 <= i < 9 ==> s[i] == n / Pow2(8 * (8 - i)) % 256)
  {
    hide Big, Pow2;
    if 125 < n < 65536 {
      TwoDigits(n);
    } else if 65536 <= n {
      var s := Length(n, mask);
      forall i | 1 <= i < 9
        ensures s[i] == n / Pow2(8 * (8 - i)) % 256
      {
        BigDigit(n, 8, i - 1);
        assert s[i] == Big(n, 8)[i - 1];
      }
    }
  }

  lemma TwoDigits(n: nat)
    requires n < 65536
    ensures Big(n, 2)[0] as int * 256 + Big(n, 2)[1] as int == n
  {
    BigDigit(n, 2, 0);
    BigDigit(n, 2, 1);
    assert Pow2(8) == 256 && Pow2(0) == 1;
  }

  /** Section 5.2 of RFC 6455: the final bit and the opcode, the length with the mask bit, the key, the payload. */
  lemma FrameLayout(f: Frame)
    requires |f.payload| < TWO63
    ensures var s, n, mask := FrameBytes(f), |f.payload|, if f.key.Some? then 128 else 0;
      var at := if n <= 125 then 2 else if n < 65536 then 4 else 10;
      && at <= |s| && s[0] == (if f.fin then 128 else 0) + f.op && s[1..at] == Length(n, mask)
      && s[at..] == if f.key.Some? then f.key.value + Masked(f.key.value, 0, f.payload) else f.payload
  {
    hide Length, Masked;
    var len := Length(|f.payload|, if f.key.Some? then 128 else 0);
    LengthLayout(|f.payload|, if f.key.Some? then 128 else 0);
    var tail := if f.key.Some? then f.key.value + Masked(f.key.value, 0, f.payload) else f.payload;
    assert FrameBytes(f) == [(if f.fin then 128 else 0) + f.op] + len + tail;
  }

  /** A frame is refused for its reserved bits exactly if one of the three is set. */
  lemma ReservedBits(s: seq<byte>, size: nat)
    requires s != []
    ensures ParseFrame(s, size).BadReserved? <==> s[0] / 16 % 8 != 0
  {
    hide And, ParseKey;
    FieldsOf(s[0]);
    if |s| >= 2 {
      KeyIsNotReserved(And(s[0], FIN_BIT) != 0, And(s[0], OP_BITS), And(s[1], MASK_BIT) != 0, size);
    }
  }

  /** A length of 2^63 or more is negative as an int64: the frame is taken to be empty. */
  lemma HugeLengthIsEmpty(s: seq<byte>, size: nat)
    requires 10 <= |s| && 8 <= size && s[0] / 16 % 8 == 0 && s[1] == 127 && s[2] >= 128
    ensures ParseFrame(s, size) == Got(s[0] >= 128, s[0] % 16, [], s[10..])
  {
    hide And;
    FieldsOf(s[0]);
    FieldsOf(s[1]);
    var rest := s[2..];
    TopByte(rest[..8]);
    assert rest[8..] == s[10..];
  }

  /** The first byte decides the size of a number. */
  lemma {:induction false} FirstDigit(b: seq<byte>)
    requires b != []
    ensures var p, first: nat := Pow2(8 * (|b| - 1)), b[0]; first * p <= BigOf(b) < (first + 1) * p
  {
    var n := |b| - 1;
    if n == 0 {
      assert b[..0] == [];
    } else {
      FirstDigit(b[..n]);
      Pow2Eight(n - 1);
      Scaled(b[0], Pow2(8 * (n - 1)), BigOf(b[..n]), b[n]);
    }
  }

  lemma Scaled(first: nat, p: nat, x: nat, last: byte)
    requires first * p <= x < (first + 1) * p
    ensures first * (256 * p) <= x * 256 + last < (first + 1) * (256 * p)
  {
    assert first * (256 * p) == 256 * (first * p);
    assert (first + 1) * (256 * p) == 256 * ((first + 1) * p);
  }

  /** A number of eight bytes of which the first has its high bit set. */
  lemma TopByte(b: seq<byte>)
    requires |b| == 8 && b[0] >= 128
    ensures TWO63 <= BigOf(b) < TWO64 && ToInt64(BigOf(b)) < 0
  {
    hide BigOf, Pow2;
    FirstDigit(b);
    var p := Pow2(56);
    Pow2Eight(7);
    PowersOfTwo();
    assert TWO64 == 256 * p;
    var first: nat := b[0];
    assert 128 * p <= first * p && (first + 1) * p <= 256 * p;
  }

  lemma KeyIsNotReserved(fin: bool, op: nat, mask: bool, size: nat)
    ensures forall n: int, s: seq<byte> :: !ParseKey(fin, op, n, mask, s, size).BadReserved?
  {
  }

  /** What WriteMessage sends for an opcode is a final frame without a mask. */
  lemma MessageIsFrame(op: nat, msg: seq<byte>)
    requires op < 16
    ensures MessageBytes(op, msg) == FrameBytes(Frame(true, op, None, msg))
  {
    hide Or, Length;
    assert Pow2(4) == 16;
    assert Pow2(7) == 2 * Pow2(6) == 8 * Pow2(4);
    OrAbove(7, op);
  }

  const TEXT := 1
  const BINARY := 2
  const CLOSE := 8
  const PING := 9
  const PONG := 10
  const CONTINUATION := 0
  const MAX_READ := 100

  datatype Outcome =
    | Message(op: nat, payload: seq<byte>)
    | Closed
    | Unknown(op: nat)
    | TooMany
    | Waiting

  /** What ReadMessage does with the frames that follow: its result, the frames it leaves, and the
      payloads of the pings it answers. n counts its turns; payload, finOp and pongs are what it has gathered. */
  datatype Receipt = Receipt(outcome: Outcome, rest: seq<Frame>, pongs: seq<seq<byte>>)

  predicate IsData(op: nat) {
    op == CONTINUATION || op == TEXT || op == BINARY
  }

  function Receive(frames: seq<Frame>, n: nat, payload: seq<byte>, finOp: nat, pongs: seq<seq<byte>>): Receipt {
    if frames == [] then Receipt(Waiting, [], pongs)
    else
      var f, rest := frames[0], frames[1..];
      var finOp' := if IsData(f.op) && f.op != CONTINUATION then f.op else finOp;
      var payload' := if IsData(f.op) then payload + f.payload else payload;
      var pongs' := if f.op == PING then pongs + [f.payload] else pongs;
      if IsData(f.op) && f.fin && payload == [] then Receipt(Message(f.op, f.payload), rest, pongs)
      else if IsData(f.op) && f.fin then Receipt(Message(finOp', payload'), rest, pongs)
      else if f.op == CLOSE then Receipt(Closed, rest, pongs)
      else if !IsData(f.op) && f.op != PING && f.op != PONG then Receipt(Unknown(f.op), rest, pongs)
      else if n > MAX_READ then Receipt(TooMany, rest, pongs')
      else Receive(rest, n + 1, payload', finOp', pongs')
  }

  /** What the first frame of a call means, by its opcode (section 5.2 of RFC 6455). */
  lemma FirstFrame(f: Frame, rest: seq<Frame>)
    ensures var r := Receive([f] + rest, 0, [], 0, []);
      && (f.fin && (f.op == 0 || f.op == 1 || f.op == 2) ==> r == Receipt(Message(f.op, f.payload), rest, []))
      && (!f.fin && (f.op == 1 || f.op == 2) ==> r == Receive(rest, 1, f.payload, f.op, []))
      && (f.op == 8 ==> r == Receipt(Closed, rest, []))
      && (f.op == 9 ==> r == Receive(rest, 1, [], 0, [f.payload]))
      && (f.op == 10 ==> r == Receive(rest, 1, [], 0, []))
      && (3 <= f.op <= 7 || 11 <= f.op ==> r == Receipt(Unknown(f.op), rest, []))
  {
    assert ([f] + rest)[1..] == rest;
    assert [] + f.payload == f.payload && [] + [f.payload] == [f.payload];
  }

  /** The answer to a ping of up to 125 bytes, on the wire. */
  lemma PongOnTheWire(p: seq<byte>)
    requires |p| <= 125
    ensures PongBytes([p]) == [0x8a, |p|] + p
  {
    hide MessageBytes, FrameBytes;
    hide Length;
    MessageIsFrame(10, p);
    FrameLayout(Frame(true, 10, None, p));
    LengthLayout(|p|, 0);
    var s := FrameBytes(Frame(true, 10, None, p));
    assert s[1..2] == [|p|];
    assert s == [s[0]] + s[1..2] + s[2..];
    assert PongBytes([p]) == [] + MessageBytes(10, p) by {
      assert [p][..0] == [];
    }
  }

  function AllFrames(frames: seq<Frame>): seq<byte> {
    if frames == [] then [] else FrameBytes(frames[0]) + AllFrames(frames[1..])
  }

  function PongBytes(pongs: seq<seq<byte>>): seq<byte> {
    if pongs == [] then [] else PongBytes(pongs[..|pongs| - 1]) + MessageBytes(PONG, pongs[|pongs| - 1])
  }

  ghost predicate Fits(frames: seq<Frame>, size: nat) {
    forall i :: 0 <= i < |frames| ==> |frames[i].payload| <= size && |frames[i].payload| < TWO63
  }

  /** Data frames among pings and pongs, of which exactly the last frame is final. */
  ghost predicate Chained(fs: seq<Frame>) {
    && fs != []
    && if fs[0].op == PING || fs[0].op == PONG then Chained(fs[1..])
       else IsData(fs[0].op) && if fs[0].fin then |fs| == 1 else Chained(fs[1..])
  }

  /** A fragmented message (section 5.4 of RFC 6455): the first of the data frames has opcode op, the others
      are continuations. */
  ghost predicate Fragments(fs: seq<Frame>, op: nat) {
    && fs != []
    && if fs[0].op == PING || fs[0].op == PONG then Fragments(fs[1..], op)
       else fs[0].op == op && if fs[0].fin then |fs| == 1 else Fragments(fs[1..], CONTINUATION)
  }

  function Data(fs: seq<Frame>): seq<byte> {
    if fs == [] then [] else (if IsData(fs[0].op) then fs[0].payload else []) + Data(fs[1..])
  }

  function Pings(fs: seq<Frame>): seq<seq<byte>> {
    if fs == [] then [] else (if fs[0].op == PING then [fs[0].payload] else []) + Pings(fs[1..])
  }

  ghost predicate Fragmented(fs: seq<Frame>) {
    exists i :: 0 <= i < |fs| - 1 && IsData(fs[i].op)
  }

  /** The latest opcode of a data frame that is not a continuation. */
  ghost function LatestOp(fs: seq<Frame>, finOp: nat): nat {
    if fs == [] then finOp
    else LatestOp(fs[1..], if IsData(fs[0].op) && fs[0].op != CONTINUATION then fs[0].op else finOp)
  }

  /** The opcode that is reported, given what was gathered before. */
  ghost function ReportedOp(fs: seq<Frame>, payload: seq<byte>, finOp: nat): nat
    requires fs != []
  {
    if payload == [] && Data(fs[..|fs| - 1]) == [] then fs[|fs| - 1].op else LatestOp(fs, finOp)
  }

  /** Whatever their opcodes, data frames up to a final one are put together, every ping is answered in order
      and nothing behind them is touched. The opcode is the last frame's if no frame before it carries data,
      and otherwise the latest that is not a continuation. */
  lemma FramesReassembled(fs: seq<Frame>, rest: seq<Frame>)
    requires Chained(fs) && |fs| <= 102
    ensures var r := Receive(fs + rest, 0, [], 0, []);
      && r.outcome.Message? && r.outcome.payload == Data(fs) && r.rest == rest && r.pongs == Pings(fs)
      && r.outcome.op == if Data(fs[..|fs| - 1]) == [] then fs[|fs| - 1].op else LatestOp(fs, 0)
  {
    hide Receive, Data, Pings, LatestOp;
    ReassembledFrom(fs, rest, 0, [], 0, []);
    assert [] + Data(fs) == Data(fs) && [] + Pings(fs) == Pings(fs);
  }

  /** A fragmented message reports its opcode exactly if it is in one frame or a frame before the last
      carries data. */
  lemma MessageReassembled(fs: seq<Frame>, op: nat, rest: seq<Frame>)
    requires Fragments(fs, op) && (op == TEXT || op == BINARY) && |fs| <= 102
    ensures var r := Receive(fs + rest, 0, [], 0, []);
      && r.outcome.Message? && r.outcome.payload == Data(fs) && r.rest == rest && r.pongs == Pings(fs)
      && (r.outcome.op == op <==> !Fragmented(fs) || Data(fs[..|fs| - 1]) != [])
  {
    hide Receive, Data, Pings;
    FragmentsAreChained(fs, op, 0);
    FramesReassembled(fs, rest);
  }

  lemma {:induction false} FragmentsAreChained(fs: seq<Frame>, op: nat, finOp: nat)
    requires Fragments(fs, op) && IsData(op)
    ensures Chained(fs) && LatestOp(fs, finOp) == if op != CONTINUATION then op else finOp
    ensures fs[|fs| - 1].op == if Fragmented(fs) then CONTINUATION else op
  {
    if |fs| == 1 {
      assert LatestOp(fs[1..], op) == op && LatestOp(fs[1..], finOp) == finOp;
    } else if IsData(fs[0].op) {
      assert Fragmented(fs);
      FragmentsAreChained(fs[1..], CONTINUATION, if op != CONTINUATION then op else finOp);
    } else {
      LaterFragment(fs);
      FragmentsAreChained(fs[1..], op, finOp);
    }
  }

  /** An empty first fragment and one with data: the opcode is lost. */
  lemma EmptyFragmentLosesOpcode()
    ensures Receive([Frame(false, TEXT, None, []), Frame(true, CONTINUATION, None, [1])], 0, [], 0, [])
      == Receipt(Message(CONTINUATION, [1]), [], [])
  {
    var fs := [Frame(false, TEXT, None, []), Frame(true, CONTINUATION, None, [1])];
    assert fs[1..] == [fs[1]] && [fs[1]][1..] == [];
  }

  lemma {:induction false} ReassembledFrom(
    fs: seq<Frame>, rest: seq<Frame>, n: nat, payload: seq<byte>, finOp: nat, pongs: seq<seq<byte>>)
    requires Chained(fs) && n + |fs| <= MAX_READ + 2
    ensures Receive(fs + rest, n, payload, finOp, pongs)
      == Receipt(Message(ReportedOp(fs, payload, finOp), payload + Data(fs)), rest, pongs + Pings(fs))
  {
    hide ReportedOp, Receive, Data, Pings;
    ReportedOpFrom(fs, payload, finOp);
    if |fs| == 1 {
      LastTurn(fs, rest, n, payload, finOp, pongs);
    } else {
      var f := fs[0];
      OneTurn(fs, rest, n, payload, finOp, pongs);
      if IsData(f.op) {
        var finOp' := if f.op != CONTINUATION then f.op else finOp;
        ReassembledFrom(fs[1..], rest, n + 1, payload + f.payload, finOp', pongs);
      } else {
        var pongs' := if f.op == PING then pongs + [f.payload] else pongs;
        ReassembledFrom(fs[1..], rest, n + 1, payload, finOp, pongs');
      }
    }
  }

  lemma LastTurn(
    fs: seq<Frame>, rest: seq<Frame>, n: nat, payload: seq<byte>, finOp: nat, pongs: seq<seq<byte>>)
    requires Chained(fs) && |fs| == 1
    ensures var op := fs[0].op;
      var reported := if payload == [] || op != CONTINUATION then op else finOp;
      Receive(fs + rest, n, payload, finOp, pongs)
      == Receipt(Message(reported, payload + Data(fs)), rest, pongs + Pings(fs))
  {
    var f := fs[0];
    assert (fs + rest)[0] == f && (fs + rest)[1..] == rest;
    assert Data(fs) == f.payload + Data([]) == f.payload;
    assert payload == [] ==> payload + f.payload == f.payload;
    assert Pings(fs) == [] + Pings([]) == [];
    assert pongs + [] == pongs;
  }

  lemma OneTurn(
    fs: seq<Frame>, rest: seq<Frame>, n: nat, payload: seq<byte>, finOp: nat, pongs: seq<seq<byte>>)
    requires Chained(fs) && |fs| > 1 && n <= MAX_READ
    ensures var f, fs' := fs[0], fs[1..];
      var finOp' := if IsData(f.op) && f.op != CONTINUATION then f.op else finOp;
      var payload' := if IsData(f.op) then payload + f.payload else payload;
      var pongs' := if f.op == PING then pongs + [f.payload] else pongs;
      && Receive(fs + rest, n, payload, finOp, pongs) == Receive(fs' + rest, n + 1, payload', finOp', pongs')
      && payload' + Data(fs') == payload + Data(fs)
      && pongs' + Pings(fs') == pongs + Pings(fs)
      && Chained(fs')
  {
    assert (fs + rest)[0] == fs[0] && (fs + rest)[1..] == fs[1..] + rest;
    hide Data, Pings;
    DataTurn(fs, payload);
    PingsTurn(fs, pongs);
  }

  lemma DataTurn(fs: seq<Frame>, payload: seq<byte>)
    requires fs != []
    ensures (if IsData(fs[0].op) then payload + fs[0].payload else payload) + Data(fs[1..]) == payload + Data(fs)
  {
    assert Data(fs) == (if IsData(fs[0].op) then fs[0].payload else []) + Data(fs[1..]);
  }

  lemma PingsTurn(fs: seq<Frame>, pongs: seq<seq<byte>>)
    requires fs != []
    ensures (if fs[0].op == PING then pongs + [fs[0].payload] else pongs) + Pings(fs[1..]) == pongs + Pings(fs)
  {
    assert Pings(fs) == (if fs[0].op == PING then [fs[0].payload] else []) + Pings(fs[1..]);
  }

  lemma ReportedOpFrom(fs: seq<Frame>, payload: seq<byte>, finOp: nat)
    requires Chained(fs)
    ensures |fs| == 1 ==>
      var reported := if payload == [] || fs[0].op != CONTINUATION then fs[0].op else finOp;
      fs[0].fin && ReportedOp(fs, payload, finOp) == reported
    ensures |fs| > 1 && IsData(fs[0].op) ==>
      var finOp' := if fs[0].op != CONTINUATION then fs[0].op else finOp;
      !fs[0].fin && ReportedOp(fs, payload, finOp) == ReportedOp(fs[1..], payload + fs[0].payload, finOp')
    ensures |fs| > 1 && !IsData(fs[0].op) ==> ReportedOp(fs, payload, finOp) == ReportedOp(fs[1..], payload, finOp)
  {
    if |fs| == 1 {
      assert fs[1..] == [] && Data(fs[..0]) == [];
      assert LatestOp([], fs[0].op) == fs[0].op && LatestOp([], finOp) == finOp;
      assert IsData(fs[0].op) && fs[0].fin && fs[|fs| - 1] == fs[0];
    } else {
      LaterReported(fs, payload, finOp);
    }
  }

  lemma LaterReported(fs: seq<Frame>, payload: seq<byte>, finOp: nat)
    requires |fs| > 1
    ensures var f := fs[0];
      var finOp' := if IsData(f.op) && f.op != CONTINUATION then f.op else finOp;
      var payload' := if IsData(f.op) then payload + f.payload else payload;
      ReportedOp(fs, payload, finOp) == ReportedOp(fs[1..], payload', finOp')
  {
    var inits := fs[..|fs| - 1];
    assert inits[0] == fs[0] && inits[1..] == fs[1..][..|fs| - 2];
    assert Data(inits) == (if IsData(fs[0].op) then fs[0].payload else []) + Data(inits[1..]);
    hide Data;
  }

  lemma LaterFragment(fs: seq<Frame>)
    requires |fs| > 1 && !IsData(fs[0].op)
    ensures Fragmented(fs) <==> Fragmented(fs[1..])
  {
    if Fragmented(fs) {
      var i :| 0 <= i < |fs| - 1 && IsData(fs[i].op);
      assert IsData(fs[1..][i - 1].op);
    }
    if Fragmented(fs[1..]) {
      var i :| 0 <= i < |fs[1..]| - 1 && IsData(fs[1..][i].op);
      assert IsData(fs[i + 1].op);
    }
  }

  /** One call reads a front of the frames, at most 102 of them and exactly so many when it gives up; it answers
      exactly the pings among them. */
  lemma ReadsAtMost102(frames: seq<Frame>)
    ensures var r := Receive(frames, 0, [], 0, []);
      && |r.rest| <= |frames| && r.rest == frames[|frames| - |r.rest|..]
      && |frames| - |r.rest| <= 102
      && (r.outcome.TooMany? ==> |frames| - |r.rest| == 102)
      && (r.outcome.Waiting? ==> |frames| < 102)
      && r.pongs == Pings(frames[..|frames| - |r.rest|])
  {
    ReadsAtMost(frames, 0, [], 0, []);
  }

  lemma {:induction false} ReadsAtMost(
    frames: seq<Frame>, n: nat, payload: seq<byte>, finOp: nat, pongs: seq<seq<byte>>)
    requires n <= MAX_READ + 1
    ensures var r, most := Receive(frames, n, payload, finOp, pongs), MAX_READ + 2 - n;
      && |r.rest| <= |frames| && r.rest == frames[|frames| - |r.rest|..]
      && |frames| - |r.rest| <= most
      && (r.outcome.TooMany? ==> |frames| - |r.rest| == most)
      && (r.outcome.Waiting? ==> |frames| < most)
      && r.pongs == pongs + Pings(frames[..|frames| - |r.rest|])
  {
    hide Receive, Pings;
    var r := Receive(frames, n, payload, finOp, pongs);
    EndsOrGoesOn(frames, n, payload, finOp, pongs);
    if frames == [] {
      NoPings(pongs);
    } else {
      var f, rest, k := frames[0], frames[1..], |frames| - |r.rest|;
      var pongs' := if f.op == PING then pongs + [f.payload] else pongs;
      var finOp' := if IsData(f.op) && f.op != CONTINUATION then f.op else finOp;
      var payload' := if IsData(f.op) then payload + f.payload else payload;
      if n <= MAX_READ && r == Receive(rest, n + 1, payload', finOp', pongs') {
        ReadsAtMost(rest, n + 1, payload', finOp', pongs');
      } else {
        NoPings(pongs');
      }
      assert frames[..k][1..] == rest[..k - 1];
      PingsTurn(frames[..k], pongs);
    }
  }

  lemma NoPings(pongs: seq<seq<byte>>)
    ensures pongs + Pings([]) == pongs
  {
  }

  /** A turn reads one frame; it is the last one, or the others follow. */
  lemma EndsOrGoesOn(frames: seq<Frame>, n: nat, payload: seq<byte>, finOp: nat, pongs: seq<seq<byte>>)
    ensures var r := Receive(frames, n, payload, finOp, pongs);
      if frames == [] then r == Receipt(Waiting, [], pongs)
      else
        var f, rest := frames[0], frames[1..];
        var finOp' := if IsData(f.op) && f.op != CONTINUATION then f.op else finOp;
        var payload' := if IsData(f.op) then payload + f.payload else payload;
        var pongs' := if f.op == PING then pongs + [f.payload] else pongs;
        || (!r.outcome.Waiting? && r.rest == rest && r.pongs == pongs' && (r.outcome.TooMany? ==> n > MAX_READ))
        || (n <= MAX_READ && r == Receive(rest, n + 1, payload', finOp', pongs'))
  {
  }

  datatype MessageError = ReadFailed(e: FrameError) | WriteFailed(err: Error) | MessageClose | UnknownControl | MaxRead

  /** The frames decide the result, or what follows them is no frame. */
  ghost predicate Decided(goal: Receipt, more: seq<byte>, size: nat) {
    goal.outcome.Waiting? ==> !ParseFrame(more, size).Got?
  }

  /** readFrame at the front of a known sequence of frames, and of what follows them. */
  method NextFrame(rd: Reader, ghost left: seq<Frame>, ghost more: seq<byte>, ghost known: bool)
    returns (fin: bool, op: nat, payload: seq<byte>, e: Option<FrameError>)
    requires rd.Valid() && 4 <= rd.buf.Length
    requires known ==> Fits(left, rd.buf.Length) && rd.reliable == AllFrames(left) + more
    modifies rd, rd.buf, rd.rd
    ensures rd.Valid()
    ensures known && left != [] ==>
      && e.None? && fin == left[0].fin && op == left[0].op && payload == left[0].payload
      && Fits(left[1..], rd.buf.Length) && rd.reliable == AllFrames(left[1..]) + more
    ensures known && left == [] && !ParseFrame(more, rd.buf.Length).Got? ==>
      e.Some? && (e.value.Reserved? <==> ParseFrame(more, rd.buf.Length).BadReserved?)
  {
    hide ParseFrame, FrameBytes;
    if known {
      if left == [] {
        assert AllFrames(left) + more == more;
      } else {
        var tail := AllFrames(left[1..]) + more;
        assert rd.reliable == FrameBytes(left[0]) + tail;
        FrameRoundTrip(left[0], tail, rd.buf.Length);
      }
    }
    fin, op, payload, e := ReadFrame(rd);
  }

  lemma Unfold(left: seq<Frame>, n: nat, payload: seq<byte>, finOp: nat, pongs: seq<seq<byte>>)
    ensures left == [] ==> Receive(left, n, payload, finOp, pongs) == Receipt(Waiting, [], pongs)
    ensures left != [] ==>
      var f, rest, r := left[0], left[1..], Receive(left, n, payload, finOp, pongs);
      if f.op == CONTINUATION || f.op == TEXT || f.op == BINARY then
        var finOp' := if f.op != CONTINUATION then f.op else finOp;
        if f.fin && payload == [] then r == Receipt(Message(f.op, f.payload), rest, pongs)
        else if f.fin then r == Receipt(Message(finOp', payload + f.payload), rest, pongs)
        else if n > MAX_READ then r == Receipt(TooMany, rest, pongs)
        else r == Receive(rest, n + 1, payload + f.payload, finOp', pongs)
      else if f.op == PING then
        var pongs' := pongs + [f.payload];
        r == if n > MAX_READ then Receipt(TooMany, rest, pongs') else Receive(rest, n + 1, payload, finOp, pongs')
      else if f.op == PONG then
        r == if n > MAX_READ then Receipt(TooMany, rest, pongs) else Receive(rest, n + 1, payload, finOp, pongs)
      else if f.op == CLOSE then r == Receipt(Closed, rest, pongs)
      else r == Receipt(Unknown(f.op), rest, pongs)
  {
  }

  /** The answer to one ping, after those already sent. */
  method Answer(wr: Writer, part: seq<byte>, ghost start: seq<byte>, ghost done: seq<seq<byte>>, ghost known: bool)
    returns (e: Option<Error>)
    requires wr.Valid() && (known ==> wr.taken == start + PongBytes(done))
    modifies wr, wr.buf, wr.wr
    ensures old(Steady(wr)) ==> e.None? && Steady(wr)
    ensures wr.Valid() && (e.None? && known ==> wr.taken == start + PongBytes(done + [part]))
  {
    hide MessageBytes, PongBytes, Writer.Valid;
    e := WriteMessage(wr, PONG, part);
    OnePong(done, part);
    assert start + (PongBytes(done) + MessageBytes(PONG, part)) == start + PongBytes(done) + MessageBytes(PONG, part);
  }

  /** Between two turns, with the frames of left still to be read: if the frames decide the result, the
      goal is what these frames make of what was gathered, and the pings so far are answered. */
  ghost predicate Underway(rd: Reader, wr: Writer, goal: Receipt, left: seq<Frame>, more: seq<byte>,
    n: nat, payload: seq<byte>, finOp: nat, start: seq<byte>, pongs: seq<seq<byte>>)
    reads rd, wr
  {
    Decided(goal, more, rd.buf.Length) ==>
      && Fits(left, rd.buf.Length) && rd.reliable == AllFrames(left) + more
      && wr.taken == start + PongBytes(pongs)
      && goal == Receive(left, n, payload, finOp, pongs)
  }

  /** At the end: unless an answer could not be written, what the goal says, and an error of the stream if
      the frames do not complete a message and what follows them is no frame. */
  ghost predicate Ended(rd: Reader, wr: Writer, goal: Receipt, more: seq<byte>,
    op: nat, payload: seq<byte>, e: Option<MessageError>, start: seq<byte>)
    reads rd, wr
  {
    Decided(goal, more, rd.buf.Length) && !(e.Some? && e.value.WriteFailed?) ==>
      && wr.taken == start + PongBytes(goal.pongs)
      && (!goal.outcome.Waiting? ==> Fits(goal.rest, rd.buf.Length) && rd.reliable == AllFrames(goal.rest) + more)
      && match goal.outcome
         case Message(o, p) => e.None? && op == o && payload == p
         case Closed => e == Some(MessageClose)
         case Unknown(_) => e == Some(UnknownControl)
         case TooMany => e == Some(MaxRead)
         case Waiting =>
           && e.Some? && e.value.ReadFailed?
           && (e.value.e.Reserved? <==> ParseFrame(more, rd.buf.Length).BadReserved?)
  }

  method ReadMessage(rd: Reader, wr: Writer, ghost frames: seq<Frame>, ghost more: seq<byte>)
    returns (op: nat, payload: seq<byte>, e: Option<MessageError>)
    requires rd.Valid() && wr.Valid() && rd.buf != wr.buf && 4 <= rd.buf.Length
    requires Fits(frames, rd.buf.Length) && rd.reliable == AllFrames(frames) + more
    modifies rd, rd.buf, rd.rd, wr, wr.buf, wr.wr
    ensures rd.Valid() && wr.Valid()
    ensures old(Steady(wr)) ==> Steady(wr) && !(e.Some? && e.value.WriteFailed?)
    ensures Ended(rd, wr, Receive(frames, 0, [], 0, []), more, op, payload, e, old(wr.taken))
  {
    assert PongBytes([]) == [];
    hide AllFrames, Fits, Receive, PongBytes, Ended, Steady, Decided, ParseFrame, Reader.Valid, Writer.Valid;
    op, payload, e := 0, [], None;
    var finOp, n := 0, 0;
    ghost var goal, left, pongs, start := Receive(frames, 0, [], 0, []), frames, [], wr.taken;
    assert Underway(rd, wr, goal, left, more, n, payload, finOp, start, pongs);
    hide Underway;
    while true
      invariant rd.Valid() && wr.Valid() && n <= MAX_READ + 1
      invariant old(Steady(wr)) ==> Steady(wr)
      invariant Underway(rd, wr, goal, left, more, n, payload, finOp, start, pongs)
      decreases MAX_READ + 2 - n
    {
      var done;
      done, op, payload, finOp, e, left, pongs := Turn(rd, wr, n, payload, finOp, goal, left, more, start, pongs);
      if done {
        return;
      }
      n := n + 1;
    }
  }

  /** One turn of the loop: a frame is read and acted upon. */
  method Turn(rd: Reader, wr: Writer, n: nat, payload0: seq<byte>, finOp0: nat,
    ghost goal: Receipt, ghost left: seq<Frame>, ghost more: seq<byte>,
    ghost start: seq<byte>, ghost pongs: seq<seq<byte>>)
    returns (done: bool, op: nat, payload: seq<byte>, finOp: nat, e: Option<MessageError>,
      ghost left': seq<Frame>, ghost pongs': seq<seq<byte>>)
    requires rd.Valid() && wr.Valid() && rd.buf != wr.buf && 4 <= rd.buf.Length
    requires Underway(rd, wr, goal, left, more, n, payload0, finOp0, start, pongs)
    modifies rd, rd.buf, rd.rd, wr, wr.buf, wr.wr
    ensures rd.Valid() && wr.Valid()
    ensures old(Steady(wr)) ==> Steady(wr) && !(e.Some? && e.value.WriteFailed?)
    ensures done ==> Ended(rd, wr, goal, more, op, payload, e, start)
    ensures !done ==> n <= MAX_READ && Underway(rd, wr, goal, left', more, n + 1, payload, finOp, start, pongs')
  {
    hide AllFrames, Receive, PongBytes, Steady, ParseFrame, Reader.Valid, Writer.Valid;
    ghost var known := Decided(goal, more, rd.buf.Length);
    Unfold(left, n, payload0, finOp0, pongs);
    done, payload, finOp, e, left', pongs' := true, payload0, finOp0, None, if left == [] then [] else left[1..], pongs;
    var fin, part, err;
    fin, op, part, err := NextFrame(rd, left, more, known);
    hide Fits;
    if err.Some? {
      e := Some(ReadFailed(err.value));
      return;
    }
    if op == BINARY || op == TEXT || op == CONTINUATION {
      if fin && |payload| == 0 {
        payload := part;
        return;
      }
      payload := payload + part;
      if op != CONTINUATION {
        finOp := op;
      }
      if fin {
        op := finOp;
        return;
      }
    } else if op == PING {
      var failure := Answer(wr, part, start, pongs, known);
      if failure.Some? {
        e := Some(WriteFailed(failure.value));
        return;
      }
      pongs' := pongs + [part];
    } else if op == PONG {
    } else if op == CLOSE {
      e := Some(MessageClose);
      return;
    } else {
      e := Some(UnknownControl);
      return;
    }
    if n > MAX_READ {
      e := Some(MaxRead);
      return;
    }
    done := false;
  }

  lemma OnePong(done: seq<seq<byte>>, p: seq<byte>)
    ensures PongBytes(done + [p]) == PongBytes(done) + MessageBytes(PONG, p)
  {
    assert (done + [p])[..|done|] == done;
  }
}
