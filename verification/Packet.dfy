/** api/protocol/protocol.go: the length-prefixed packet on a TCP stream. */
module Packets {
  import opened Basics
  import opened Endian
  import opened Protos
  import opened Streams
  import opened Readers
  import opened Writers

  const MAX_BODY_SIZE := 4096
  const RAW_HEADER_SIZE := 16
  const MAX_PACK_SIZE := MAX_BODY_SIZE + RAW_HEADER_SIZE

  /** Pack length, header length, version, operation and sequence number. */
  function Header(bodyLen: nat, p: Proto): (h: seq<byte>)
    ensures |h| == RAW_HEADER_SIZE
  {
    PutInt32(ToInt32(RAW_HEADER_SIZE + bodyLen)) + PutInt16(RAW_HEADER_SIZE) + PutInt16(ToInt16(p.ver))
    + PutInt32(p.op) + PutInt32(p.sequence)
  }

  function Encode(p: Proto): seq<byte> {
    Header(|p.body|, p) + p.body
  }

  /** A heartbeat reply carries the number of connections online instead of its body. */
  function EncodeHeart(p: Proto, online: int32): seq<byte> {
    Header(4, p) + PutInt32(online)
  }

  datatype ProtoError = Stream(e: Error) | PackLen | HeaderLen

  /** What the next bytes mean to a reader whose buffer has the given size. */
  datatype Decoded =
    | Packet(p: Proto, rest: seq<byte>)
    | NoHeader
    | Bad(p: Proto, e: ProtoError, rest: seq<byte>)
    | NoBody(p: Proto, rest: seq<byte>)

  function HeaderFields(h: seq<byte>, body: seq<byte>): Proto
    requires |h| == RAW_HEADER_SIZE
  {
    Proto(Int16(h[6..8]), Int32(h[8..12]), Int32(h[12..]), body)
  }

  /** The body length that a header announces; the subtraction is on int32 and may wrap. */
  function BodyLen(h: seq<byte>): int32
    requires |h| == RAW_HEADER_SIZE
  {
    ToInt32(Int32(h[0..4]) - Int16(h[4..6]))
  }

  function Decode(s: seq<byte>, size: nat, held: seq<byte>): Decoded {
    if |s| < RAW_HEADER_SIZE || size < RAW_HEADER_SIZE then NoHeader
    else
      var h, rest := s[..RAW_HEADER_SIZE], s[RAW_HEADER_SIZE..];
      if Int32(h[0..4]) > MAX_PACK_SIZE then Bad(HeaderFields(h, held), PackLen, rest)
      else if Int16(h[4..6]) != RAW_HEADER_SIZE then Bad(HeaderFields(h, held), HeaderLen, rest)
      else
        var n := BodyLen(h);
        if n <= 0 then Packet(HeaderFields(h, []), rest)
        else if n <= size && n <= |rest| then Packet(HeaderFields(h, rest[..n]), rest[n..])
        else NoBody(HeaderFields(h, []), rest)
  }

  /** Fills p from the stream. On an error the stream stands where it stood, or after the header. */
  method ReadTCP(p0: Proto, rd: Reader) returns (p: Proto, e: Option<ProtoError>)
    requires rd.Valid()
    modifies rd, rd.buf, rd.rd
    ensures rd.Valid()
    ensures match Decode(old(rd.reliable), rd.buf.Length, p0.body)
      case Packet(q, rest) =>
        && e.None? && p == q && rd.reliable == rest
        && |rest| <= |old(rd.reliable)| && rd.ahead == old(rd.ahead)[|old(rd.reliable)| - |rest|..]
      case NoHeader =>
        && e.Some? && e.value.Stream? && p == p0 && rd.ahead == old(rd.ahead)
        && (RAW_HEADER_SIZE <= rd.buf.Length ==> e == Some(Stream(old(rd.trouble))))
      case Bad(q, error, rest) =>
        e == Some(error) && p == q && rd.reliable == rest && rd.ahead == old(rd.ahead)[RAW_HEADER_SIZE..]
      case NoBody(q, rest) =>
        && e.Some? && e.value.Stream? && p == q && rd.ahead == old(rd.ahead)[RAW_HEADER_SIZE..]
        && (e == Some(Stream(old(rd.trouble))) || e == Some(Stream(BufferFull)))
  {
    hide PutInt16, PutInt32, Int16, Int32, ToInt32, Reader.Valid;
    p, e := p0, None;
    ghost var all, allAhead := rd.reliable, rd.ahead;
    Prefixed(rd);
    var h, err := rd.Pop(RAW_HEADER_SIZE);
    if err.Some? {
      return p, Some(Stream(err.value));
    }
    assert h == all[..RAW_HEADER_SIZE];
    var packLen := Int32(h[0..4]);
    var headerLen := Int16(h[4..6]);
    p := HeaderFields(h, p.body);
    if packLen > MAX_PACK_SIZE {
      return p, Some(PackLen);
    }
    if headerLen != RAW_HEADER_SIZE {
      return p, Some(HeaderLen);
    }
    var bodyLen := ToInt32(packLen - headerLen);
    if bodyLen > 0 {
      ghost var n := RAW_HEADER_SIZE;
      if bodyLen <= |all| - n {
        DropTwice(all, n, bodyLen);
        DropTwice(allAhead, n, bodyLen);
      }
      var body;
      body, err := rd.Pop(bodyLen);
      p := p.(body := body);
      if err.Some? {
        e := Some(Stream(err.value));
      }
    } else {
      p := p.(body := []);
    }
  }

  lemma Prefixed(rd: Reader)
    requires rd.Valid()
    ensures rd.reliable <= rd.ahead
  {
  }

  /** The bytes of a message on the wire: an OpRaw body is already a sequence of packets. */
  function Wire(p: Proto): seq<byte> {
    if p.op == OP_RAW then p.body else Encode(p)
  }

  method WriteTCP(p: Proto, wr: Writer) returns (e: Option<Error>)
    requires wr.Valid()
    modifies wr, wr.buf, wr.wr
    ensures wr.Valid()
    ensures old(wr.taken) <= wr.taken <= old(wr.taken) + Wire(p)
    ensures e.None? ==>
      (wr.taken == old(wr.taken) + Wire(p)
       <==> p.op != OP_RAW || 0 < old(wr.n) || Takes(old(wr.wr.script), |p.body|) == |p.body|)
    ensures e.None? && Honest(old(wr.wr.script)) ==> wr.taken == old(wr.taken) + Wire(p)
    ensures old(wr.err).Some? ==> e.Some? && unchanged(wr.wr)
    ensures old(wr.err).None? ==> Reported(old(wr.wr.script), wr.wr.script, wr.err)
    ensures (p.op == OP_RAW || RAW_HEADER_SIZE <= wr.buf.Length) ==> e == wr.err
    ensures old(wr.err).None? && old(wr.wr.script) == [] && RAW_HEADER_SIZE <= wr.buf.Length ==>
      e.None? && wr.wr.script == []
    ensures e.None? ==> wr.err.None?
    ensures Honest(old(wr.wr.script)) ==> Honest(wr.wr.script)
  {
    hide PutInt16, PutInt32, ToInt32, ToInt16, Honest, Reported;
    if p.op == OP_RAW {
      var nn, err := wr.WriteRaw(p.body);
      assert p.body[..|p.body|] == p.body;
      return err;
    }
    ghost var before := wr.taken;
    var at;
    ghost var script := wr.wr.script;
    at, e := wr.Peek(RAW_HEADER_SIZE);
    ghost var peeked := wr.wr.script;
    if e.Some? {
      return;
    }
    var h := Header(|p.body|, p);
    wr.Store(at, h);
    assert wr.taken == before + h;
    if p.body != [] {
      var nn;
      nn, e := wr.Write(p.body);
      ReportedTwice(script, peeked, wr.wr.script, wr.err);
      assert before + h + p.body[..nn] <= before + (h + p.body) by {
        assert before + (h + p.body) == before + h + p.body[..nn] + p.body[nn..];
      }
      assert p.body[..|p.body|] == p.body;
    }
  }

  method WriteTCPHeart(p: Proto, online: int32, wr: Writer) returns (e: Option<Error>)
    requires wr.Valid()
    modifies wr, wr.buf, wr.wr
    ensures wr.Valid()
    ensures e.None? ==> wr.taken == old(wr.taken) + EncodeHeart(p, online) && wr.err.None?
    ensures e.Some? ==> wr.taken == old(wr.taken)
    ensures old(wr.err).Some? ==> e.Some? && unchanged(wr.wr)
    ensures old(wr.err).None? ==> Reported(old(wr.wr.script), wr.wr.script, wr.err)
    ensures RAW_HEADER_SIZE + 4 <= wr.buf.Length ==> e == wr.err
    ensures old(wr.err).None? && old(wr.wr.script) == [] && RAW_HEADER_SIZE + 4 <= wr.buf.Length ==>
      e.None? && wr.wr.script == []
    ensures Honest(old(wr.wr.script)) ==> Honest(wr.wr.script)
  {
    hide PutInt16, PutInt32, ToInt32, ToInt16, Reported;
    ghost var before := wr.taken;
    var at;
    at, e := wr.Peek(RAW_HEADER_SIZE + 4);
    if e.None? {
      wr.Store(at, Header(4, p) + PutInt32(online));
      assert wr.taken == before + EncodeHeart(p, online);
    }
  }

  /** The fields of a header are read back, the version cut to 16 bits. */
  lemma HeaderRoundTrip(n: nat, p: Proto)
    ensures var h := Header(n, p);
      && Int32(h[0..4]) == ToInt32(RAW_HEADER_SIZE + n) && Int16(h[4..6]) == RAW_HEADER_SIZE
      && forall body :: HeaderFields(h, body) == p.(ver := ToInt16(p.ver), body := body)
  {
    hide PutInt16, PutInt32, Int16, Int32, ToInt32, ToInt16;
    var h := Header(n, p);
    assert h[0..4] == PutInt32(ToInt32(RAW_HEADER_SIZE + n));
    assert h[4..6] == PutInt16(RAW_HEADER_SIZE);
    assert h[6..8] == PutInt16(ToInt16(p.ver));
    assert h[8..12] == PutInt32(p.op);
    assert h[12..] == PutInt32(p.sequence);
    Int32RoundTrip(ToInt32(RAW_HEADER_SIZE + n));
    Int16RoundTrip(RAW_HEADER_SIZE);
    Int16RoundTrip(ToInt16(p.ver));
    Int32RoundTrip(p.op);
    Int32RoundTrip(p.sequence);
  }

  /** The body lengths that survive: those up to the limit, and the sixteen whose pack length
      overflows to a negative number, passes the limit, and wraps back in the subtraction. */
  predicate Carried(n: nat, size: nat) {
    n <= size && (n <= MAX_BODY_SIZE || 0x8000_0000 - RAW_HEADER_SIZE <= n < 0x8000_0000)
  }

  lemma BodyLenOf(n: nat, size: nat)
    ensures Carried(n, size) ==>
      ToInt32(RAW_HEADER_SIZE + n) <= MAX_PACK_SIZE && ToInt32(ToInt32(RAW_HEADER_SIZE + n) - RAW_HEADER_SIZE) == n
    ensures !Carried(n, size) && n <= size && ToInt32(RAW_HEADER_SIZE + n) <= MAX_PACK_SIZE ==>
      ToInt32(ToInt32(RAW_HEADER_SIZE + n) - RAW_HEADER_SIZE) < n
  {
  }

  /** A packet is read back, with what follows it, exactly if its body length is carried. */
  lemma PacketRoundTrip(p: Proto, rest: seq<byte>, size: nat, held: seq<byte>)
    requires RAW_HEADER_SIZE <= size
    ensures Decode(Encode(p) + rest, size, held) == Packet(p.(ver := ToInt16(p.ver)), rest) <==> Carried(|p.body|, size)
  {
    hide PutInt16, PutInt32, Int16, Int32, ToInt32, ToInt16;
    var s, h, tail, n := Encode(p) + rest, Header(|p.body|, p), p.body + rest, |p.body|;
    assert s == h + tail;
    assert s[..RAW_HEADER_SIZE] == h && s[RAW_HEADER_SIZE..] == tail;
    HeaderRoundTrip(n, p);
    BodyLenOf(n, size);
    assert tail[..n] == p.body && tail[n..] == rest;
  }

  /** Where the fields of a packet are, and what the raw operation sends. */
  lemma PacketLayout(p: Proto)
    ensures var e := Encode(p);
      && |e| == 16 + |p.body| && e[0..4] == PutInt32(ToInt32(16 + |p.body|)) && e[4..6] == [0, 16]
      && e[6..8] == PutInt16(ToInt16(p.ver)) && e[8..12] == PutInt32(p.op) && e[12..16] == PutInt32(p.sequence)
      && e[16..] == p.body
    ensures Wire(p) == if p.op == 9 then p.body else Encode(p)
  {
    hide PutInt32, ToInt32, ToInt16;
    assert PutInt16(16) == [0, 16];
    hide PutInt16;
  }

  /** Which headers are refused, and when the body is there. */
  lemma RefusedExactly(s: seq<byte>, size: nat, held: seq<byte>)
    requires 16 <= |s| && 16 <= size
    ensures var d, packLen, headerLen := Decode(s, size, held), Int32(s[0..4]), Int16(s[4..6]);
      && (d.Bad? && d.e == PackLen <==> packLen > 4112)
      && (d.Bad? && d.e == HeaderLen <==> packLen <= 4112 && headerLen != 16)
      && (d.Bad? ==> d.rest == s[16..])
      && (d.Packet? && packLen >= 16 ==> |d.p.body| == packLen - 16)
      && (16 <= packLen <= 4112 && headerLen == 16 ==> (d.Packet? <==> packLen - 16 <= size && packLen <= |s|))
  {
    hide Int32, Int16;
    var h := s[..RAW_HEADER_SIZE];
    assert h[0..4] == s[0..4] && h[4..6] == s[4..6];
  }

  /** Only packets are decoded: what is accepted is the encoding of the result. */
  lemma DecodedWasEncoded(s: seq<byte>, size: nat, held: seq<byte>)
    requires Decode(s, size, held).Packet? && Int32(s[0..4]) >= 16
    ensures var d := Decode(s, size, held); s == Encode(d.p) + d.rest
  {
    hide Int32, Int16, PutInt32, PutInt16;
    var d, h := Decode(s, size, held), s[..RAW_HEADER_SIZE];
    RefusedExactly(s, size, held);
    assert h[0..4] == s[0..4] && h[4..6] == s[4..6];
    Int32Onto(h[0..4]);
    Int16Onto(h[4..6]);
    Int16Onto(h[6..8]);
    Int32Onto(h[8..12]);
    Int32Onto(h[12..]);
    assert ToInt16(d.p.ver) == d.p.ver;
    assert ToInt32(RAW_HEADER_SIZE + |d.p.body|) == Int32(h[0..4]);
    assert h == h[0..4] + h[4..6] + h[6..8] + h[8..12] + h[12..];
    assert Header(|d.p.body|, d.p) == h;
    assert s == h + s[RAW_HEADER_SIZE..] && s[RAW_HEADER_SIZE..] == d.p.body + d.rest;
  }

  /** One byte too many: the packet is refused even if the buffer would hold it. */
  lemma OversizedIsRefused(p: Proto, rest: seq<byte>, size: nat, held: seq<byte>)
    requires |p.body| == MAX_BODY_SIZE + 1 && RAW_HEADER_SIZE <= size
    ensures Decode(Encode(p) + rest, size, held)
      == Bad(p.(ver := ToInt16(p.ver), body := held), PackLen, p.body + rest)
  {
    hide PutInt16, PutInt32, Int16, Int32, ToInt16;
    var s, h, tail := Encode(p) + rest, Header(|p.body|, p), p.body + rest;
    assert s == h + tail;
    assert s[..RAW_HEADER_SIZE] == h && s[RAW_HEADER_SIZE..] == tail;
    HeaderRoundTrip(|p.body|, p);
  }

  function EncodeAll(ps: seq<Proto>): seq<byte> {
    if ps == [] then [] else Encode(ps[0]) + EncodeAll(ps[1..])
  }

  ghost predicate Sendable(p: Proto, size: nat) {
    -0x8000 <= p.ver < 0x8000 && |p.body| <= MAX_BODY_SIZE && |p.body| <= size
  }

  /** The packets at the front of a stream, as many as asked for. */
  function DecodeMany(s: seq<byte>, size: nat, k: nat): Option<(seq<Proto>, seq<byte>)> {
    if k == 0 then Some(([], s))
    else
      match Decode(s, size, [])
      case Packet(p, rest) =>
        (match DecodeMany(rest, size, k - 1)
         case Some((ps, end)) => Some(([p] + ps, end))
         case None => None)
      case _ => None
  }

  /** The encoding is self-delimiting. */
  lemma {:induction false} StreamRoundTrip(ps: seq<Proto>, rest: seq<byte>, size: nat)
    requires RAW_HEADER_SIZE <= size && forall i :: 0 <= i < |ps| ==> Sendable(ps[i], size)
    ensures DecodeMany(EncodeAll(ps) + rest, size, |ps|) == Some((ps, rest))
  {
    hide Encode, Decode;
    if ps == [] {
      assert EncodeAll(ps) + rest == rest;
    } else {
      var tail := EncodeAll(ps[1..]) + rest;
      assert EncodeAll(ps) + rest == Encode(ps[0]) + tail;
      assert Sendable(ps[0], size);
      PacketRoundTrip(ps[0], tail, size, []);
      StreamRoundTrip(ps[1..], rest, size);
      assert [ps[0]] + ps[1..] == ps;
    }
  }

  /** Reads k packets; the reader's Proto is fresh for each. */
  method ReadMany(rd: Reader, k: nat) returns (ps: seq<Proto>, e: Option<ProtoError>)
    requires rd.Valid()
    modifies rd, rd.buf, rd.rd
    ensures rd.Valid()
    ensures match DecodeMany(old(rd.reliable), rd.buf.Length, k)
      case Some((all, rest)) => e.None? && ps == all && rd.reliable == rest
      case None => e.Some?
  {
    hide Decode, Reader.Valid;
    ps := [];
    ghost var goal := DecodeMany(rd.reliable, rd.buf.Length, k);
    assert forall more: seq<Proto> :: ps + more == more;
    for i := 0 to k
      invariant rd.Valid() && |ps| == i
      invariant match DecodeMany(rd.reliable, rd.buf.Length, k - i)
        case Some((more, rest)) => goal == Some((ps + more, rest))
        case None => goal == None
    {
      var p;
      p, e := ReadTCP(EMPTY, rd);
      if e.Some? {
        return;
      }
      ps := ps + [p];
      match DecodeMany(rd.reliable, rd.buf.Length, k - i - 1)
      case Some((more, _)) => assert ps[..i] + ([p] + more) == ps + more;
      case None =>
    }
    e := None;
  }

  /** What the dispatcher writes: a message, a heartbeat reply, or an OpRaw message made of whole packets. */
  datatype Item = Plain(p: Proto) | Heart(p: Proto, online: int32) | Raw(p: Proto, inner: seq<Proto>)
  {
    ghost predicate Ok(size: nat) {
      match this
      case Plain(p) => p.op != OP_RAW && Sendable(p, size)
      case Heart(p, _) => 4 <= size && -0x8000 <= p.ver < 0x8000
      case Raw(p, inner) =>
        p.op == OP_RAW && p.body == EncodeAll(inner) && forall i :: 0 <= i < |inner| ==> Sendable(inner[i], size)
    }

    ghost function Bytes(): seq<byte> {
      match this
      case Plain(p) => Wire(p)
      case Heart(p, online) => EncodeHeart(p, online)
      case Raw(p, _) => Wire(p)
    }

    /** The packets that the peer reads. */
    ghost function Packets(): seq<Proto> {
      match this
      case Plain(p) => [p]
      case Heart(p, online) => [p.(body := PutInt32(online))]
      case Raw(_, inner) => inner
    }
  }

  ghost function AllBytes(items: seq<Item>): seq<byte> {
    if items == [] then [] else AllBytes(items[..|items| - 1]) + items[|items| - 1].Bytes()
  }

  ghost function AllPackets(items: seq<Item>): seq<Proto> {
    if items == [] then [] else AllPackets(items[..|items| - 1]) + items[|items| - 1].Packets()
  }

  lemma {:induction false} EncodeAllConcat(ps: seq<Proto>, qs: seq<Proto>)
    ensures EncodeAll(ps + qs) == EncodeAll(ps) + EncodeAll(qs)
  {
    hide Encode;
    if ps == [] {
      assert ps + qs == qs;
    } else {
      EncodeAllConcat(ps[1..], qs);
      assert (ps + qs)[0] == ps[0] && (ps + qs)[1..] == ps[1..] + qs;
      assert EncodeAll(ps + qs) == Encode(ps[0]) + (EncodeAll(ps[1..]) + EncodeAll(qs));
    }
  }

  /** Whatever the mix of items, their bytes are the encodings of the packets meant, one after the other. */
  lemma {:induction false} ItemsAreStream(items: seq<Item>, size: nat)
    requires forall i :: 0 <= i < |items| ==> items[i].Ok(size)
    ensures AllBytes(items) == EncodeAll(AllPackets(items))
    ensures forall i :: 0 <= i < |AllPackets(items)| ==> Sendable(AllPackets(items)[i], size)
  {
    hide EncodeAll, Sendable, Item.Ok, Item.Bytes, Item.Packets;
    if items == [] {
      NothingEncoded();
    } else {
      var n := |items| - 1;
      ItemsAreStream(items[..n], size);
      EncodeAllConcat(AllPackets(items[..n]), items[n].Packets());
      ItemIsStream(items[n], size);
    }
  }

  lemma NothingEncoded()
    ensures EncodeAll([]) == []
  {
  }

  lemma ItemIsStream(item: Item, size: nat)
    requires item.Ok(size)
    ensures item.Bytes() == EncodeAll(item.Packets())
    ensures forall i :: 0 <= i < |item.Packets()| ==> Sendable(item.Packets()[i], size)
  {
    hide Header, PutInt32;
    if !item.Raw? {
      var p := item.Packets()[0];
      assert item.Packets()[1..] == [];
      assert EncodeAll([p]) == Encode(p) + [] == Encode(p);
      if item.Heart? {
        HeaderIgnoresBody(4, p, item.p);
      }
    }
  }

  lemma HeaderIgnoresBody(n: nat, p: Proto, q: Proto)
    requires p.(body := []) == q.(body := [])
    ensures Header(n, p) == Header(n, q)
  {
    assert p.ver == q.(body := []).ver && p.op == q.(body := []).op && p.sequence == q.(body := []).sequence;
  }

  /** A peer reads back exactly the packets meant, in order, and then stands behind them. */
  lemma ItemsRoundTrip(items: seq<Item>, rest: seq<byte>, size: nat)
    requires RAW_HEADER_SIZE <= size && forall i :: 0 <= i < |items| ==> items[i].Ok(size)
    ensures DecodeMany(AllBytes(items) + rest, size, |AllPackets(items)|) == Some((AllPackets(items), rest))
  {
    ItemsAreStream(items, size);
    StreamRoundTrip(AllPackets(items), rest, size);
  }

  /** A sink that takes everything, and a buffer for every header. */
  ghost predicate Ready(wr: Writer)
    reads wr, wr.wr
  {
    wr.err.None? && wr.wr.script == [] && RAW_HEADER_SIZE + 4 <= wr.buf.Length
  }

  method WriteItem(item: Item, wr: Writer) returns (e: Option<Error>)
    requires wr.Valid()
    modifies wr, wr.buf, wr.wr
    ensures wr.Valid()
    ensures Honest(old(wr.wr.script)) ==> Honest(wr.wr.script)
    ensures e.None? ==> wr.err.None?
    ensures old(wr.err).None? ==> Reported(old(wr.wr.script), wr.wr.script, wr.err)
    ensures RAW_HEADER_SIZE + 4 <= wr.buf.Length && old(wr.err).None? ==> e == wr.err
    ensures old(Ready(wr)) ==> e.None? && Ready(wr)
    ensures e.None? && Honest(old(wr.wr.script)) ==> wr.taken == old(wr.taken) + item.Bytes()
  {
    hide Reported, Honest;
    match item
    case Plain(p) => e := WriteTCP(p, wr);
    case Heart(p, online) => e := WriteTCPHeart(p, online, wr);
    case Raw(p, _) => e := WriteTCP(p, wr);
  }

  /** Writes and flushes: unless an error is reported, the peer has been sent exactly the items' bytes. */
  method WriteAll(items: seq<Item>, wr: Writer) returns (e: Option<Error>)
    requires wr.Valid()
    modifies wr, wr.buf, wr.wr
    ensures wr.Valid()
    ensures old(wr.err).None? ==> Reported(old(wr.wr.script), wr.wr.script, wr.err)
    ensures RAW_HEADER_SIZE + 4 <= wr.buf.Length && old(wr.err).None? ==> e == wr.err
    ensures old(Ready(wr)) ==> e.None?
    ensures e.None? && Honest(old(wr.wr.script)) ==> wr.wr.received == old(wr.taken) + AllBytes(items)
  {
    hide Reported, Honest, Item.Bytes;
    NothingReported(wr.wr.script);
    ghost var script := wr.wr.script;
    e := None;
    for i := 0 to |items|
      invariant old(wr.err).None? ==> wr.err.None? && Reported(script, wr.wr.script, None)
      invariant wr.Valid()
      invariant Honest(old(wr.wr.script)) ==>
        Honest(wr.wr.script) && wr.taken == old(wr.taken) + AllBytes(items[..i])
      invariant old(Ready(wr)) ==> Ready(wr)
    {
      ghost var mid := wr.wr.script;
      e := WriteItem(items[i], wr);
      if old(wr.err).None? {
        ReportedTwice(script, mid, wr.wr.script, wr.err);
      }
      if e.Some? {
        return;
      }
      assert items[..i + 1][..i] == items[..i];
    }
    assert items[..|items|] == items;
    ghost var taken := wr.taken;
    ghost var mid := wr.wr.script;
    e := wr.Flush();
    if old(wr.err).None? {
      ReportedTwice(script, mid, wr.wr.script, wr.err);
    }
    if e.None? {
      assert wr.wr.received + wr.buf[..0] == wr.wr.received;
    }
  }
}
