/** pkg/bytes/writer.go: a byte buffer that grows by copying to a new array. */
module ByteBuffers {
  import opened Basics
  import opened Protos
  import opened Packets

  class ByteWriter {
    var n: nat
    var buf: array<byte>

    ghost predicate Valid()
      reads this
    {
      n <= buf.Length
    }

    ghost function Contents(): seq<byte>
      requires Valid()
      reads this, buf
    {
      buf[..n]
    }

    constructor (size: nat)
      ensures Valid() && Contents() == [] && buf.Length == size && fresh(buf)
    {
      n := 0;
      buf := new byte[size];
    }

    /** Makes room for k more bytes, in a new array if they do not fit with a byte to spare. */
    method Grow(k: nat)
      requires Valid()
      modifies this`buf
      ensures Valid() && n + k <= buf.Length && Contents() == old(Contents())
      ensures buf == old(buf) || fresh(buf)
    {
      if n + k < buf.Length {
        return;
      }
      var more := new byte[2 * buf.Length + k];
      forall i | 0 <= i < n {
        more[i] := buf[i];
      }
      buf := more;
    }

    /** Reserves the next k bytes. */
    method Peek(k: nat) returns (at: nat)
      requires Valid()
      modifies this
      ensures Valid() && at == old(n) && n == at + k && buf[..at] == old(Contents())
      ensures buf == old(buf) || fresh(buf)
    {
      Grow(k);
      at := n;
      n := n + k;
    }

    method Write(p: seq<byte>)
      requires Valid()
      modifies this, buf
      ensures Valid() && Contents() == old(Contents()) + p
      ensures buf == old(buf) || fresh(buf)
    {
      Grow(|p|);
      forall i | 0 <= i < |p| {
        buf[n + i] := p[i];
      }
      n := n + |p|;
    }

    /** Proto.WriteTo: the header goes into the reserved bytes before the body can move the array. */
    method WriteProto(p: Proto)
      requires Valid()
      modifies this, buf
      ensures Valid() && Contents() == old(Contents()) + Encode(p)
      ensures buf == old(buf) || fresh(buf)
    {
      hide Header;
      var at := Peek(RAW_HEADER_SIZE);
      var h := Header(|p.body|, p);
      forall i | 0 <= i < |h| {
        buf[at + i] := h[i];
      }
      assert Contents() == old(Contents()) + h;
      if p.body != [] {
        Write(p.body);
      }
    }
  }
}

/** internal/job/room.go: messages for a room are merged and broadcast in batches. */
module Batching {
  import opened Basics
  import opened Protos
  import opened Packets
  import opened ByteBuffers

  /** What the loop of pushproc receives; late says that the batch's time was up when the message came. */
  datatype Event = Message(p: Proto, late: bool) | Ready | Closed

  /** The slice handed to broadcastRoomRawBytes: the front of an array that others keep reading. */
  datatype Broadcast = Broadcast(data: array<byte>, len: nat)

  datatype Outcome = Waiting | ByReady | ByClose

  function Messages(events: seq<Event>): seq<Proto> {
    if events == [] then []
    else
      var n := |events| - 1;
      Messages(events[..n]) + if events[n].Message? then [events[n].p] else []
  }

  function Concat(batches: seq<seq<Proto>>): seq<Proto> {
    if batches == [] then [] else Concat(batches[..|batches| - 1]) + batches[|batches| - 1]
  }

  /** Every broadcast slice still holds the encodings of its batch. */
  ghost predicate Intact(sent: seq<Broadcast>, batches: seq<seq<Proto>>)
    reads set i | 0 <= i < |sent| :: sent[i].data
  {
    && |sent| == |batches|
    && forall i :: 0 <= i < |sent| ==>
      sent[i].len <= sent[i].data.Length && sent[i].data[..sent[i].len] == EncodeAll(batches[i])
  }

  ghost predicate Sized(batches: seq<seq<Proto>>, limit: int) {
    forall i :: 0 <= i < |batches| ==> 1 <= |batches[i]| <= limit
  }

  function Limit(batch: int): int { if batch < 2 then 2 else batch }

  /** What has been received is exactly what the batches hold, in order, and then what is still open. */
  ghost predicate Conserved(events: seq<Event>, batches: seq<seq<Proto>>, open: seq<Proto>) {
    Concat(batches) + open == Messages(events)
  }

  lemma OneMoreMessage(events: seq<Event>, batches: seq<seq<Proto>>, open: seq<Proto>)
    requires events != [] && Conserved(events[..|events| - 1], batches, open)
    ensures var last := events[|events| - 1];
      Conserved(events, batches, open + if last.Message? then [last.p] else [])
  {
    var last := events[|events| - 1];
    var more := if last.Message? then [last.p] else [];
    assert Concat(batches) + (open + more) == Concat(batches) + open + more;
  }

  lemma BatchClosed(events: seq<Event>, batches: seq<seq<Proto>>, open: seq<Proto>)
    requires Conserved(events, batches, open)
    ensures Conserved(events, batches + [open], [])
  {
    assert (batches + [open])[..|batches|] == batches;
    assert Concat(batches + [open]) + [] == Concat(batches) + open;
  }

  /** A batch of k messages, the event's included, ends with this event: it is full, or of two messages
      or more with its time up, or interrupted by the ready marker. */
  predicate Ends(batch: int, k: nat, event: Event) {
    match event
    case Message(_, late) => k >= 2 && (k >= batch || late)
    case Ready => k > 0
    case Closed => false
  }

  /** The finished batches and the open one. */
  function Batched(batch: int, events: seq<Event>): (seq<seq<Proto>>, seq<Proto>) {
    if events == [] then ([], [])
    else
      var n := |events| - 1;
      var (batches, open) := Batched(batch, events[..n]);
      var more := open + if events[n].Message? then [events[n].p] else [];
      if Ends(batch, |more|, events[n]) then (batches + [more], []) else (batches, more)
  }

  /** What one more event makes of the finished batches and the open one. */
  lemma BatchEndsExactly(batch: int, events: seq<Event>, event: Event)
    ensures var (batches, open) := Batched(batch, events);
      Batched(batch, events + [event]) ==
        match event
        case Closed => (batches, open)
        case Ready => if open == [] then (batches, []) else (batches + [open], [])
        case Message(p, late) =>
          if open == [] || (|open| + 1 < batch && !late) then (batches, open + [p])
          else (batches + [open + [p]], [])
  {
    assert (events + [event])[..|events|] == events;
    var open := Batched(batch, events).1;
    assert open + [] == open;
  }

  /** Batching loses, repeats and reorders nothing, and no batch is empty or too large. */
  lemma {:induction false} BatchesConserve(batch: int, events: seq<Event>)
    ensures Conserved(events, Batched(batch, events).0, Batched(batch, events).1)
    ensures Sized(Batched(batch, events).0, Limit(batch)) && |Batched(batch, events).1| < Limit(batch)
  {
    if events != [] {
      var n := |events| - 1;
      BatchesConserve(batch, events[..n]);
      var (batches, open) := Batched(batch, events[..n]);
      var more := open + if events[n].Message? then [events[n].p] else [];
      OneMoreMessage(events, batches, open);
      BatchClosed(events, batches, more);
    }
  }

  lemma OneMoreEncoded(open: seq<Proto>, p: Proto)
    ensures EncodeAll(open + [p]) == EncodeAll(open) + Encode(p)
  {
    EncodeAllConcat(open, [p]);
    assert [p][1..] == [];
    assert EncodeAll([p]) == Encode(p) + [] == Encode(p);
  }

  lemma OneMoreEvent(batch: int, events: seq<Event>, taken: nat)
    requires taken < |events|
    ensures var (batches, open), event := Batched(batch, events[..taken]), events[taken];
      var more := open + if event.Message? then [event.p] else [];
      Batched(batch, events[..taken + 1]) ==
        if Ends(batch, |more|, event) then (batches + [more], []) else (batches, more)
  {
    assert events[..taken + 1][..taken] == events[..taken];
  }

  /** The loop of pushproc over the events that it receives before it waits for more or exits. */
  method PushProc(batch: int, events: seq<Event>)
    returns (sent: seq<Broadcast>, taken: nat, outcome: Outcome)
    ensures taken <= |events| && (outcome == Waiting ==> taken == |events|)
    ensures forall i :: 0 <= i < taken ==>
      (events[i].Closed? || (events[i].Ready? && Batched(batch, events[..i]).1 == [])
       <==> outcome != Waiting && i == taken - 1)
    ensures outcome != Waiting ==> 0 < taken && (outcome == ByClose <==> events[taken - 1].Closed?)
    ensures outcome == ByReady ==> Batched(batch, events[..taken]).1 == []
    ensures Intact(sent, Batched(batch, events[..taken]).0)
  {
    hide Encode, EncodeAll, Batched, Ends;
    sent, taken, outcome := [], 0, Waiting;
    ghost var batches, open := [], [];
    var n := 0;
    var buf := new ByteWriter(MAX_BODY_SIZE);
    NothingYet(batch, events);
    while taken < |events|
      invariant taken <= |events| && outcome == Waiting
      invariant (batches, open) == Batched(batch, events[..taken])
      invariant forall i :: 0 <= i < taken ==>
        !events[i].Closed? && (events[i].Ready? ==> Batched(batch, events[..i]).1 != [])
      invariant buf.Valid() && fresh(buf) && fresh(buf.buf) && buf.Contents() == EncodeAll(open)
      invariant n == |open|
      invariant forall i :: 0 <= i < |sent| ==> fresh(sent[i].data) && sent[i].data != buf.buf
      invariant Intact(sent, batches)
    {
      OneMoreEvent(batch, events, taken);
      assert open + [] == open;
      var event := events[taken];
      EndsWhen(batch, |open| + if event.Message? then 1 else 0, event);
      taken := taken + 1;
      if event.Closed? {
        outcome := ByClose;
        return;
      } else if event.Message? {
        OneMoreEncoded(open, event.p);
        buf.WriteProto(event.p);
        open := open + [event.p];
        n := n + 1;
        if n == 1 {
          continue;
        } else if n < batch {
          if !event.late {
            continue;
          }
        }
      } else {
        if n == 0 {
          outcome := ByReady;
          return;
        }
      }
      sent := sent + [Broadcast(buf.buf, buf.n)];
      batches := batches + [open];
      buf := new ByteWriter(buf.buf.Length);
      n, open := 0, [];
      NothingEncoded();
    }
  }

  lemma EndsWhen(batch: int, k: nat, event: Event)
    ensures Ends(batch, k, event) <==>
      if event.Message? then k >= 2 && (k >= batch || event.late) else event.Ready? && k > 0
  {
  }

  lemma NothingYet(batch: int, events: seq<Event>)
    ensures Batched(batch, events[..0]) == ([], []) && EncodeAll([]) == []
  {
  }

  function Flatten(sent: seq<seq<byte>>): seq<byte> {
    if sent == [] then [] else Flatten(sent[..|sent| - 1]) + sent[|sent| - 1]
  }

  /** The broadcasts, one after the other, are the encodings of the messages, one after the other. */
  lemma {:induction false} FlattenBatches(sent: seq<seq<byte>>, batches: seq<seq<Proto>>)
    requires |sent| == |batches| && forall i :: 0 <= i < |sent| ==> sent[i] == EncodeAll(batches[i])
    ensures Flatten(sent) == EncodeAll(Concat(batches))
  {
    if sent != [] {
      var n := |sent| - 1;
      FlattenBatches(sent[..n], batches[..n]);
      EncodeAllConcat(Concat(batches[..n]), batches[n]);
    }
  }

  lemma {:induction false} MessagesOnly(events: seq<Event>, size: nat)
    requires forall i :: 0 <= i < |events| ==> events[i].Message? ==> Sendable(events[i].p, size)
    ensures forall i :: 0 <= i < |Messages(events)| ==> Sendable(Messages(events)[i], size)
  {
    if events != [] {
      MessagesOnly(events[..|events| - 1], size);
    }
  }

  /** Decoding the broadcasts recovers the dequeued messages in order, all but those of the open batch, of
      which an exit through the ready marker leaves none. */
  lemma BroadcastsDecode(batch: int, events: seq<Event>, sent: seq<seq<byte>>, size: nat)
    requires RAW_HEADER_SIZE <= size
    requires forall i :: 0 <= i < |events| ==> events[i].Message? ==> Sendable(events[i].p, size)
    requires var (batches, _) := Batched(batch, events);
      |sent| == |batches| && forall i :: 0 <= i < |sent| ==> sent[i] == EncodeAll(batches[i])
    ensures var k := |Messages(events)| - |Batched(batch, events).1|;
      0 <= k && DecodeMany(Flatten(sent), size, k) == Some((Messages(events)[..k], []))
  {
    hide Batched, Messages, Concat, Encode, EncodeAll, DecodeMany, Sendable, Flatten, Sized;
    var (batches, open) := Batched(batch, events);
    var all, ps := Messages(events), Concat(batches);
    BatchesConserve(batch, events);
    assert ps + open == all;
    assert all[..|ps|] == ps;
    MessagesOnly(events, size);
    FlattenBatches(sent, batches);
    StreamRoundTrip(ps, [], size);
    assert EncodeAll(ps) + [] == EncodeAll(ps);
  }

  /** Room.Push: a message for the room, dropped if the queue is full. */
  class Room {
    var queue: seq<Proto>
    const cap: nat

    constructor (batch: nat)
      ensures cap == 2 * batch && queue == []
    {
      cap, queue := 2 * batch, [];
    }

    method Push(op: int32, msg: seq<byte>) returns (full: bool)
      requires |queue| <= cap
      modifies this
      ensures |queue| <= cap && (full <==> |old(queue)| == cap)
      ensures queue == if full then old(queue) else old(queue) + [Proto(1, op, 0, msg)]
    {
      full := |queue| >= cap;
      if !full {
        queue := queue + [Proto(1, op, 0, msg)];
      }
    }
  }
}
