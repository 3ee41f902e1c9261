/** io.Reader and io.Writer as the buffered streams of pkg/bufio meet them. */
module Streams {
  import opened Basics

  /** An error of the underlying reader or writer. */
  datatype Fault = EOF | IO(code: nat)

  datatype Error = Underlying(fault: Fault) | NoProgress | BufferFull | NegativeCount | ShortWrite

  /** What one call of an underlying Read has to offer: some bytes, and perhaps an error after them. */
  datatype Chunk = Chunk(data: seq<byte>, fault: Option<Fault>)

  /** The bytes that a call with the given room returns; what does not fit is left for the next call. */
  function Delivered(script: seq<Chunk>, room: nat): (d: seq<byte>)
    ensures |d| <= room
  {
    if script == [] then [] else if |script[0].data| <= room then script[0].data else script[0].data[..room]
  }

  /** The error that the call returns with them. */
  function Raised(script: seq<Chunk>, room: nat): Option<Fault> {
    if script == [] then Some(EOF) else if |script[0].data| <= room then script[0].fault else None
  }

  function Remaining(script: seq<Chunk>, room: nat): seq<Chunk> {
    if script == [] then []
    else if |script[0].data| <= room then script[1..]
    else [Chunk(script[0].data[room..], script[0].fault)] + script[1..]
  }

  /** All bytes still to come. */
  function Bytes(script: seq<Chunk>): seq<byte> {
    if script == [] then [] else script[0].data + Bytes(script[1..])
  }

  const MAX_EMPTY_READS := 100

  /** The bytes that come before the first error, where the empties-th empty read in a row is one too. */
  function Clean(script: seq<Chunk>, empties: nat): seq<byte>
    decreases |script|
  {
    if script == [] || empties == 0 then []
    else if script[0].fault.Some? then script[0].data
    else if script[0].data == [] then Clean(script[1..], empties - 1)
    else script[0].data + Clean(script[1..], MAX_EMPTY_READS)
  }

  /** That error: the source's own, the end of the source, or the hundredth empty read. */
  function Trouble(script: seq<Chunk>, empties: nat): (e: Error)
    ensures e.Underlying? || e.NoProgress?
    decreases |script|
  {
    if empties == 0 then NoProgress
    else if script == [] then Underlying(EOF)
    else if script[0].fault.Some? then Underlying(script[0].fault.value)
    else if script[0].data == [] then Trouble(script[1..], empties - 1)
    else Trouble(script[1..], MAX_EMPTY_READS)
  }

  lemma NothingLeft(script: seq<Chunk>)
    ensures Clean(script, 0) == [] && Trouble(script, 0) == NoProgress
  {
  }

  lemma DropFirst<T>(a: seq<T>, b: seq<T>, n: nat)
    requires n <= |a|
    ensures (a + b)[n..] == a[n..] + b
    ensures (a + b)[..n] == a[..n]
  {
  }

  lemma DropTwice<T>(a: seq<T>, m: nat, n: nat)
    requires m + n <= |a|
    ensures a[m..][n..] == a[m + n..]
  {
  }

  lemma {:induction false} CleanIsPrefix(script: seq<Chunk>, empties: nat)
    ensures Clean(script, empties) <= Bytes(script)
    decreases |script|
  {
    if script == [] || empties == 0 {
    } else if script[0].fault.Some? {
    } else if script[0].data == [] {
      CleanIsPrefix(script[1..], empties - 1);
    } else {
      CleanIsPrefix(script[1..], MAX_EMPTY_READS);
    }
  }

  /** Reads that return neither bytes nor an error. */
  function Empties(n: nat): seq<Chunk> {
    if n == 0 then [] else [Chunk([], None)] + Empties(n - 1)
  }

  /** A byte after n empty reads in a row is reached exactly if n is below 100. */
  lemma HundredEmptyReads(n: nat, b: byte)
    ensures Clean(Empties(n) + [Chunk([b], None)], MAX_EMPTY_READS) == if n < 100 then [b] else []
    ensures n >= 100 ==> Trouble(Empties(n) + [Chunk([b], None)], MAX_EMPTY_READS) == NoProgress
  {
    EmptyReads(n, 0, b);
  }

  lemma {:induction false} EmptyReads(n: nat, used: nat, b: byte)
    requires used <= 100
    ensures Clean(Empties(n) + [Chunk([b], None)], 100 - used) == if used + n < 100 then [b] else []
    ensures used + n >= 100 ==> Trouble(Empties(n) + [Chunk([b], None)], 100 - used) == NoProgress
    decreases n
  {
    hide Clean, Trouble;
    var last := [Chunk([b], None)];
    if used == 100 {
      NothingLeft(Empties(n) + last);
    } else if n == 0 {
      assert Empties(0) + last == last + [];
      CleanHead(last[0], [], 100 - used);
      NothingClean(MAX_EMPTY_READS);
    } else {
      assert Empties(n) + last == [Chunk([], None)] + (Empties(n - 1) + last);
      CleanHead(Chunk([], None), Empties(n - 1) + last, 100 - used);
      EmptyReads(n - 1, used + 1, b);
    }
  }

  /** One read conserves the bytes. */
  lemma ReadConserves(script: seq<Chunk>, room: nat)
    ensures Bytes(script) == Delivered(script, room) + Bytes(Remaining(script, room))
  {
    if script != [] && |script[0].data| > room {
      var rest := Remaining(script, room);
      assert rest[1..] == script[1..];
      assert script[0].data == script[0].data[..room] + script[0].data[room..];
    }
  }

  lemma NothingClean(empties: nat)
    ensures Clean([], empties) == [] && (0 < empties ==> Trouble([], empties) == Underlying(EOF))
  {
  }

  lemma {:induction false} CleanHead(chunk: Chunk, tail: seq<Chunk>, empties: nat)
    requires 0 < empties
    ensures Clean([chunk] + tail, empties) ==
      if chunk.fault.Some? then chunk.data
      else if chunk.data == [] then Clean(tail, empties - 1)
      else chunk.data + Clean(tail, MAX_EMPTY_READS)
    ensures Trouble([chunk] + tail, empties) ==
      if chunk.fault.Some? then Underlying(chunk.fault.value)
      else Trouble(tail, if chunk.data == [] then empties - 1 else MAX_EMPTY_READS)
  {
    assert ([chunk] + tail)[1..] == tail;
  }

  /** One read, and the bytes before the next error. */
  lemma {:induction false} ReadKeepsClean(script: seq<Chunk>, room: nat, empties: nat)
    requires 0 < room && 0 < empties <= MAX_EMPTY_READS
    ensures Raised(script, room).Some? ==>
      && Clean(script, empties) == Delivered(script, room)
      && Trouble(script, empties) == Underlying(Raised(script, room).value)
    ensures Raised(script, room).None? && Delivered(script, room) == [] ==>
      && Clean(script, empties) == Clean(Remaining(script, room), empties - 1)
      && Trouble(script, empties) == Trouble(Remaining(script, room), empties - 1)
    ensures Raised(script, room).None? && Delivered(script, room) != [] ==>
      && Clean(script, empties) == Delivered(script, room) + Clean(Remaining(script, room), MAX_EMPTY_READS)
      && Trouble(script, empties) == Trouble(Remaining(script, room), MAX_EMPTY_READS)
  {
    hide Clean, Trouble;
    if script == [] {
      NothingClean(empties);
    } else {
      var chunk, tail := script[0], script[1..];
      assert script == [chunk] + tail;
      CleanHead(chunk, tail, empties);
      if |chunk.data| > room {
        CleanHead(Chunk(chunk.data[room..], chunk.fault), tail, MAX_EMPTY_READS);
        assert chunk.data == chunk.data[..room] + chunk.data[room..];
      }
    }
  }

  /** An underlying reader: the script says how it will split its bytes over the calls. */
  class Source {
    var script: seq<Chunk>

    constructor (script: seq<Chunk>)
      ensures this.script == script
    {
      this.script := script;
    }

    method Read(buf: array<byte>, start: nat) returns (n: nat, fault: Option<Fault>)
      requires start <= buf.Length
      modifies this, buf
      ensures n == |Delivered(old(script), buf.Length - start)|
      ensures fault == Raised(old(script), buf.Length - start)
      ensures script == Remaining(old(script), buf.Length - start)
      ensures buf[start..start + n] == Delivered(old(script), buf.Length - start)
      ensures buf[..start] == old(buf[..start]) && buf[start + n..] == old(buf[start + n..])
    {
      var room := buf.Length - start;
      var data := Delivered(script, room);
      n, fault := |data|, Raised(script, room);
      forall i | 0 <= i < n {
        buf[start + i] := data[i];
      }
      script := Remaining(script, room);
    }
  }

  /** How one call of an underlying Write ends: with all bytes taken, or with at most n of them. */
  datatype Reply = Full(fault: Option<Fault>) | Short(n: nat, fault: Option<Fault>)

  /** How many of n bytes the next call takes. */
  function Takes(script: seq<Reply>, n: nat): (k: nat)
    ensures k <= n
  {
    if script != [] && script[0].Short? && script[0].n < n then script[0].n else n
  }

  /** The error that the next call returns with them. */
  function Answers(script: seq<Reply>): Option<Fault> {
    if script == [] then None else script[0].fault
  }

  /** The replies from before to after were consumed, and e says how they were: without an error, or with
      the first error as the last of them, or with a short count without an error as the last. */
  ghost predicate Reported(before: seq<Reply>, after: seq<Reply>, e: Option<Error>) {
    && |after| <= |before| && after == before[|before| - |after|..]
    && var used := |before| - |after|;
      match e
      case None => forall i :: 0 <= i < used ==> before[i].fault.None?
      case Some(error) =>
        && 0 < used && (forall i :: 0 <= i < used - 1 ==> before[i].fault.None?)
        && match before[used - 1].fault
           case Some(fault) => error == Underlying(fault)
           case None => before[used - 1].Short? && error == ShortWrite
  }

  lemma NothingReported(script: seq<Reply>)
    ensures Reported(script, script, None)
  {
  }

  lemma ReportedTwice(a: seq<Reply>, b: seq<Reply>, c: seq<Reply>, e: Option<Error>)
    requires Reported(a, b, None) && Reported(b, c, e)
    ensures Reported(a, c, e)
  {
    var k := |a| - |b|;
    assert forall i :: 0 <= i < |b| ==> b[i] == a[k + i];
    assert forall i :: k <= i < |a| ==> a[i] == b[i - k];
  }

  /** The contract of io.Writer: fewer bytes taken than given means an error. */
  ghost predicate Honest(script: seq<Reply>) {
    forall i :: 0 <= i < |script| ==> script[i].Short? ==> script[i].fault.Some?
  }

  /** An underlying writer. It answers as scripted, and after that takes everything. */
  class Sink {
    var script: seq<Reply>
    var received: seq<byte>

    constructor (script: seq<Reply>)
      ensures this.script == script && received == []
    {
      this.script, received := script, [];
    }

    method Write(p: seq<byte>) returns (n: nat, fault: Option<Fault>)
      modifies this
      ensures n == Takes(old(script), |p|) && fault == Answers(old(script)) && received == old(received) + p[..n]
      ensures script == if old(script) == [] then [] else old(script)[1..]
      ensures n < |p| && fault.None? ==> !Honest(old(script))
      ensures Honest(old(script)) ==> Honest(script)
      ensures old(script) == [] ==> n == |p| && fault.None?
    {
      n, fault := |p|, None;
      if script != [] {
        fault := script[0].fault;
        if script[0].Short? && script[0].n < |p| {
          n := script[0].n;
        }
        script := script[1..];
      }
      received := received + p[..n];
    }
  }
}
