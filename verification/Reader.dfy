/** pkg/bufio/bufio.go's Reader: a fixed buffer over an underlying reader. */
module Readers {
  import opened Basics
  import opened Streams

  class Reader {
    const buf: array<byte>
    const rd: Source
    var r: nat
    var w: nat
    var err: Option<Error>

    /** The buffered bytes that the caller has not been given yet. */
    ghost var held: seq<byte>
    /** All bytes that the caller has not been given yet. */
    ghost var ahead: seq<byte>
    /** Those of them that can still be given before an error has to be reported. */
    ghost var reliable: seq<byte>
    /** The error that has to be reported then. */
    ghost var trouble: Error

    ghost predicate Valid()
      reads this, buf, rd
    {
      && InBounds() && |held| == w - r
      && held <= reliable <= ahead
      && (trouble.Underlying? || trouble.NoProgress?)
      && (err.Some? ==> held == reliable && err == Some(trouble))
      && Agrees()
    }

    ghost predicate InBounds()
      reads this
    {
      r <= w <= buf.Length && 0 < buf.Length
    }

    ghost predicate Agrees()
      requires InBounds()
      reads this, buf, rd
    {
      && held == buf[r..w]
      && ahead == held + Bytes(rd.script)
      && (err.None? ==> reliable == held + Clean(rd.script, MAX_EMPTY_READS))
      && (err.None? ==> trouble == Trouble(rd.script, MAX_EMPTY_READS))
    }

    constructor (rd: Source, buf: array<byte>)
      requires 0 < buf.Length
      ensures this.rd == rd && this.buf == buf
      ensures Valid() && r == w == 0 && err == None
      ensures ahead == Bytes(rd.script) && reliable == Clean(rd.script, MAX_EMPTY_READS)
      ensures trouble == Trouble(rd.script, MAX_EMPTY_READS)
    {
      this.rd, this.buf := rd, buf;
      r, w, err := 0, 0, None;
      held, ahead, reliable := [], Bytes(rd.script), Clean(rd.script, MAX_EMPTY_READS);
      trouble := Trouble(rd.script, MAX_EMPTY_READS);
      new;
      CleanIsPrefix(rd.script, MAX_EMPTY_READS);
    }

    lemma HeldIsBuffered()
      requires Valid()
      ensures held == buf[r..w]
    {
    }

    /** Moves the unread bytes to the front. */
    method Compact()
      requires InBounds()
      modifies this`r, this`w, buf
      ensures InBounds() && r == 0 && w == old(w - r) && buf[..w] == old(buf[r..w])
    {
      if r > 0 {
        forall i | 0 <= i < w - r {
          buf[i] := buf[r + i];
        }
        w := w - r;
        r := 0;
      }
    }

    /** Moves the unread bytes to the front and reads until there is a byte or an error. */
    method Fill()
      requires Valid() && w - r < buf.Length
      modifies this, buf, rd
      ensures Valid() && r == 0
      ensures old(held) <= held
      ensures |held| > |old(held)| || err.Some?
      ensures ahead == old(ahead)
      ensures old(err).None? ==> reliable == old(reliable) && trouble == old(trouble)
    {
      hide Bytes, Clean, Trouble, Delivered, Raised, Remaining;
      Compact();
      var i := MAX_EMPTY_READS;
      while i > 0
        invariant 0 <= i <= MAX_EMPTY_READS
        invariant InBounds() && r == 0 && w == |held| && held == buf[..w]
        invariant unchanged(this`err, this`held, this`ahead, this`reliable, this`trouble)
        invariant ahead == held + Bytes(rd.script)
        invariant err.None? ==> reliable == held + Clean(rd.script, i) && trouble == Trouble(rd.script, i)
      {
        i := i - 1;
        var done := ReadOnce(i);
        if done {
          return;
        }
      }
      NothingLeft(rd.script);
      err := Some(NoProgress);
      reliable, trouble := held, NoProgress;
    }

    /** One turn of fill's loop, after which left more empty reads are allowed. */
    method ReadOnce(left: nat) returns (done: bool)
      requires InBounds() && r == 0 && w == |held| && held == buf[..w] && w < buf.Length && left < MAX_EMPTY_READS
      requires (trouble.Underlying? || trouble.NoProgress?) && (err.Some? ==> err == Some(trouble))
      requires ahead == held + Bytes(rd.script)
      requires err.None? ==> reliable == held + Clean(rd.script, left + 1) && trouble == Trouble(rd.script, left + 1)
      modifies this`err, this`held, this`w, this`reliable, this`trouble, buf, rd
      ensures done ==>
        && Valid() && r == 0 && old(held) <= held
        && (|held| > |old(held)| || err.Some?)
        && (old(err).None? ==> reliable == old(reliable) && trouble == old(trouble))
      ensures !done ==>
        && unchanged(this) && InBounds() && held == buf[..w]
        && ahead == held + Bytes(rd.script)
        && (err.None? ==> reliable == held + Clean(rd.script, left) && trouble == Trouble(rd.script, left))
    {
      hide Bytes, Clean, Trouble, Delivered, Raised, Remaining;
      ghost var script, room, was := rd.script, buf.Length - w, held;
      ReadKeepsClean(script, room, left + 1);
      CleanIsPrefix(Remaining(script, room), MAX_EMPTY_READS);
      var n, fault := Append();
      done := fault.Some? || n > 0;
      if fault.Some? {
        err := Some(Underlying(fault.value));
        reliable, trouble := held, Underlying(fault.value);
      } else if n > 0 && err.Some? {
        reliable := held;
      } else if n > 0 {
        assert reliable == held + Clean(rd.script, MAX_EMPTY_READS);
      } else {
        assert held == was;
      }
    }

    /** b.rd.Read(b.buf[b.w:]) */
    method Append() returns (n: nat, fault: Option<Fault>)
      requires InBounds() && r == 0 && w == |held| && held == buf[..w] && ahead == held + Bytes(rd.script)
      modifies this`held, this`w, buf, rd
      ensures InBounds() && w == |held| && held == buf[..w] && ahead == held + Bytes(rd.script)
      ensures held == old(held) + Delivered(old(rd.script), buf.Length - old(w))
      ensures rd.script == Remaining(old(rd.script), buf.Length - old(w))
      ensures n == w - old(w) && fault == Raised(old(rd.script), buf.Length - old(w))
    {
      hide Bytes, Delivered, Raised, Remaining;
      ghost var script, room := rd.script, buf.Length - w;
      ReadConserves(script, room);
      n, fault := rd.Read(buf, w);
      w := w + n;
      held := held + Delivered(script, room);
      assert held == buf[..w];
      assert ahead == held + Bytes(rd.script);
    }

    /** Reports the error, if any; what is reliable is then what comes before the next one. */
    method ReadErr() returns (e: Option<Error>)
      requires Valid()
      modifies this`err, this`reliable, this`trouble
      ensures Valid() && e == old(err) && err == None
      ensures e.None? ==> reliable == old(reliable) && trouble == old(trouble)
    {
      e := err;
      err := None;
      if e.Some? {
        trouble := Trouble(rd.script, MAX_EMPTY_READS);
        reliable := held + Clean(rd.script, MAX_EMPTY_READS);
        CleanIsPrefix(rd.script, MAX_EMPTY_READS);
      }
    }

    /** The next n bytes, without consuming them. */
    method Peek(n: int) returns (d: seq<byte>, e: Option<Error>)
      requires Valid()
      modifies this, buf, rd
      ensures Valid() && ahead == old(ahead)
      ensures n < 0 ==> e == Some(NegativeCount) && d == [] && reliable == old(reliable)
      ensures n > buf.Length ==> e == Some(BufferFull) && d == [] && reliable == old(reliable)
      ensures 0 <= n <= buf.Length ==>
        && (e.None? <==> n <= |old(reliable)|)
        && (e.None? ==> d == old(ahead)[..n] && n <= w - r && reliable == old(reliable) && trouble == old(trouble))
        && (e.Some? ==> e == Some(old(trouble)) && d == old(reliable) && err == None)
    {
      hide Bytes, Clean, Trouble, Agrees;
      if n < 0 {
        return [], Some(NegativeCount);
      }
      if n > buf.Length {
        return [], Some(BufferFull);
      }
      while w - r < n && err == None
        invariant Valid() && ahead == old(ahead) && reliable == old(reliable) && trouble == old(trouble)
        decreases n - (w - r), err.None?
      {
        Fill();
      }
      e := None;
      var m := n;
      var avail := w - r;
      if avail < n {
        m := avail;
        e := ReadErr();
        if e == None {
          e := Some(BufferFull);
        }
      }
      HeldIsBuffered();
      d := buf[r..r + m];
      assert d == held[..m];
    }

    /** Moves past n buffered bytes. */
    method Consume(n: nat)
      requires Valid() && n <= w - r
      modifies this`r, this`held, this`ahead, this`reliable
      ensures Valid() && r == old(r) + n
      ensures held == old(held)[n..]
      ensures ahead == old(ahead)[n..] && reliable == old(reliable)[n..]
    {
      hide Bytes, Clean, Trouble;
      DropFirst(held, Bytes(rd.script), n);
      DropFirst(held, Clean(rd.script, MAX_EMPTY_READS), n);
      r := r + n;
      held, ahead, reliable := held[n..], ahead[n..], reliable[n..];
      assert held == buf[r..w];
    }

    /** The next n bytes, consumed; on an error nothing is consumed. */
    method Pop(n: int) returns (d: seq<byte>, e: Option<Error>)
      requires Valid()
      modifies this, buf, rd
      ensures Valid()
      ensures e.None? <==> 0 <= n <= buf.Length && n <= |old(reliable)|
      ensures e.None? ==> d == old(ahead)[..n] == old(reliable)[..n]
      ensures e.None? ==> ahead == old(ahead)[n..] && reliable == old(reliable)[n..]
      ensures e.Some? ==> d == [] && ahead == old(ahead)
      ensures e.Some? ==>
        e == Some(if n < 0 then NegativeCount else if n > buf.Length then BufferFull else old(trouble))
      ensures e.None? ==> trouble == old(trouble)
    {
      hide Bytes, Clean, Trouble;
      d, e := Peek(n);
      if e == None {
        Consume(n);
        return;
      }
      d := [];
    }

    /** Skips n bytes. */
    method Discard(n: int) returns (discarded: int, e: Option<Error>)
      requires Valid()
      modifies this, buf, rd
      ensures Valid()
      ensures n < 0 ==> discarded == 0 && e == Some(NegativeCount) && ahead == old(ahead)
      ensures 0 <= n ==> 0 <= discarded <= n && discarded <= |old(ahead)| && ahead == old(ahead)[discarded..]
      ensures e.None? <==> 0 <= n == discarded
      ensures 0 <= n <= |old(reliable)| ==> e.None? && reliable == old(reliable)[n..]
      ensures 0 <= n && old(err).None? && e.Some? ==> discarded == |old(reliable)| && e == Some(old(trouble))
    {
      hide Bytes, Clean, Trouble, Agrees;
      if n < 0 {
        return 0, Some(NegativeCount);
      }
      if n == 0 {
        return 0, None;
      }
      var remain := n;
      while true
        invariant Valid() && 0 < remain <= n && n - remain <= |old(ahead)|
        invariant ahead == old(ahead)[n - remain..]
        invariant old(err).None? || n <= |old(reliable)| ==>
          n - remain <= |old(reliable)| && reliable == old(reliable)[n - remain..] && trouble == old(trouble)
        invariant remain < n || old(err).None? ==> err.None?
        decreases remain
      {
        var skip := Skip(remain);
        DropTwice(old(ahead), n - remain, skip);
        assert old(ahead)[n - remain + skip..] == ahead;
        if old(err).None? || n <= |old(reliable)| {
          DropTwice(old(reliable), n - remain, skip);
        }
        remain := remain - skip;
        if remain == 0 {
          return n, None;
        }
        if err != None {
          discarded := n - remain;
          e := ReadErr();
          return;
        }
      }
    }

    /** One turn of Discard: skips what is buffered, after reading if nothing is. */
    method Skip(remain: nat) returns (skip: nat)
      requires Valid() && 0 < remain
      modifies this, buf, rd
      ensures Valid() && skip <= remain && skip <= |old(ahead)| && ahead == old(ahead)[skip..]
      ensures 0 < skip || err.Some?
      ensures old(err).None? || old(held) != [] ==>
        skip <= |old(reliable)| && reliable == old(reliable)[skip..] && trouble == old(trouble)
      ensures err.Some? && skip < remain ==> held == []
    {
      hide Bytes, Clean, Trouble, Agrees;
      skip := w - r;
      if skip == 0 {
        Fill();
        skip := w - r;
      }
      if skip > remain {
        skip := remain;
      }
      Consume(skip);
    }

    /** Fills the caller's slice with what is buffered, reading once if nothing is: past the buffer into a
        slice that is as large. */
    method Read(p: array<byte>) returns (n: nat, e: Option<Error>)
      requires Valid() && p != buf
      modifies this, buf, rd, p
      ensures Valid()
      ensures n <= p.Length && p[n..] == old(p[n..])
      ensures n <= |old(ahead)| && p[..n] == old(ahead)[..n] && ahead == old(ahead)[n..]
      ensures p.Length == 0 || (old(held) == [] && old(err).Some?) ==> n == 0 && e == old(err)
      ensures 0 < p.Length && old(held) != [] ==>
        e.None? && n == if p.Length <= |old(held)| then p.Length else |old(held)|
      ensures 0 < p.Length < buf.Length && old(held) == [] && old(err).None? ==>
        && (e.None? <==> 0 < n) && (e.None? <==> old(reliable) != [])
        && (e.Some? ==> e == Some(old(trouble)))
        && (e.None? ==> n <= |old(reliable)| && reliable == old(reliable)[n..])
      ensures buf.Length <= p.Length && old(held) == [] && old(err).None? ==>
        && n == |Delivered(old(rd.script), p.Length)|
        && e == (match Raised(old(rd.script), p.Length) case None => None case Some(fault) => Some(Underlying(fault)))
    {
      hide Bytes, Clean, Trouble, Agrees, Delivered, Raised;
      n := p.Length;
      if n == 0 {
        e := ReadErr();
        return;
      }
      if r == w {
        if err != None {
          e := ReadErr();
          return 0, e;
        }
        if p.Length >= buf.Length {
          n, e := ReadDirect(p);
          return;
        }
        Fill();
        if r == w {
          e := ReadErr();
          return 0, e;
        }
      }
      n := CopyOut(p);
      e := None;
    }

    /** b.rd.Read(p), with nothing buffered. */
    method ReadDirect(p: array<byte>) returns (n: nat, e: Option<Error>)
      requires Valid() && p != buf && held == [] && err.None? && 0 < p.Length
      modifies this`ahead, this`reliable, this`trouble, rd, p
      ensures Valid()
      ensures n <= p.Length && p[n..] == old(p[n..])
      ensures n <= |old(ahead)| && p[..n] == old(ahead)[..n] && ahead == old(ahead)[n..]
      ensures n == |Delivered(old(rd.script), p.Length)|
      ensures e == match Raised(old(rd.script), p.Length) case None => None case Some(fault) => Some(Underlying(fault))
    {
      hide Bytes, Clean, Trouble, Delivered, Raised, Remaining;
      ReadConserves(rd.script, p.Length);
      var fault;
      n, fault := rd.Read(p, 0);
      e := if fault.Some? then Some(Underlying(fault.value)) else None;
      ahead := ahead[n..];
      reliable, trouble := Clean(rd.script, MAX_EMPTY_READS), Trouble(rd.script, MAX_EMPTY_READS);
      CleanIsPrefix(rd.script, MAX_EMPTY_READS);
    }

    /** copy(p, b.buf[b.r:b.w]) and the advance of the read index. */
    method CopyOut(p: array<byte>) returns (n: nat)
      requires Valid() && p != buf
      modifies this`r, this`held, this`ahead, this`reliable, p
      ensures Valid()
      ensures n == if p.Length <= |old(held)| then p.Length else |old(held)|
      ensures p[n..] == old(p[n..]) && p[..n] == old(ahead)[..n]
      ensures ahead == old(ahead)[n..] && reliable == old(reliable)[n..]
    {
      hide Bytes, Clean, Trouble, Agrees;
      HeldIsBuffered();
      n := if p.Length <= w - r then p.Length else w - r;
      forall i | 0 <= i < n {
        p[i] := buf[r + i];
      }
      assert p[..n] == held[..n];
      Consume(n);
    }

    method ReadByte() returns (c: byte, e: Option<Error>)
      requires Valid()
      modifies this, buf, rd
      ensures Valid()
      ensures e.None? <==> old(reliable) != []
      ensures e.None? ==> c == old(ahead)[0] == old(reliable)[0]
      ensures e.None? ==> ahead == old(ahead)[1..] && reliable == old(reliable)[1..]
      ensures e.Some? ==> e == Some(old(trouble)) && ahead == old(ahead)
      ensures e.None? ==> trouble == old(trouble)
    {
      hide Bytes, Clean, Trouble, Agrees;
      while r == w
        invariant Valid() && ahead == old(ahead) && reliable == old(reliable) && trouble == old(trouble)
        decreases r == w, err.None?
      {
        if err != None {
          e := ReadErr();
          return 0, e;
        }
        Fill();
      }
      HeldIsBuffered();
      c := buf[r];
      Consume(1);
      e := None;
    }

    /** Reads through the first delim, unless the buffer fills or the reliable bytes end before it. */
    method ReadSlice(delim: byte) returns (line: seq<byte>, e: Option<Error>)
      requires Valid()
      modifies this, buf, rd
      ensures Valid()
      ensures line <= old(reliable) && ahead == old(ahead)[|line|..]
      ensures delim in old(reliable) && IndexOf(old(reliable), delim) < buf.Length ==>
        e.None? && line == old(reliable)[..IndexOf(old(reliable), delim) + 1]
      ensures delim in old(reliable) && IndexOf(old(reliable), delim) >= buf.Length ==> e == Some(BufferFull)
      ensures delim !in old(reliable) ==>
        delim !in line && (e == Some(BufferFull) || (e.Some? && line == old(reliable)))
      ensures e == Some(BufferFull) ==> |line| == buf.Length == r && held == [] && line == buf[..] && err == None
      ensures e.None? || e == Some(BufferFull) ==> reliable == old(reliable)[|line|..]
      ensures e.Some? && e != Some(BufferFull) ==> e == Some(old(trouble)) && line == old(reliable) && err == None
      ensures e.None? || e == Some(BufferFull) ==> trouble == old(trouble)
    {
      hide Bytes, Clean, Trouble, Agrees, IndexOf;
      while true
        invariant Valid() && ahead == old(ahead) && reliable == old(reliable) && trouble == old(trouble)
        decreases buf.Length - (w - r), err.None?
      {
        HeldIsBuffered();
        IndexInPrefix(held, reliable, delim);
        if delim in buf[r..w] {
          var i := IndexOf(buf[r..w], delim);
          line := Take(i + 1);
          return line, None;
        }
        if err != None {
          line := Take(w - r);
          e := ReadErr();
          return;
        }
        if w - r >= buf.Length {
          line := Take(w - r);
          return line, Some(BufferFull);
        }
        Fill();
      }
    }

    /** buf[r..r + n], consumed. */
    method Take(n: nat) returns (line: seq<byte>)
      requires Valid() && n <= |held|
      modifies this`r, this`held, this`ahead, this`reliable
      ensures Valid() && r == old(r) + n
      ensures line == old(held)[..n] && line == buf[old(r)..r] && held == old(held)[n..]
      ensures |line| == n && line <= old(reliable) && ahead == old(ahead)[n..] && reliable == old(reliable)[n..]
    {
      hide Bytes, Clean, Trouble, Agrees;
      HeldIsBuffered();
      line := buf[r..r + n];
      assert line == held[..n];
      Consume(n);
    }

    /** Puts the byte read last back. */
    method Unread()
      requires Valid() && 0 < r && err == None && held == []
      modifies this`r, this`held, this`ahead, this`reliable
      ensures Valid()
      ensures ahead == [old(buf[r - 1])] + old(ahead) && reliable == [old(buf[r - 1])] + old(reliable)
    {
      hide Bytes, Clean, Trouble;
      r := r - 1;
      held, ahead, reliable := [buf[r]] + held, [buf[r]] + ahead, [buf[r]] + reliable;
    }

    /** A line without its ending, or as much of it as the buffer holds. */
    method ReadLine() returns (line: seq<byte>, isPrefix: bool, e: Option<Error>)
      requires Valid()
      modifies this, buf, rd
      ensures Valid()
      ensures LF in old(reliable) && IndexOf(old(reliable), LF) < buf.Length ==>
        var k := IndexOf(old(reliable), LF);
        && e.None? && !isPrefix && line == DropCR(old(reliable)[..k])
        && ahead == old(ahead)[k + 1..] && reliable == old(reliable)[k + 1..]
      ensures LF in old(reliable) && IndexOf(old(reliable), LF) >= buf.Length ==> isPrefix
      ensures LF !in old(reliable) && !isPrefix ==>
        && line == old(reliable) && ahead == old(ahead)[|line|..]
        && (e.None? <==> old(reliable) != [])
      ensures e.Some? ==> e == Some(old(trouble))
      ensures isPrefix || (LF in old(reliable) && IndexOf(old(reliable), LF) < buf.Length) ==> trouble == old(trouble)
      ensures isPrefix ==>
        && e.None? && PrefixOfLine(line, old(reliable), buf.Length)
        && ahead == old(ahead)[|line|..] && reliable == old(reliable)[|line|..]
    {
      hide Bytes, Clean, Trouble, Agrees, IndexOf;
      ghost var before, beforeAhead := reliable, ahead;
      line, e := ReadSlice(LF);
      if e == Some(BufferFull) {
        isPrefix := true;
        if |line| > 0 && line[|line| - 1] == CR {
          var n := |line| - 1;
          DropTail(before, n);
          DropTail(beforeAhead, n);
          Unread();
          line := line[..n];
        }
        return line, true, None;
      }
      isPrefix := false;
      if |line| == 0 {
        return;
      }
      e := None;
      if line[|line| - 1] == LF {
        var drop := 1;
        if |line| > 1 && line[|line| - 2] == CR {
          drop := 2;
        }
        line := line[..|line| - drop];
      }
    }
  }

  const LF: byte := 10
  const CR: byte := 13

  function DropCR(s: seq<byte>): seq<byte> {
    if s != [] && s[|s| - 1] == CR then s[..|s| - 1] else s
  }

  /** A full buffer's worth of a line, except that a final CR is left for the next call. */
  ghost predicate PrefixOfLine(line: seq<byte>, s: seq<byte>, size: nat) {
    && line <= s && LF !in line && size <= |s| && size - 1 <= |line| <= size
    && (|line| < size ==> s[|line|] == CR)
    && (|line| == size && line != [] ==> line[|line| - 1] != CR)
  }

  lemma DropTail<T>(s: seq<T>, n: nat)
    requires n < |s|
    ensures [s[n]] + s[n + 1..] == s[n..]
  {
  }

  /** bytes.IndexByte of a byte that occurs. */
  function IndexOf(s: seq<byte>, b: byte): (i: nat)
    requires b in s
    ensures i < |s| && s[i] == b && forall k :: 0 <= k < i ==> s[k] != b
  {
    if s[0] == b then 0
    else
      assert s == [s[0]] + s[1..];
      1 + IndexOf(s[1..], b)
  }

  /** Where the first occurrence is, told from a prefix. */
  lemma IndexInPrefix(a: seq<byte>, s: seq<byte>, b: byte)
    requires a <= s
    ensures b in a ==> b in s && IndexOf(s, b) == IndexOf(a, b)
    ensures b !in a && b in s ==> IndexOf(s, b) >= |a|
  {
    if b in a {
      assert s[IndexOf(a, b)] == b;
    }
  }
}
