/** pkg/bufio/bufio.go's Writer: a fixed buffer before an underlying writer, with a sticky error. */
module Writers {
  import opened Basics
  import opened Streams

  class Writer {
    var err: Option<Error>
    const buf: array<byte>
    var n: nat
    const wr: Sink

    /** All bytes that the writer has taken: what the sink has, then what is buffered. */
    ghost var taken: seq<byte>

    ghost predicate Valid()
      reads this, buf, wr
    {
      && n <= buf.Length && 0 < buf.Length
      && taken == wr.received + buf[..n]
    }

    constructor (wr: Sink, buf: array<byte>)
      requires 0 < buf.Length
      ensures this.wr == wr && this.buf == buf
      ensures Valid() && n == 0 && err == None && taken == wr.received
    {
      this.wr, this.buf := wr, buf;
      n, err := 0, None;
      taken := wr.received;
    }

    /** copy(b.buf[0:b.n-n], b.buf[n:b.n]) */
    method Compact(k: nat)
      requires 0 < k < n <= buf.Length
      modifies buf
      ensures buf[..n - k] == old(buf[k..n])
    {
      forall i | 0 <= i < n - k {
        buf[i] := buf[k + i];
      }
    }

    method Flush() returns (e: Option<Error>)
      requires Valid()
      modifies this`err, this`n, buf, wr
      ensures Valid() && e == err
      ensures old(err).Some? ==> err == old(err) && n == old(n) && unchanged(wr) && unchanged(buf)
      ensures e.None? ==> n == 0
      ensures old(err).None? && 0 < old(n) ==>
        && wr.script == (if old(wr.script) == [] then [] else old(wr.script)[1..])
        && (e.None? <==> Takes(old(wr.script), old(n)) == old(n) && Answers(old(wr.script)) == None)
        && (Answers(old(wr.script)).Some? ==> e == Some(Underlying(Answers(old(wr.script)).value)))
        && n == old(n) - Takes(old(wr.script), old(n))
      ensures old(err).None? && old(n) == 0 ==> e.None? && unchanged(wr)
      ensures old(err).None? ==> Reported(old(wr.script), wr.script, e)
      ensures n <= old(n) && |wr.script| <= |old(wr.script)|
      ensures old(err).None? && 0 < old(n) && old(wr.script) != [] ==> |wr.script| < |old(wr.script)|
      ensures old(err).None? && old(wr.script) == [] ==> e.None? && wr.script == []
      ensures Honest(old(wr.script)) ==> Honest(wr.script)
    {
      hide Honest;
      NothingReported(wr.script);
      if err != None {
        return err;
      }
      if n == 0 {
        return None;
      }
      var k, fault := wr.Write(buf[0..n]);
      var failure := if fault.Some? then Some(Underlying(fault.value)) else None;
      if k < n && failure == None {
        failure := Some(ShortWrite);
      }
      if failure != None {
        if k > 0 && k < n {
          Compact(k);
        }
        n := n - k;
        err := failure;
        return failure;
      }
      n := 0;
      return None;
    }

    /** Buffers as much of p as fits. */
    method Fit(p: seq<byte>) returns (k: nat)
      requires Valid()
      modifies this`n, this`taken, buf
      ensures Valid()
      ensures k == (if |p| <= buf.Length - old(n) then |p| else buf.Length - old(n)) && n == old(n) + k
      ensures taken == old(taken) + p[..k]
    {
      k := if |p| <= buf.Length - n then |p| else buf.Length - n;
      forall i | 0 <= i < k {
        buf[n + i] := p[i];
      }
      taken := taken + p[..k];
      n := n + k;
      assert buf[..n] == old(buf[..n]) + p[..k];
    }

    /** One turn of Write, with more to write than fits: straight to the sink, or through the buffer. */
    method Overflow(rest: seq<byte>) returns (k: nat)
      requires Valid() && err.None? && |rest| > buf.Length - n
      modifies this, buf, wr
      ensures Valid() && k <= |rest| && taken == old(taken) + rest[..k]
      ensures Reported(old(wr.script), wr.script, err)
      ensures old(n) == 0 ==>
        k == Takes(old(wr.script), |rest|) && (err.None? <==> Answers(old(wr.script)) == None)
      ensures |wr.script| <= |old(wr.script)|
      ensures |wr.script| < |old(wr.script)| || 0 < k || n < old(n)
      ensures old(wr.script) == [] ==> err.None? && wr.script == []
      ensures Honest(old(wr.script)) ==> Honest(wr.script)
    {
      hide Honest;
      if n == 0 {
        var fault;
        k, fault := wr.Write(rest);
        err := if fault.Some? then Some(Underlying(fault.value)) else None;
        taken := taken + rest[..k];
      } else {
        k := Fit(rest);
        var _ := Flush();
      }
    }

    method Write(p: seq<byte>) returns (nn: nat, e: Option<Error>)
      requires Valid()
      modifies this, buf, wr
      ensures Valid() && e == err
      ensures nn <= |p| && taken == old(taken) + p[..nn]
      ensures e.None? ==> nn == |p|
      ensures |p| <= buf.Length - old(n) ==> unchanged(wr)
      ensures old(err).Some? ==> err == old(err) && nn == 0 && unchanged(wr)
      ensures old(err).None? ==> Reported(old(wr.script), wr.script, e)
      ensures old(err).None? && old(wr.script) == [] ==> e.None? && wr.script == []
      ensures Honest(old(wr.script)) ==> Honest(wr.script)
    {
      hide Honest, Reported;
      NothingReported(wr.script);
      nn := 0;
      var rest := p;
      while |rest| > buf.Length - n && err == None
        invariant old(err).None? ==> Reported(old(wr.script), wr.script, err)
        invariant Valid()
        invariant nn <= |p| && rest == p[nn..] && taken == old(taken) + p[..nn]
        invariant old(err).Some? ==> err == old(err) && nn == 0 && unchanged(wr)
        invariant old(err).None? && old(wr.script) == [] ==> err.None? && wr.script == []
        invariant Honest(old(wr.script)) ==> Honest(wr.script)
        invariant |p| <= buf.Length - old(n) ==> unchanged(wr) && nn == 0 && n == old(n)
        decreases |wr.script|, |rest|, n
      {
        ghost var script := wr.script;
        var k := Overflow(rest);
        ReportedTwice(old(wr.script), script, wr.script, err);
        Advance(p, nn, k, old(taken));
        nn := nn + k;
        rest := rest[k..];
      }
      if err != None {
        return nn, err;
      }
      var k := Fit(rest);
      Advance(p, nn, k, old(taken));
      nn := nn + k;
      return nn, None;
    }

    /** Past the buffer if it is empty. A sink that takes less without an error goes unnoticed here. */
    method WriteRaw(p: seq<byte>) returns (nn: nat, e: Option<Error>)
      requires Valid()
      modifies this, buf, wr
      ensures Valid() && e == err
      ensures nn <= |p| && taken == old(taken) + p[..nn]
      ensures e.None? && (Honest(old(wr.script)) || 0 < old(n)) ==> nn == |p|
      ensures old(err).None? && old(n) == 0 ==> nn == Takes(old(wr.script), |p|)
      ensures old(err).Some? ==> err == old(err) && nn == 0 && unchanged(wr)
      ensures old(err).None? ==> Reported(old(wr.script), wr.script, e)
      ensures old(err).None? && old(wr.script) == [] ==> e.None? && wr.script == []
      ensures Honest(old(wr.script)) ==> Honest(wr.script)
    {
      hide Honest;
      if err != None {
        return 0, err;
      }
      if n == 0 {
        var fault;
        nn, fault := wr.Write(p);
        taken := taken + p[..nn];
        e := if fault.Some? then Some(Underlying(fault.value)) else None;
        err := e;
      } else {
        nn, e := Write(p);
      }
    }

    /** Reserves the next k bytes of the buffer, to be stored before anything else is written. */
    method Peek(k: int) returns (at: nat, e: Option<Error>)
      requires Valid()
      modifies this, buf, wr
      ensures Valid()
      ensures k < 0 ==> e == Some(NegativeCount) && taken == old(taken)
      ensures k > buf.Length ==> e == Some(BufferFull) && taken == old(taken)
      ensures e.None? ==> 0 <= k && at + k == n && |taken| == |old(taken)| + k && taken[..|old(taken)|] == old(taken)
      ensures e.Some? ==> taken == old(taken)
      ensures old(err).Some? ==> e.Some? && unchanged(wr)
      ensures e.None? ==> err.None?
      ensures 0 <= k <= buf.Length ==> e == err
      ensures old(err).None? ==> Reported(old(wr.script), wr.script, err)
      ensures 0 <= k <= buf.Length && old(err).None? && old(wr.script) == [] ==> e.None? && wr.script == []
      ensures Honest(old(wr.script)) ==> Honest(wr.script)
    {
      hide Honest, Reported;
      NothingReported(wr.script);
      at := 0;
      if k < 0 {
        return 0, Some(NegativeCount);
      }
      if k > buf.Length {
        return 0, Some(BufferFull);
      }
      while buf.Length - n < k && err == None
        invariant old(err).None? ==> Reported(old(wr.script), wr.script, err)
        invariant Valid() && taken == old(taken)
        invariant old(err).Some? ==> err == old(err) && unchanged(wr)
        invariant old(err).None? && old(wr.script) == [] ==> err.None? && wr.script == []
        invariant Honest(old(wr.script)) ==> Honest(wr.script)
        decreases n, err.None?
      {
        ghost var script := wr.script;
        var _ := Flush();
        ReportedTwice(old(wr.script), script, wr.script, err);
      }
      if err != None {
        return 0, err;
      }
      at := Reserve(k);
      return at, None;
    }

    method Reserve(k: nat) returns (at: nat)
      requires Valid() && n + k <= buf.Length
      modifies this`n, this`taken
      ensures Valid() && at == old(n) && n == at + k
      ensures |taken| == |old(taken)| + k && taken[..|old(taken)|] == old(taken)
    {
      at := n;
      n := n + k;
      taken := taken + buf[at..n];
      assert buf[..n] == buf[..at] + buf[at..n];
    }

    /** Stores into a region that was just reserved at the end of the buffer. */
    method Store(at: nat, s: seq<byte>)
      requires Valid() && at + |s| <= n
      modifies this`taken, buf
      ensures Valid()
      ensures var k := |old(taken)| - (n - at);
        0 <= k && taken == old(taken)[..k] + s + old(taken)[k + |s|..]
    {
      forall i | 0 <= i < |s| {
        buf[at + i] := s[i];
      }
      ghost var k := |taken| - (n - at);
      taken := taken[..k] + s + taken[k + |s|..];
    }

    method WriteString(s: seq<byte>) returns (nn: nat, e: Option<Error>)
      requires Valid()
      modifies this, buf, wr
      ensures Valid() && e == err
      ensures nn <= |s| && taken == old(taken) + s[..nn]
      ensures e.None? ==> nn == |s|
      ensures old(err).Some? ==> err == old(err) && nn == 0 && unchanged(wr)
      ensures old(err).None? ==> Reported(old(wr.script), wr.script, e)
      ensures old(err).None? && old(wr.script) == [] ==> e.None? && wr.script == []
    {
      hide Honest, Reported;
      NothingReported(wr.script);
      nn := 0;
      var rest := s;
      while |rest| > buf.Length - n && err == None
        invariant old(err).None? ==> Reported(old(wr.script), wr.script, err)
        invariant Valid()
        invariant nn <= |s| && rest == s[nn..] && taken == old(taken) + s[..nn]
        invariant old(err).Some? ==> err == old(err) && nn == 0 && unchanged(wr)
        invariant old(err).None? && old(wr.script) == [] ==> err.None? && wr.script == []
        decreases |wr.script|, |rest|, n
      {
        var k := Fit(rest);
        Advance(s, nn, k, old(taken));
        nn := nn + k;
        rest := rest[k..];
        ghost var script := wr.script;
        var _ := Flush();
        ReportedTwice(old(wr.script), script, wr.script, err);
      }
      if err != None {
        return nn, err;
      }
      var k := Fit(rest);
      Advance(s, nn, k, old(taken));
      nn := nn + k;
      return nn, None;
    }
  }

  lemma Advance(p: seq<byte>, nn: nat, k: nat, before: seq<byte>)
    requires nn + k <= |p|
    ensures p[nn..][k..] == p[nn + k..]
    ensures before + p[..nn] + p[nn..][..k] == before + p[..nn + k]
  {
    assert p[..nn] + p[nn..][..k] == p[..nn + k];
  }
}
