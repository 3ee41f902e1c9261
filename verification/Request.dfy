/** pkg/websocket/request.go: the request line and header of an HTTP upgrade request. */
module Requests {
  import opened Basics
  import opened Streams
  import opened Readers

  const SP: byte := 32
  const TAB: byte := 9
  const COLON: byte := 58

  lemma IndexAfter(s: seq<byte>, n: nat, b: byte)
    requires n <= |s| && b in s && IndexOf(s, b) >= n
    ensures b in s[n..] && IndexOf(s[n..], b) == IndexOf(s, b) - n
  {
    assert s[n..][IndexOf(s, b) - n] == b;
  }

  /** The pieces of a line join to the line, because none of them splits a final CR from the LF. */
  lemma JoinPieces(s: seq<byte>, n: nat)
    requires LF in s && n <= IndexOf(s, LF)
    requires 0 < n ==> s[n - 1] != CR || s[n] == CR
    ensures LF in s[n..] && IndexOf(s[n..], LF) == IndexOf(s, LF) - n
    ensures s[..n] + DropCR(s[n..][..IndexOf(s[n..], LF)]) == DropCR(s[..IndexOf(s, LF)])
  {
    hide IndexOf;
    IndexAfter(s, n, LF);
    var k := IndexOf(s, LF);
    Middle(s, n, k);
    JoinCR(s[..n], s[n..k]);
  }

  lemma Middle(s: seq<byte>, n: nat, k: nat)
    requires n <= k <= |s|
    ensures s[n..][..k - n] == s[n..k] && s[..n] + s[n..k] == s[..k]
  {
  }

  lemma JoinCR(a: seq<byte>, b: seq<byte>)
    requires a != [] && b == [] ==> a[|a| - 1] != CR
    ensures a + DropCR(b) == DropCR(a + b)
  {
    if b != [] && b[|b| - 1] == CR {
      assert a + b[..|b| - 1] == (a + b)[..|a + b| - 1];
    } else if b == [] {
      assert a + b == a;
    }
  }

  /** The pieces read so far, of a line that goes on. */
  ghost predicate Collected(all: seq<byte>, line: seq<byte>) {
    && line <= all && LF !in line
    && (line != [] && |line| < |all| ==> line[|line| - 1] != CR || all[|line|] == CR)
  }

  lemma PieceAdded(all: seq<byte>, line: seq<byte>, l: seq<byte>, size: nat)
    requires Collected(all, line) && PrefixOfLine(l, all[|line|..], size) && 2 <= size
    ensures Collected(all, line + l) && l != [] && |line + l| <= |all|
    ensures all[|line|..][|l|..] == all[|line + l|..]
  {
    var n := |line|;
    DropTwice(all, n, |l|);
    assert all[n..][..|l|] == l;
    assert line + l == all[..n + |l|];
    assert n + |l| < |all| ==> all[n + |l|] == all[n..][|l|];
  }

  /** The rest of the line completes it. */
  lemma LineEnds(all: seq<byte>, line: seq<byte>)
    requires Collected(all, line)
    ensures LF in all <==> LF in all[|line|..]
    ensures LF in all ==>
      var k, left := IndexOf(all, LF), all[|line|..];
      && |line| <= k && IndexOf(left, LF) == k - |line|
      && line + DropCR(left[..k - |line|]) == DropCR(all[..k])
      && left[k - |line| + 1..] == all[k + 1..]
    ensures line + all[|line|..] == all
  {
    hide IndexOf;
    assert all == line + all[|line|..];
    if LF in all {
      IndexAfterPrefix(all, line);
      JoinPieces(all, |line|);
      DropTwice(all, |line|, IndexOf(all[|line|..], LF) + 1);
    }
  }

  /** Reads a line however it is split over reads and whatever the buffer's size. */
  method ReadLine(rd: Reader) returns (line: seq<byte>, e: Option<Error>)
    requires rd.Valid() && 2 <= rd.buf.Length
    modifies rd, rd.buf, rd.rd
    ensures rd.Valid()
    ensures LF in old(rd.reliable) ==>
      var k := IndexOf(old(rd.reliable), LF);
      && e.None? && line == DropCR(old(rd.reliable)[..k])
      && rd.reliable == old(rd.reliable)[k + 1..] && rd.ahead == old(rd.ahead)[k + 1..]
    ensures LF !in old(rd.reliable) && e.None? ==> line == old(rd.reliable)
    ensures e.None? ==> |rd.ahead| < |old(rd.ahead)|
    ensures e.Some? ==> e == Some(old(rd.trouble))
    ensures LF in old(rd.reliable) ==> rd.trouble == old(rd.trouble)
  {
    hide IndexOf, DropCR, Collected, PrefixOfLine;
    line := [];
    ghost var all, allAhead := rd.reliable, rd.ahead;
    NothingCollected(all);
    while true
      invariant rd.Valid() && Collected(all, line) && rd.trouble == old(rd.trouble)
      invariant |line| <= |all| <= |allAhead| && rd.reliable == all[|line|..] && rd.ahead == allAhead[|line|..]
      decreases |rd.reliable|
    {
      var l, more, err := ReadPiece(rd, line, all, allAhead);
      if err != None {
        return [], err;
      }
      if line == [] && !more {
        assert [] + l == l;
        return l, None;
      }
      line := line + l;
      if !more {
        break;
      }
    }
    e := None;
  }

  /** One call of the buffered reader's ReadLine within a line. */
  method ReadPiece(rd: Reader, line: seq<byte>, ghost all: seq<byte>, ghost allAhead: seq<byte>)
    returns (l: seq<byte>, more: bool, err: Option<Error>)
    requires rd.Valid() && 2 <= rd.buf.Length && Collected(all, line)
    requires |line| <= |all| <= |allAhead| && rd.reliable == all[|line|..] && rd.ahead == allAhead[|line|..]
    modifies rd, rd.buf, rd.rd
    ensures rd.Valid()
    ensures err.Some? ==> LF !in all && err == Some(old(rd.trouble))
    ensures err.None? && (more || LF in all) ==> rd.trouble == old(rd.trouble)
    ensures err.None? && more ==>
      && Collected(all, line + l) && l != [] && |line + l| <= |all|
      && rd.reliable == all[|line + l|..] && rd.ahead == allAhead[|line + l|..]
    ensures err.None? && !more && LF in all ==>
      var k := IndexOf(all, LF);
      k < |allAhead| && line + l == DropCR(all[..k]) && rd.reliable == all[k + 1..] && rd.ahead == allAhead[k + 1..]
    ensures err.None? && !more && LF !in all ==> line + l == all && |rd.ahead| < |allAhead|
  {
    hide IndexOf, DropCR, Collected, PrefixOfLine, Reader.Valid;
    LineEnds(all, line);
    ghost var left := rd.reliable;
    l, more, err := rd.ReadLine();
    if err.None? && more {
      PieceAdded(all, line, l, rd.buf.Length);
      DropTwice(allAhead, |line|, |l|);
    } else if LF in left {
      DropTwice(allAhead, |line|, IndexOf(left, LF) + 1);
    }
  }

  lemma NothingCollected(all: seq<byte>)
    ensures Collected(all, [])
  {
  }

  lemma IndexAfterPrefix(s: seq<byte>, l: seq<byte>)
    requires l <= s && LF in s && LF !in l
    ensures |l| <= IndexOf(s, LF)
  {
    assert IndexOf(s, LF) < |l| ==> LF in l;
  }

  predicate Blank(b: byte) { b == SP || b == TAB }

  function TrimLeft(s: seq<byte>): (t: seq<byte>)
    ensures |t| <= |s|
  {
    if s != [] && Blank(s[0]) then TrimLeft(s[1..]) else s
  }

  function TrimRight(s: seq<byte>): (t: seq<byte>)
    ensures |t| <= |s|
  {
    if s != [] && Blank(s[|s| - 1]) then TrimRight(s[..|s| - 1]) else s
  }

  method Trim(s: seq<byte>) returns (t: seq<byte>)
    ensures t == TrimRight(TrimLeft(s))
    ensures t != [] ==> !Blank(t[0]) && !Blank(t[|t| - 1])
    ensures exists i, n ::
      0 <= i <= n <= |s| && t == s[i..n] && forall k :: 0 <= k < |s| && (k < i || n <= k) ==> Blank(s[k])
  {
    hide TrimLeft, TrimRight;
    var i := 0;
    assert s[0..] == s;
    while i < |s| && Blank(s[i])
      invariant 0 <= i <= |s| && TrimLeft(s) == TrimLeft(s[i..])
      invariant forall k :: 0 <= k < i ==> Blank(s[k])
    {
      BlankBefore(s, i);
      i := i + 1;
    }
    TrimmedLeft(s[i..]);
    assert s[i..] == s[i..|s|];
    var n := |s|;
    while n > i && Blank(s[n - 1])
      invariant i <= n <= |s| && TrimRight(s[i..]) == TrimRight(s[i..n])
      invariant forall k :: n <= k < |s| ==> Blank(s[k])
    {
      BlankBehind(s, i, n);
      n := n - 1;
    }
    t := s[i..n];
    TrimmedRight(t);
    assert 0 <= i <= n <= |s| && t == s[i..n] && forall k :: 0 <= k < |s| && (k < i || n <= k) ==> Blank(s[k]);
  }

  lemma BlankBefore(s: seq<byte>, i: nat)
    requires i < |s| && Blank(s[i])
    ensures TrimLeft(s[i..]) == TrimLeft(s[i + 1..])
  {
    assert s[i..][1..] == s[i + 1..];
  }

  lemma BlankBehind(s: seq<byte>, i: nat, n: nat)
    requires i < n <= |s| && Blank(s[n - 1])
    ensures TrimRight(s[i..n]) == TrimRight(s[i..n - 1])
  {
    assert s[i..n][..n - i - 1] == s[i..n - 1];
  }

  lemma TrimmedLeft(t: seq<byte>)
    requires t != [] ==> !Blank(t[0])
    ensures TrimLeft(t) == t
  {
  }

  lemma TrimmedRight(t: seq<byte>)
    requires t != [] ==> !Blank(t[|t| - 1])
    ensures TrimRight(t) == t
  {
  }

  /** bytes.IndexByte and strings.Index of one byte: -1 if there is none. */
  function Find(s: seq<byte>, b: byte): int {
    if b in s then IndexOf(s, b) else -1
  }

  datatype RequestLine = RequestLine(verb: seq<byte>, uri: seq<byte>, proto: seq<byte>)

  /** The request line of section 3.1.1 of RFC 7230. */
  function ParseRequestLine(line: seq<byte>): Option<RequestLine> {
    var s1 := Find(line, SP);
    var s2 := Find(line[s1 + 1..], SP);
    if s1 < 0 || s2 < 0 then None
    else
      var end := s2 + s1 + 1;
      Some(RequestLine(line[..s1], line[s1 + 1..end], line[end + 1..]))
  }

  datatype Field = Field(key: seq<byte>, value: seq<byte>)

  /** A header line, trimmed: the key up to the first colon, then the value without leading blanks. */
  function ParseField(line: seq<byte>): Option<Field> {
    var i := Find(line, COLON);
    if i <= 0 then None else Some(Field(line[..i], TrimLeft(line[i + 1..])))
  }

  datatype HeaderLine = End | Bad(line: seq<byte>) | Pair(field: Field)

  function ParseHeaderLine(first: seq<byte>): HeaderLine {
    var line := TrimRight(TrimLeft(first));
    if line == [] then End
    else
      match ParseField(line)
      case None => Bad(line)
      case Some(field) => Pair(field)
  }

  /** What the start of a stream says; Incomplete if a line in it is not ended. */
  datatype Parsed<+T> = Done(value: T, rest: seq<byte>) | Malformed | Incomplete

  function FirstLine(s: seq<byte>): (p: Parsed<seq<byte>>)
    ensures p.Done? ==> |p.rest| < |s|
  {
    if LF in s then Done(DropCR(s[..IndexOf(s, LF)]), s[IndexOf(s, LF) + 1..]) else Incomplete
  }

  function Prepend(fields: seq<Field>, p: Parsed<seq<Field>>): Parsed<seq<Field>> {
    match p
    case Done(more, rest) => Done(fields + more, rest)
    case _ => p
  }

  function ParseHeader(s: seq<byte>): (p: Parsed<seq<Field>>)
    ensures p.Done? ==> |p.rest| < |s|
    decreases |s|
  {
    match FirstLine(s)
    case Done(first, rest) =>
      (match ParseHeaderLine(first)
       case End => Done([], rest)
       case Bad(_) => Malformed
       case Pair(field) => Prepend([field], ParseHeader(rest)))
    case _ => Incomplete
  }

  lemma PrependTwice(fields: seq<Field>, field: Field, p: Parsed<seq<Field>>)
    ensures Prepend(fields, Prepend([field], p)) == Prepend(fields + [field], p)
  {
    if p.Done? {
      assert fields + ([field] + p.value) == (fields + [field]) + p.value;
    }
  }

  lemma PrependNone(p: Parsed<seq<Field>>)
    ensures Prepend([], p) == p
  {
    if p.Done? {
      assert [] + p.value == p.value;
    }
  }

  datatype Request = Request(line: RequestLine, header: seq<Field>)

  function ParseRequest(s: seq<byte>): Parsed<Request> {
    match FirstLine(s)
    case Done(first, rest) =>
      (match ParseRequestLine(first)
       case None => Malformed
       case Some(line) =>
         match ParseHeader(rest)
         case Done(fields, end) => Done(Request(line, fields), end)
         case Malformed => Malformed
         case Incomplete => Incomplete)
    case _ => Incomplete
  }

  datatype RequestError = Unreadable(e: Error) | BadRequestLine(line: seq<byte>) | BadHeaderLine(line: seq<byte>)

  /** One turn of readMIMEHeader's loop. */
  method ReadField(rd: Reader) returns (h: HeaderLine, e: Option<Error>)
    requires rd.Valid() && 2 <= rd.buf.Length
    modifies rd, rd.buf, rd.rd
    ensures rd.Valid()
    ensures match FirstLine(old(rd.reliable))
      case Done(line, rest) =>
        && e.None? && h == ParseHeaderLine(line) && rd.reliable == rest
        && |rest| <= |old(rd.reliable)| <= |old(rd.ahead)|
        && rd.ahead == old(rd.ahead)[|old(rd.reliable)| - |rest|..]
      case Malformed => false
      case Incomplete => true
    ensures e.None? ==> |rd.ahead| < |old(rd.ahead)|
  {
    hide IndexOf, DropCR, TrimLeft, TrimRight;
    assert |rd.reliable| <= |rd.ahead|;
    hide Reader.Valid;
    var line, err := ReadLine(rd);
    if err.Some? {
      return End, err;
    }
    line := Trim(line);
    if |line| == 0 {
      return End, None;
    }
    var i := Find(line, COLON);
    if i <= 0 {
      return Bad(line), None;
    }
    var k := line[..i];
    i := i + 1;
    var v := SkipBlanks(line, i);
    return Pair(Field(k, v)), None;
  }

  /** How far a header has been read: fields are its first ones, and the reader stands before the rest. */
  ghost predicate HeaderSoFar(goal: Parsed<seq<Field>>, fields: seq<Field>, n: nat, allAhead: seq<byte>,
                              reliable: seq<byte>, ahead: seq<byte>)
  {
    !goal.Incomplete? ==>
      && |reliable| <= n <= |allAhead| && ahead == allAhead[n - |reliable|..]
      && goal == Prepend(fields, ParseHeader(reliable))
  }

  lemma HeaderGoesOn(goal: Parsed<seq<Field>>, fields: seq<Field>, n: nat, allAhead: seq<byte>,
                     reliable: seq<byte>, ahead: seq<byte>)
    requires HeaderSoFar(goal, fields, n, allAhead, reliable, ahead) && !goal.Incomplete? && |reliable| <= |ahead|
    ensures FirstLine(reliable).Done? && |reliable| <= n <= |allAhead|
    ensures var (line, rest) := (FirstLine(reliable).value, FirstLine(reliable).rest);
      && (match ParseHeaderLine(line)
          case End => goal == Done(fields, rest)
          case Bad(_) => goal == Malformed
          case Pair(field) => goal == Prepend(fields + [field], ParseHeader(rest)))
      && ahead[|reliable| - |rest|..] == allAhead[n - |rest|..]
  {
    hide FirstLine, ParseHeaderLine;
    assert FirstLine(reliable).Done?;
    var (line, rest) := (FirstLine(reliable).value, FirstLine(reliable).rest);
    DropTwice(allAhead, n - |reliable|, |reliable| - |rest|);
    match ParseHeaderLine(line)
    case End => assert fields + [] == fields;
    case Bad(_) =>
    case Pair(field) => PrependTwice(fields, field, ParseHeader(rest));
  }

  method ReadMIMEHeader(rd: Reader) returns (fields: seq<Field>, e: Option<RequestError>)
    requires rd.Valid() && 2 <= rd.buf.Length
    modifies rd, rd.buf, rd.rd
    ensures rd.Valid()
    ensures match ParseHeader(old(rd.reliable))
      case Done(all, rest) =>
        && e.None? && fields == all && rd.reliable == rest
        && |rest| <= |old(rd.reliable)| <= |old(rd.ahead)|
        && rd.ahead == old(rd.ahead)[|old(rd.reliable)| - |rest|..]
      case Malformed => e.Some? && e.value.BadHeaderLine?
      case Incomplete => true
  {
    hide FirstLine, ParseHeaderLine, ParseHeader, HeaderSoFar, Prepend;
    fields := [];
    ghost var n, allAhead, goal := |rd.reliable|, rd.ahead, ParseHeader(rd.reliable);
    HeaderStarts(rd.reliable, rd.ahead);
    while true
      invariant rd.Valid()
      invariant HeaderSoFar(goal, fields, n, allAhead, rd.reliable, rd.ahead)
      decreases |rd.ahead|
    {
      ghost var reliable, ahead := rd.reliable, rd.ahead;
      var h, err := ReadField(rd);
      if !goal.Incomplete? {
        HeaderGoesOn(goal, fields, n, allAhead, reliable, ahead);
      }
      if err.Some? {
        return fields, Some(Unreadable(err.value));
      }
      match h
      case End => return fields, None;
      case Bad(line) => return fields, Some(BadHeaderLine(line));
      case Pair(field) =>
        fields := fields + [field];
        HeaderStands(goal, fields, n, allAhead, rd.reliable, rd.ahead);
    }
  }

  lemma HeaderStarts(reliable: seq<byte>, ahead: seq<byte>)
    requires |reliable| <= |ahead|
    ensures HeaderSoFar(ParseHeader(reliable), [], |reliable|, ahead, reliable, ahead)
  {
    PrependNone(ParseHeader(reliable));
  }

  lemma HeaderStands(goal: Parsed<seq<Field>>, fields: seq<Field>, n: nat, allAhead: seq<byte>,
                     reliable: seq<byte>, ahead: seq<byte>)
    requires !goal.Incomplete? ==>
      && |reliable| <= n <= |allAhead| && ahead == allAhead[n - |reliable|..]
      && goal == Prepend(fields, ParseHeader(reliable))
    ensures HeaderSoFar(goal, fields, n, allAhead, reliable, ahead)
  {
  }

  method SkipBlanks(line: seq<byte>, start: nat) returns (v: seq<byte>)
    requires start <= |line|
    ensures v == TrimLeft(line[start..])
  {
    var i := start;
    while i < |line| && Blank(line[i])
      invariant start <= i <= |line| && TrimLeft(line[start..]) == TrimLeft(line[i..])
    {
      assert line[i..][1..] == line[i + 1..];
      i := i + 1;
    }
    v := line[i..];
  }

  /** The request line. */
  method ReadFirstLine(rd: Reader) returns (first: Option<RequestLine>, e: Option<RequestError>)
    requires rd.Valid() && 2 <= rd.buf.Length
    modifies rd, rd.buf, rd.rd
    ensures rd.Valid()
    ensures match FirstLine(old(rd.reliable))
      case Done(line, rest) =>
        && rd.reliable == rest && |rest| <= |old(rd.reliable)| <= |old(rd.ahead)|
        && rd.ahead == old(rd.ahead)[|old(rd.reliable)| - |rest|..]
        && first == ParseRequestLine(line)
        && e == if first.None? then Some(BadRequestLine(line)) else None
      case Malformed => false
      case Incomplete => e.None? ==> first.Some?
  {
    hide IndexOf, DropCR, ParseRequestLine;
    assert |rd.reliable| <= |rd.ahead|;
    hide Reader.Valid;
    var line, err := ReadLine(rd);
    if err.Some? {
      return None, Some(Unreadable(err.value));
    }
    first := ParseRequestLine(line);
    e := if first.None? then Some(BadRequestLine(line)) else None;
  }

  method ReadRequest(rd: Reader) returns (req: Option<Request>, e: Option<RequestError>)
    requires rd.Valid() && 2 <= rd.buf.Length
    modifies rd, rd.buf, rd.rd
    ensures rd.Valid()
    ensures match ParseRequest(old(rd.reliable))
      case Done(all, rest) =>
        && e.None? && req == Some(all) && rd.reliable == rest
        && |rest| <= |old(rd.reliable)| <= |old(rd.ahead)|
        && rd.ahead == old(rd.ahead)[|old(rd.reliable)| - |rest|..]
      case Malformed => e.Some? && !e.value.Unreadable?
      case Incomplete => true
  {
    hide FirstLine, ParseHeader, ParseRequestLine, Reader.Valid;
    ghost var all, allAhead := rd.reliable, rd.ahead;
    var first, err := ReadFirstLine(rd);
    if err.Some? {
      return None, err;
    }
    ghost var reliable, ahead := rd.reliable, rd.ahead;
    var header, bad := ReadMIMEHeader(rd);
    if bad.Some? {
      return None, bad;
    }
    if FirstLine(all).Done? && ParseHeader(reliable).Done? {
      Spliced(allAhead, ahead, |all|, |reliable|, |rd.reliable|);
    }
    req, e := Some(Request(first.value, header)), None;
  }

  lemma Spliced(a: seq<byte>, b: seq<byte>, k: nat, m: nat, n: nat)
    requires n <= m <= k <= |a| && b == a[k - m..]
    ensures b[m - n..] == a[k - n..]
  {
  }

  const CRLF: seq<byte> := [CR, LF]

  function PrintFields(fields: seq<Field>): seq<byte> {
    if fields == [] then CRLF
    else fields[0].key + [COLON, SP] + fields[0].value + CRLF + PrintFields(fields[1..])
  }

  function PrintRequest(req: Request): seq<byte> {
    req.line.verb + [SP] + req.line.uri + [SP] + req.line.proto + CRLF + PrintFields(req.header)
  }

  ghost predicate PrintableField(f: Field) {
    && f.key != [] && COLON !in f.key && LF !in f.key && !Blank(f.key[0])
    && LF !in f.value && (f.value != [] ==> !Blank(f.value[0]) && !Blank(f.value[|f.value| - 1]))
  }

  ghost predicate Printable(req: Request) {
    && SP !in req.line.verb && SP !in req.line.uri
    && LF !in req.line.verb && LF !in req.line.uri && LF !in req.line.proto
    && forall i :: 0 <= i < |req.header| ==> PrintableField(req.header[i])
  }

  lemma FoundAt(s: seq<byte>, b: byte, i: nat)
    requires i < |s| && s[i] == b && b !in s[..i]
    ensures b in s && IndexOf(s, b) == i
  {
    assert forall k :: 0 <= k < i ==> s[..i][k] == s[k];
  }

  lemma LineRoundTrip(line: seq<byte>, rest: seq<byte>)
    requires LF !in line
    ensures FirstLine(line + CRLF + rest) == Done(line, rest)
  {
    var s, k := line + CRLF + rest, |line| + 1;
    assert s[..k] == line + [CR];
    FoundAt(s, LF, k);
    assert s[k + 1..] == rest;
  }

  /** The first separator splits what was joined with it. */
  lemma SplitsAt(a: seq<byte>, b: byte, tail: seq<byte>)
    requires b !in a
    ensures var s := a + [b] + tail;
      Find(s, b) == |a| && s[..|a|] == a && s[|a| + 1..] == tail
  {
    var s := a + [b] + tail;
    assert s[..|a|] == a;
    FoundAt(s, b, |a|);
  }

  lemma RequestLineRoundTrip(r: RequestLine)
    requires SP !in r.verb && SP !in r.uri
    ensures ParseRequestLine(r.verb + [SP] + r.uri + [SP] + r.proto) == Some(r)
  {
    hide Find;
    var line := r.verb + [SP] + r.uri + [SP] + r.proto;
    var m, tail := |r.verb|, r.uri + [SP] + r.proto;
    assert line == r.verb + [SP] + tail;
    SplitsAt(r.verb, SP, tail);
    SplitsAt(r.uri, SP, r.proto);
    var end := |r.uri| + m + 1;
    assert line[m + 1..end] == tail[..|r.uri|];
    DropTwice(line, m + 1, |r.uri| + 1);
  }

  lemma FieldRoundTrip(f: Field)
    requires PrintableField(f)
    ensures ParseHeaderLine(f.key + [COLON, SP] + f.value) == Pair(f)
  {
    hide TrimRight, TrimLeft, IndexOf;
    var line := f.key + [COLON, SP] + f.value;
    TrimmedLeft([]);
    var trimmed := if f.value == [] then f.key + [COLON] else line;
    LineTrimmed(f);
    var n := |f.key|;
    assert trimmed[..n] == f.key && trimmed[n] == COLON;
    FoundAt(trimmed, COLON, n);
    if f.value != [] {
      ValueTrimmed(f.value);
      assert trimmed[n + 1..] == [SP] + f.value;
    }
  }

  lemma LineTrimmed(f: Field)
    requires PrintableField(f)
    ensures TrimRight(TrimLeft(f.key + [COLON, SP] + f.value))
      == if f.value == [] then f.key + [COLON] else f.key + [COLON, SP] + f.value
  {
    var line := f.key + [COLON, SP] + f.value;
    assert TrimLeft(line) == line;
    if f.value == [] {
      assert line[..|line| - 1] == f.key + [COLON];
      TrimmedRight(f.key + [COLON]);
    } else {
      TrimmedRight(line);
    }
  }

  lemma ValueTrimmed(value: seq<byte>)
    requires value != [] && !Blank(value[0])
    ensures TrimLeft([SP] + value) == value
  {
    assert ([SP] + value)[1..] == value;
    assert TrimLeft(value) == value;
  }

  lemma {:induction false} FieldsRoundTrip(fields: seq<Field>, rest: seq<byte>)
    requires forall i :: 0 <= i < |fields| ==> PrintableField(fields[i])
    ensures ParseHeader(PrintFields(fields) + rest) == Done(fields, rest)
  {
    hide ParseHeaderLine, FirstLine;
    if fields == [] {
      assert CRLF + rest == [] + CRLF + rest;
      LineRoundTrip([], rest);
      EmptyLineEnds();
    } else {
      var f := fields[0];
      var line, more := f.key + [COLON, SP] + f.value, PrintFields(fields[1..]);
      assert PrintFields(fields) + rest == line + CRLF + (more + rest);
      assert PrintableField(f);
      LineRoundTrip(line, more + rest);
      FieldRoundTrip(f);
      FieldsRoundTrip(fields[1..], rest);
      assert [f] + fields[1..] == fields;
    }
  }

  lemma EmptyLineEnds()
    ensures ParseHeaderLine([]) == End
  {
  }

  /** Parsing inverts printing, and leaves what follows the request. */
  lemma RequestRoundTrip(req: Request, rest: seq<byte>)
    requires Printable(req)
    ensures ParseRequest(PrintRequest(req) + rest) == Done(req, rest)
  {
    hide ParseHeader, FirstLine, ParseRequestLine, PrintFields;
    var r := req.line;
    var line := r.verb + [SP] + r.uri + [SP] + r.proto;
    assert PrintRequest(req) + rest == line + CRLF + (PrintFields(req.header) + rest);
    LineRoundTrip(line, PrintFields(req.header) + rest);
    RequestLineRoundTrip(r);
    FieldsRoundTrip(req.header, rest);
  }

  /** A line ends at its line feed, before which one carriage return is dropped. */
  lemma LineMeaning(line: seq<byte>, rest: seq<byte>)
    requires 10 !in line
    ensures FirstLine(line + [13, 10] + rest) == Done(line, rest)
    ensures line == [] || line[|line| - 1] != 13 ==> FirstLine(line + [10] + rest) == Done(line, rest)
    ensures FirstLine(line) == Incomplete
  {
    LineRoundTrip(line, rest);
    var s, k := line + [10] + rest, |line|;
    assert s[..k] == line;
    FoundAt(s, LF, k);
    assert s[k + 1..] == rest;
  }

  /** Trimming on the left drops exactly the blanks and tabs in front. */
  lemma {:induction false} TrimLeftExactly(s: seq<byte>)
    ensures var t := TrimLeft(s);
      && t == s[|s| - |t|..] && (forall i :: 0 <= i < |s| - |t| ==> s[i] == 32 || s[i] == 9)
      && (t != [] ==> t[0] != 32 && t[0] != 9)
  {
    if s != [] && Blank(s[0]) {
      TrimLeftExactly(s[1..]);
      var n := |s| - |TrimLeft(s)|;
      assert s[1..][n - 1..] == s[n..];
      assert forall i :: 0 < i < n ==> s[i] == s[1..][i - 1];
    }
  }

  /** A request line is split at its first two blanks, and refused exactly if it has not got two. */
  lemma RequestLineExactly(line: seq<byte>)
    ensures match ParseRequestLine(line)
      case Some(r) => line == r.verb + [32] + r.uri + [32] + r.proto && 32 !in r.verb && 32 !in r.uri
      case None => forall i, j :: 0 <= i < j < |line| ==> line[i] != 32 || line[j] != 32
  {
    hide IndexOf;
    if SP in line {
      var i := IndexOf(line, SP);
      if SP in line[i + 1..] {
        TwoBlanks(line);
      } else {
        OneBlank(line);
      }
    } else {
      assert line[0..] == line;
    }
  }

  lemma TwoBlanks(line: seq<byte>)
    requires SP in line && SP in line[IndexOf(line, SP) + 1..]
    ensures ParseRequestLine(line).Some?
    ensures var r := ParseRequestLine(line).value;
      line == r.verb + [32] + r.uri + [32] + r.proto && 32 !in r.verb && 32 !in r.uri
  {
    hide IndexOf, ParseRequestLine;
    var i := IndexOf(line, SP);
    var j := IndexOf(line[i + 1..], SP);
    SplitAtTwo(line, i, j);
    SplitTwice(line, i, j);
    NotBefore(line, SP);
    NotBefore(line[i + 1..], SP);
    Subline(line, i + 1, j);
  }

  lemma SplitAtTwo(line: seq<byte>, i: nat, j: nat)
    requires i < |line| && Find(line, SP) == i && i + 1 + j < |line| && Find(line[i + 1..], SP) == j
    ensures ParseRequestLine(line) == Some(RequestLine(line[..i], line[i + 1..j + i + 1], line[j + i + 2..]))
  {
    hide Find;
  }

  lemma NotBefore(s: seq<byte>, b: byte)
    requires b in s
    ensures b !in s[..IndexOf(s, b)]
  {
    hide IndexOf;
  }

  lemma Subline(s: seq<byte>, i: nat, j: nat)
    requires i + j <= |s|
    ensures s[i..][..j] == s[i..j + i]
  {
  }

  lemma SplitTwice(line: seq<byte>, i: nat, j: nat)
    requires i < |line| && line[i] == 32 && i + 1 + j < |line| && line[i + 1..][j] == 32
    ensures line == line[..i] + [32] + line[i + 1..j + i + 1] + [32] + line[j + i + 2..]
  {
    assert line[j + i + 1] == 32;
  }

  lemma OneBlank(line: seq<byte>)
    requires SP in line && SP !in line[IndexOf(line, SP) + 1..]
    ensures ParseRequestLine(line) == None
    ensures forall x, y :: 0 <= x < y < |line| ==> line[x] != 32 || line[y] != 32
  {
    hide IndexOf;
    var i := IndexOf(line, SP);
    var tail := line[i + 1..];
    forall x, y | 0 <= x < y < |line|
      ensures line[x] != 32 || line[y] != 32
    {
      assert i < y ==> line[y] == tail[y - i - 1];
    }
  }

  /** A header line is split at its first colon, and refused exactly if it has none or begins with it. */
  lemma FieldExactly(line: seq<byte>)
    ensures match ParseField(line)
      case Some(f) =>
        && 0 < |f.key| < |line| && f.key == line[..|f.key|] && 58 !in f.key && line[|f.key|] == 58
        && f.value == TrimLeft(line[|f.key| + 1..])
      case None => 58 !in line || line[0] == 58
  {
    hide IndexOf, TrimLeft;
    if COLON in line && IndexOf(line, COLON) > 0 {
      assert line[..IndexOf(line, COLON)][0] != COLON;
    }
  }

  /** The header ends at a line of nothing but blanks and tabs. */
  lemma HeaderEndsExactly(first: seq<byte>)
    ensures ParseHeaderLine(first) == End <==> forall i :: 0 <= i < |first| ==> first[i] == 32 || first[i] == 9
  {
    hide ParseField, TrimRight;
    var t := TrimLeft(first);
    TrimLeftExactly(first);
    StillNotBlank(t);
    assert t != [] ==> first[|first| - |t|] == t[0];
  }

  lemma {:induction false} StillNotBlank(t: seq<byte>)
    requires t != [] ==> !Blank(t[0])
    ensures TrimRight(t) == [] <==> t == []
  {
    if t != [] && Blank(t[|t| - 1]) {
      StillNotBlank(t[..|t| - 1]);
    }
  }

  function PrintLines(fields: seq<Field>): seq<byte> {
    if fields == [] then []
    else fields[0].key + [COLON, SP] + fields[0].value + CRLF + PrintLines(fields[1..])
  }

  /** A line without a colon, or beginning with it, makes the request malformed, after any good lines. */
  lemma {:induction false} BadLineReported(fields: seq<Field>, line: seq<byte>, rest: seq<byte>)
    requires forall i :: 0 <= i < |fields| ==> PrintableField(fields[i])
    requires line != [] && 10 !in line && !Blank(line[0]) && !Blank(line[|line| - 1])
    requires 58 !in line || line[0] == 58
    ensures ParseHeader(PrintLines(fields) + line + [13, 10] + rest) == Malformed
  {
    hide ParseHeaderLine, FirstLine;
    if fields == [] {
      assert PrintLines(fields) + line + [13, 10] + rest == line + [13, 10] + rest;
      LineMeaning(line, rest);
      BadLine(line);
    } else {
      var f := fields[0];
      var good, more := f.key + [COLON, SP] + f.value, PrintLines(fields[1..]) + line + [13, 10] + rest;
      assert PrintLines(fields) + line + [13, 10] + rest == good + CRLF + more;
      assert PrintableField(f);
      LineRoundTrip(good, more);
      FieldRoundTrip(f);
      BadLineReported(fields[1..], line, rest);
    }
  }

  lemma BadLine(line: seq<byte>)
    requires line != [] && !Blank(line[0]) && !Blank(line[|line| - 1])
    requires 58 !in line || line[0] == 58
    ensures ParseHeaderLine(line) == Bad(line)
  {
    hide ParseField;
    TrimmedLeft(line);
    TrimmedRight(line);
    FieldExactly(line);
  }

  /** So does a request line with less than two blanks. */
  lemma BadRequestLineReported(line: seq<byte>, rest: seq<byte>)
    requires 10 !in line && forall i, j :: 0 <= i < j < |line| ==> line[i] != 32 || line[j] != 32
    ensures ParseRequest(line + [13, 10] + rest) == Malformed
  {
    hide FirstLine, ParseRequestLine, ParseHeader;
    LineMeaning(line, rest);
    RequestLineExactly(line);
    if ParseRequestLine(line).Some? {
      HasTwoBlanks(line, ParseRequestLine(line).value);
      assert false;
    }
  }

  lemma HasTwoBlanks(line: seq<byte>, r: RequestLine)
    requires line == r.verb + [32] + r.uri + [32] + r.proto
    ensures exists i, j :: 0 <= i < j < |line| && line[i] == 32 && line[j] == 32
  {
    assert line[|r.verb|] == 32 && line[|r.verb| + 1 + |r.uri|] == 32;
  }

  /** The text of a request, in bytes. */
  lemma PrintedBytes()
    ensures PrintRequest(Request(RequestLine([71], [47], [72]), [Field([75], [86])]))
      == [71, 32, 47, 32, 72, 13, 10, 75, 58, 32, 86, 13, 10, 13, 10]
  {
    var fields := [Field([75], [86])];
    assert fields[1..] == [];
    assert PrintFields(fields) == [75] + [58, 32] + [86] + [13, 10] + PrintFields([]);
  }

  /** A printed request is read back from any reader whose next error comes after it, whatever the
      sizes of the reads and of the buffer. */
  method ReadPrinted(rd: Reader, ghost req: Request, ghost rest: seq<byte>)
    returns (got: Option<Request>, e: Option<RequestError>)
    requires rd.Valid() && 2 <= rd.buf.Length
    requires Printable(req) && rd.reliable == PrintRequest(req) + rest
    modifies rd, rd.buf, rd.rd
    ensures rd.Valid() && rd.reliable == rest && rd.ahead == old(rd.ahead)[|PrintRequest(req)|..]
    ensures e.None? && got == Some(req)
  {
    hide ParseRequest, PrintRequest, Printable, Reader.Valid;
    RequestRoundTrip(req, rest);
    got, e := ReadRequest(rd);
  }
}
