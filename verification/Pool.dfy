/** pkg/bytes/buffer.go: buffers of one size, cut from arenas and kept on a free list. */
module Pools {
  import opened Basics

  /** A buffer; its bytes are arena[lo..hi]. */
  class Buffer {
    var arena: array<byte>
    var lo: nat
    var hi: nat
    var next: Buffer?

    constructor (arena: array<byte>)
      ensures this.arena == arena && next == null
    {
      this.arena, lo, hi, next := arena, 0, 0, null;
    }
  }

  ghost function Nodes(bs: seq<Buffer>): set<Buffer> {
    set b | b in bs
  }

  ghost function Following(bs: seq<Buffer>, i: nat): Buffer? {
    if i + 1 < |bs| then bs[i + 1] else null
  }

  lemma InNodes(bs: seq<Buffer>)
    ensures forall i :: 0 <= i < |bs| ==> bs[i] in Nodes(bs)
  {
  }

  /** The free list: distinct buffers chained through next. */
  ghost predicate Chain(head: Buffer?, bs: seq<Buffer>)
    reads Nodes(bs)`next
  {
    && head == (if bs == [] then null else bs[0])
    && (forall i :: 0 <= i < |bs| ==> bs[i].next == Following(bs, i))
    && (forall i, j :: 0 <= i < j < |bs| ==> bs[i] != bs[j])
  }

  lemma OnlyOnce(head: Buffer?, bs: seq<Buffer>)
    requires Chain(head, bs) && bs != []
    ensures forall k :: 0 <= k < |bs| - 1 ==> bs[k] != bs[|bs| - 1]
  {
  }

  /** The bytes of the buffers lie within their arenas, have the pool's size and do not overlap. */
  ghost predicate Disjoint(bs: set<Buffer>, size: nat)
    reads bs`arena, bs`lo, bs`hi
  {
    && (forall b :: b in bs ==> b.lo + size == b.hi <= b.arena.Length)
    && (forall b, c :: b in bs && c in bs && b != c && b.arena == c.arena ==> b.hi <= c.lo || c.hi <= b.lo)
  }

  function Offset(i: nat, size: nat): nat { i * size }

  /** Buffer i of an arena, for the first n, holds the bytes from i * size on. */
  ghost predicate Cut(bs: seq<Buffer>, n: nat, arena: array<byte>, size: nat)
    requires n <= |bs|
    reads Nodes(bs)`arena, Nodes(bs)`lo, Nodes(bs)`hi
  {
    forall i :: 0 <= i < n ==> bs[i].arena == arena && bs[i].lo == Offset(i, size) && bs[i].hi == Offset(i + 1, size)
  }

  lemma CutMore(bs: seq<Buffer>, b: Buffer, n: nat, arena: array<byte>, size: nat)
    requires n <= |bs| && Cut(bs, n, arena, size)
    ensures Cut(bs + [b], n, arena, size)
  {
    hide Offset;
    assert forall i :: 0 <= i < n ==> (bs + [b])[i] == bs[i];
  }

  lemma CutIsDisjoint(bs: seq<Buffer>, arena: array<byte>, size: nat)
    requires Cut(bs, |bs|, arena, size) && arena.Length == Offset(|bs|, size)
    ensures Disjoint(Nodes(bs), size)
  {
    hide Offset;
    forall b | b in Nodes(bs)
      ensures b.lo + size == b.hi <= b.arena.Length
    {
      var i :| 0 <= i < |bs| && bs[i] == b;
      NextOffset(i, size);
      Multiples(i + 1, |bs|, size);
    }
    forall b, c | b in Nodes(bs) && c in Nodes(bs) && b != c
      ensures b.hi <= c.lo || c.hi <= b.lo
    {
      var i :| 0 <= i < |bs| && bs[i] == b;
      var j :| 0 <= j < |bs| && bs[j] == c;
      if i < j { Multiples(i + 1, j, size); } else { Multiples(j + 1, i, size); }
    }
  }

  lemma OneArena(bs: seq<Buffer>, arena: array<byte>, size: nat)
    requires Cut(bs, |bs|, arena, size)
    ensures forall b :: b in Nodes(bs) ==> b.arena == arena
  {
  }

  lemma DisjointUnion(bs: set<Buffer>, cs: set<Buffer>, size: nat)
    requires Disjoint(bs, size) && Disjoint(cs, size)
    requires forall b, c :: b in bs && c in cs ==> b.arena != c.arena
    ensures Disjoint(bs + cs, size)
  {
  }

  lemma NextOffset(i: nat, size: nat)
    ensures Offset(i + 1, size) == Offset(i, size) + size
  {
  }

  lemma Multiples(i: nat, j: nat, size: nat)
    requires i <= j
    ensures Offset(i, size) <= Offset(j, size)
  {
  }

  /** The buffers cover their arena: every byte belongs to exactly one of them. */
  lemma CutCovers(bs: seq<Buffer>, arena: array<byte>, size: nat, at: nat)
    requires Cut(bs, |bs|, arena, size) && arena.Length == Offset(|bs|, size) && at < arena.Length
    ensures exists i :: 0 <= i < |bs| && bs[i].lo <= at < bs[i].hi
    ensures forall i, j :: 0 <= i < |bs| && 0 <= j < |bs| && bs[i].lo <= at < bs[i].hi && bs[j].lo <= at < bs[j].hi ==>
      i == j
  {
    hide Offset;
    var k := PieceOf(at, size, |bs|);
    assert bs[k].lo <= at < bs[k].hi;
    forall i | 0 <= i < |bs| && bs[i].lo <= at < bs[i].hi
      ensures i == k
    {
      if i < k { Multiples(i + 1, k, size); }
      if k < i { Multiples(k + 1, i, size); }
    }
  }

  lemma {:induction false} PieceOf(at: nat, size: nat, n: nat) returns (k: nat)
    requires at < Offset(n, size)
    ensures k < n && Offset(k, size) <= at < Offset(k + 1, size)
  {
    if Offset(n - 1, size) <= at {
      k := n - 1;
    } else {
      k := PieceOf(at, size, n - 1);
    }
  }

  class Pool {
    var free: Buffer?
    var max: nat
    var num: nat
    var size: nat
    ghost var freeBufs: seq<Buffer>
    ghost var out: set<Buffer>

    ghost predicate Valid()
      reads this, Nodes(freeBufs), out
    {
      && 0 < num && max == Offset(num, size)
      && Chain(free, freeBufs)
      && Nodes(freeBufs) !! out
      && Disjoint(Nodes(freeBufs) + out, size)
    }

    constructor (num: nat, size: nat)
      requires 0 < num
      ensures Valid() && this.num == num && this.size == size
      ensures |freeBufs| == num && out == {} && fresh(Nodes(freeBufs))
      ensures Cut(freeBufs, num, freeBufs[0].arena, size) && freeBufs[0].arena.Length == Offset(num, size)
    {
      this.num, this.size, max := num, size, Offset(num, size);
      free, freeBufs, out := null, [], {};
      new;
      Grow();
      CutIsDisjoint(freeBufs, freeBufs[0].arena, size);
      assert Nodes(freeBufs) + out == Nodes(freeBufs);
    }

    /** The arena is cut up to buffer b, the i-th, which gets its bytes next. */
    ghost predicate Growing(b: Buffer, i: nat, arena: array<byte>)
      reads this`free, this`freeBufs, this`size, Nodes(freeBufs)
    {
      && 0 < i == |freeBufs| && freeBufs[i - 1] == b
      && Chain(free, freeBufs) && Cut(freeBufs, i - 1, arena, size)
      && b.arena == freeBufs[0].arena == arena
    }

    method Grow()
      requires 0 < num && max == Offset(num, size)
      modifies this`free, this`freeBufs
      ensures |freeBufs| == num && Chain(free, freeBufs) && fresh(Nodes(freeBufs))
      ensures var arena := freeBufs[0].arena;
        fresh(arena) && arena.Length == max && Cut(freeBufs, num, arena, size)
    {
      hide Growing, Nodes, Chain, Cut, Offset;
      var arena := new byte[max];
      var b := First(arena);
      var i := 1;
      while i < num
        invariant 1 <= i <= num
        invariant Growing(b, i, arena) && b in Nodes(freeBufs) && fresh(Nodes(freeBufs))
      {
        b := Link(b, i, arena);
        i := i + 1;
      }
      Finish(b, i, arena);
    }

    method First(arena: array<byte>) returns (b: Buffer)
      modifies this`free, this`freeBufs
      ensures Growing(b, 1, arena) && Nodes(freeBufs) == {b} && fresh(b)
    {
      b := new Buffer(arena);
      free := b;
      freeBufs := [b];
    }

    /** One turn of the loop: the bytes of b, and the next buffer behind it. */
    method Link(b: Buffer, i: nat, ghost arena: array<byte>) returns (node: Buffer)
      requires Growing(b, i, arena)
      modifies b`lo, b`hi, b`next, this`freeBufs
      ensures Growing(node, i + 1, arena) && Nodes(freeBufs) == old(Nodes(freeBufs)) + {node} && fresh(node)
    {
      hide Cut, Offset;
      OnlyOnce(free, freeBufs);
      SetBytes(b, i);
      ghost var was := freeBufs;
      node := Extend(b);
      CutMore(was, node, i, arena, size);
    }

    /** The end: the bytes of the last buffer, and no next one. */
    method Finish(b: Buffer, i: nat, ghost arena: array<byte>)
      requires Growing(b, i, arena)
      modifies b`lo, b`hi, b`next
      ensures |freeBufs| == i && freeBufs[0].arena == arena && Chain(free, freeBufs) && Cut(freeBufs, i, arena, size)
    {
      OnlyOnce(free, freeBufs);
      SetBytes(b, i);
      hide Cut, Offset;
      b.next := null;
    }

    /** b.buf = buf[(i-1)*p.size : i*p.size], for the i-th buffer of the list. */
    method SetBytes(b: Buffer, i: nat)
      requires 0 < i <= |freeBufs| && b == freeBufs[i - 1] && b.arena == freeBufs[0].arena
      requires Cut(freeBufs, i - 1, b.arena, size) && forall k :: 0 <= k < i - 1 ==> freeBufs[k] != b
      modifies b`lo, b`hi
      ensures Cut(freeBufs, i, b.arena, size)
    {
      hide Offset;
      b.lo, b.hi := Offset(i - 1, size), Offset(i, size);
    }

    /** b.next = &bs[i], behind the last buffer of the list. */
    method Extend(b: Buffer) returns (node: Buffer)
      requires Chain(free, freeBufs) && freeBufs != [] && b == freeBufs[|freeBufs| - 1]
      modifies b`next, this`freeBufs
      ensures freeBufs == old(freeBufs) + [node] && fresh(node) && node.arena == b.arena
      ensures Chain(free, freeBufs) && Nodes(freeBufs) == old(Nodes(freeBufs)) + {node}
    {
      hide Cut, Offset, Disjoint;
      node := new Buffer(b.arena);
      ghost var was := freeBufs;
      InNodes(was);
      OnlyOnce(free, was);
      b.next := node;
      freeBufs := was + [node];
    }

    /** A buffer that is not in use: the first free one, or the first of a new arena. */
    method Get() returns (b: Buffer)
      requires Valid()
      modifies this`free, this`freeBufs, this`out
      ensures Valid() && out == old(out) + {b} && b !in old(out)
      ensures old(freeBufs) != [] ==> b == old(freeBufs)[0] && freeBufs == old(freeBufs)[1..]
      ensures old(freeBufs) == [] ==>
        && |freeBufs| == num - 1 && fresh(Nodes(freeBufs) + {b}) && fresh(b.arena)
        && b.arena.Length == Offset(num, size) && Cut([b] + freeBufs, num, b.arena, size)
    {
      hide Disjoint, Cut, Offset;
      if free == null {
        Refill();
      }
      b := free;
      free := b.next;
      ghost var was := freeBufs;
      freeBufs, out := freeBufs[1..], out + {b};
      Popped(was);
      assert [b] + freeBufs == was;
      assert Nodes(freeBufs) + out == Nodes(was) + old(out);
    }

    /** p.grow() when the free list is empty. */
    method Refill()
      requires Valid() && freeBufs == []
      modifies this`free, this`freeBufs
      ensures Valid() && |freeBufs| == num && fresh(Nodes(freeBufs))
      ensures fresh(freeBufs[0].arena) && freeBufs[0].arena.Length == Offset(num, size)
      ensures Cut(freeBufs, num, freeBufs[0].arena, size)
    {
      hide Cut, Offset, Disjoint, Chain;
      assert Nodes(freeBufs) + out == out;
      Grow();
      assert forall b :: b in out ==> b.arena == old(b.arena) != freeBufs[0].arena;
      CutIsDisjoint(freeBufs, freeBufs[0].arena, size);
      OneArena(freeBufs, freeBufs[0].arena, size);
      DisjointUnion(Nodes(freeBufs), out, size);
    }

    /** Back to the free list; the buffer must be in use. */
    method Put(b: Buffer)
      requires Valid() && b in out
      modifies this`free, this`freeBufs, this`out, b`next
      ensures Valid() && out == old(out) - {b} && freeBufs == [b] + old(freeBufs)
    {
      hide Disjoint, Chain;
      ghost var was := freeBufs;
      b.next := free;
      free := b;
      freeBufs, out := [b] + freeBufs, out - {b};
      Pushed(b, was);
      assert Nodes(freeBufs) + out == Nodes(was) + old(out);
    }
  }

  lemma Pushed(b: Buffer, bs: seq<Buffer>)
    requires b !in Nodes(bs) && Chain(b.next, bs)
    ensures Chain(b, [b] + bs) && Nodes([b] + bs) == Nodes(bs) + {b}
  {
    var all := [b] + bs;
    assert forall i :: 0 <= i < |bs| ==> bs[i] in Nodes(bs);
    assert forall i :: 0 < i < |all| ==> all[i] == bs[i - 1];
  }

  lemma Popped(bs: seq<Buffer>)
    requires bs != [] && Chain(bs[0], bs)
    ensures Chain(bs[0].next, bs[1..])
    ensures Nodes(bs) == Nodes(bs[1..]) + {bs[0]} && bs[0] !in Nodes(bs[1..])
  {
    var rest := bs[1..];
    forall i | 0 <= i < |rest|
      ensures rest[i].next == Following(rest, i)
    {
      assert rest[i] == bs[i + 1];
    }
    forall b | b in Nodes(bs)
      ensures b == bs[0] || b in Nodes(rest)
    {
      var i :| 0 <= i < |bs| && bs[i] == b;
      assert i > 0 ==> rest[i - 1] == b;
    }
  }
}
