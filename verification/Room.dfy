/** internal/comet/channel.go and room.go: a connection's signal queue, and the rooms' intrusive
    doubly-linked lists. Reading, writing and locking are left to the other models. */
module Rooms {
  import opened Basics
  import opened Protos

  class Channel {
    const key: string
    const ip: string
    var room: Room?
    var next: Channel?
    var prev: Channel?
    /** The buffer of the channel, and behind it the senders that wait for space. */
    var signal: seq<Signal>
    const cap: nat

    constructor (key: string, ip: string, svr: nat)
      ensures this.key == key && this.ip == ip && cap == svr
      ensures room == null && next == null && prev == null && signal == []
    {
      this.key, this.ip, cap := key, ip, svr;
      room, next, prev, signal := null, null, null, [];
    }

    method Push(p: Proto) returns (full: bool)
      modifies this`signal
      ensures full <==> |old(signal)| >= cap
      ensures signal == if full then old(signal) else old(signal) + [Message(p)]
    {
      full := |signal| >= cap;
      if !full {
        signal := signal + [Message(p)];
      }
    }

    method Close()
      modifies this`signal
      ensures signal == old(signal) + [Finish]
    {
      signal := signal + [Finish];
    }
  }

  ghost function Nodes(s: seq<Channel>): set<Channel> {
    set ch | ch in s
  }

  /** The neighbours of position i in a list. */
  ghost function Next(s: seq<Channel>, i: int): Channel? {
    if 0 <= i + 1 < |s| then s[i + 1] else null
  }

  ghost function Prev(s: seq<Channel>, i: int): Channel? {
    if 0 <= i - 1 < |s| then s[i - 1] else null
  }

  ghost predicate Distinct(s: seq<Channel>) {
    forall i, j :: 0 <= i < j < |s| ==> s[i] != s[j]
  }

  ghost predicate Linked(s: seq<Channel>)
    reads Nodes(s)`next, Nodes(s)`prev
  {
    forall i :: 0 <= i < |s| ==> s[i].next == Next(s, i) && s[i].prev == Prev(s, i)
  }

  function Without<T(==)>(s: seq<T>, x: T): seq<T> {
    if s == [] then [] else if s[0] == x then s[1..] else [s[0]] + Without(s[1..], x)
  }

  class Room {
    const id: string
    var head: Channel?
    var drop: bool
    var online: int

    /** The list from the head on. */
    ghost var members: seq<Channel>

    ghost predicate Valid()
      reads this, Nodes(members)`next, Nodes(members)`prev
    {
      && head == Next(members, -1)
      && Distinct(members) && Linked(members)
      && online == |members|
      && (drop ==> members == [])
    }

    lemma MembersAreDistinct()
      requires Valid()
      ensures Distinct(members)
    {
    }

    constructor (id: string)
      ensures this.id == id && Valid() && members == [] && !drop
    {
      this.id := id;
      head, drop, online, members := null, false, 0, [];
    }

    /** Links the channel in at the front, unless the room has been dropped. */
    method Put(ch: Channel) returns (dropped: bool)
      requires Valid() && ch !in members
      modifies this`head, this`online, this`members, ch`next, ch`prev, Nodes(members)`prev
      ensures Valid()
      ensures dropped == drop
      ensures members == if dropped then old(members) else [ch] + old(members)
      ensures dropped ==> ch.next == old(ch.next) && ch.prev == old(ch.prev)
    {
      dropped := drop;
      if !drop {
        ghost var was := members;
        if head != null {
          head.prev := ch;
        }
        ch.next := head;
        ch.prev := null;
        head := ch;
        online := online + 1;
        members := [ch] + members;
        forall i | 0 <= i < |members|
          ensures members[i].next == Next(members, i) && members[i].prev == Prev(members, i)
        {
          if 0 < i {
            assert members[i] == was[i - 1] && members[i] in Nodes(was);
          }
        }
      }
    }

    /** The pointer surgery of Del: the neighbours of position k bypass it. Without a position, for a
        channel that is in no list, the head is cleared. */
    method Unlink(ch: Channel, ghost k: Option<nat>)
      requires Valid()
      requires k.Some? ==> k.value < |members| && members[k.value] == ch
      requires k.None? ==> ch !in members && ch.next == null && ch.prev == null
      modifies this`head, Nodes(members)`next, Nodes(members)`prev, ch`next, ch`prev
      ensures k.Some? ==> head == if k.value == 0 then Next(members, 0) else members[0]
      ensures k.Some? ==> forall j :: 0 <= j < |members| && j != k.value ==>
        && members[j].next == (if j == k.value - 1 then Next(members, k.value) else Next(members, j))
        && members[j].prev == (if j == k.value + 1 then Prev(members, k.value) else Prev(members, j))
      ensures k.None? ==> head == null && Linked(members)
      ensures ch.next == null && ch.prev == null
    {
      assert forall j :: 0 <= j < |members| && Some(j) != k ==> members[j] != ch;
      if ch.next != null {
        ch.next.prev := ch.prev;
      }
      if ch.prev != null {
        ch.prev.next := ch.next;
      } else {
        head := ch.next;
      }
      ch.next := null;
      ch.prev := null;
    }

    /** Unlinks a member; the room is dropped when it was the last. For a channel that is in no list the
        head is cleared and a member counted out all the same. */
    method Del(ch: Channel) returns (dropped: bool)
      requires Valid() && (ch in members || (ch.next == null && ch.prev == null))
      modifies this`head, this`online, this`drop, this`members
      modifies Nodes(members)`next, Nodes(members)`prev, ch`next, ch`prev
      ensures dropped == drop && ch.next == null && ch.prev == null
      ensures ch in old(members) ==>
        Valid() && members == Without(old(members), ch) && ch !in members && drop == (members == [])
      ensures ch !in old(members) ==>
        && head == null && online == old(online) - 1 && drop == (online == 0)
        && members == old(members) && Linked(members)
    {
      hide Without, Distinct, Nodes, Next, Prev, Linked;
      ghost var was := members;
      ghost var k := Position(was, ch);
      if k.Some? {
        DelPrepared(was, k.value);
      }
      Unlink(ch, k);
      online := online - 1;
      drop := online == 0;
      if k.Some? {
        members := Without(members, ch);
        Relinked(was, k.value);
      }
      dropped := drop;
    }

    lemma DelPrepared(was: seq<Channel>, k: nat)
      requires k < |was| && Distinct(was)
      ensures Without(was, was[k]) == was[..k] + was[k + 1..]
      ensures was[k] !in was[..k] + was[k + 1..] && Distinct(was[..k] + was[k + 1..])
    {
      hide Without;
      WithoutAt(was, k);
      WithoutDistinct(was, k);
    }

    /** The remaining members are linked as the list without position k. */
    lemma Relinked(was: seq<Channel>, k: nat)
      requires k < |was| && members == was[..k] + was[k + 1..]
      requires head == if k == 0 then Next(was, 0) else was[0]
      requires forall j :: 0 <= j < |was| && j != k ==>
        && was[j].next == (if j == k - 1 then Next(was, k) else Next(was, j))
        && was[j].prev == (if j == k + 1 then Prev(was, k) else Prev(was, j))
      ensures Linked(members) && head == Next(members, -1)
    {
      hide Next, Prev;
      HeadIs(was);
      HeadIs(members);
      forall i | 0 <= i < |members|
        ensures members[i].next == Next(members, i) && members[i].prev == Prev(members, i)
      {
        Neighbours(was, k, i);
      }
    }

    /** Offers p once to every member, each of which may be full. */
    method Push(p: Proto)
      requires Valid()
      modifies Nodes(members)`signal
      ensures Valid()
      ensures forall ch :: ch in members && old(|ch.signal|) < ch.cap ==> ch.signal == old(ch.signal) + [Message(p)]
      ensures forall ch :: ch in members && old(|ch.signal|) >= ch.cap ==> ch.signal == old(ch.signal)
    {
      var ch := head;
      ghost var i := 0;
      while ch != null
        invariant 0 <= i <= |members| && ch == Next(members, i - 1) && Valid()
        invariant forall c :: c in members[..i] && old(|c.signal|) < c.cap ==> c.signal == old(c.signal) + [Message(p)]
        invariant forall c :: c in members[..i] && old(|c.signal|) >= c.cap ==> c.signal == old(c.signal)
        invariant forall c :: c in members[i..] ==> c.signal == old(c.signal)
        decreases |members| - i
      {
        InFrontOf(members, i);
        var _ := ch.Push(p);
        ch := ch.next;
        i := i + 1;
      }
      assert members[..i] == members;
    }

    /** Sends Finish once to every member. */
    method Close()
      requires Valid()
      modifies Nodes(members)`signal
      ensures Valid()
      ensures forall i :: 0 <= i < |members| ==> members[i].signal == old(members[i].signal) + [Finish]
    {
      var ch := head;
      ghost var i := 0;
      while ch != null
        invariant 0 <= i <= |members| && ch == Next(members, i - 1) && Valid()
        invariant forall j :: 0 <= j < i ==> members[j].signal == old(members[j].signal) + [Finish]
        invariant forall j :: i <= j < |members| ==> members[j].signal == old(members[j].signal)
        decreases |members| - i
      {
        assert ch == members[i] && ch in Nodes(members);
        ch.Close();
        ch := ch.next;
        i := i + 1;
      }
    }
  }

  lemma HeadIs(s: seq<Channel>)
    ensures Next(s, -1) == if s == [] then null else s[0]
    ensures s != [] ==> Next(s, 0) == if |s| == 1 then null else s[1]
  {
  }

  ghost function Position(s: seq<Channel>, ch: Channel): (k: Option<nat>)
    ensures k.Some? ==> k.value < |s| && s[k.value] == ch
    ensures k.None? ==> ch !in s
  {
    if ch in s then var k :| 0 <= k < |s| && s[k] == ch; Some(k) else None
  }

  /** The members before a position, the one there, and those behind it. */
  lemma InFrontOf(s: seq<Channel>, i: nat)
    requires i < |s| && Distinct(s)
    ensures s[i] in Nodes(s) && s[i] !in s[..i] && s[i] !in s[i + 1..]
    ensures s[..i + 1] == s[..i] + [s[i]] && s[i..] == [s[i]] + s[i + 1..]
  {
  }

  /** The neighbours of a position once position k is left out. */
  lemma Neighbours(was: seq<Channel>, k: nat, i: nat)
    requires k < |was| && i < |was| - 1
    ensures var now, j := was[..k] + was[k + 1..], if i < k then i else i + 1;
      && now[i] == was[j]
      && Next(now, i) == (if j == k - 1 then Next(was, k) else Next(was, j))
      && Prev(now, i) == (if j == k + 1 then Prev(was, k) else Prev(was, j))
  {
  }

  lemma {:induction false} WithoutAt(s: seq<Channel>, k: nat)
    requires k < |s| && Distinct(s)
    ensures Without(s, s[k]) == s[..k] + s[k + 1..]
    decreases k
  {
    if k != 0 {
      var t := s[1..];
      assert s[0] != s[k] && t[k - 1] == s[k];
      WithoutAt(t, k - 1);
      assert s[..k] == [s[0]] + t[..k - 1] && s[k + 1..] == t[k..];
    }
  }

  lemma WithoutDistinct(s: seq<Channel>, k: nat)
    requires k < |s| && Distinct(s)
    ensures s[k] !in s[..k] + s[k + 1..] && Distinct(s[..k] + s[k + 1..])
  {
  }
}
