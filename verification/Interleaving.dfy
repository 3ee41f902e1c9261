/** The lock-protected sections of Bucket.Put, ChangeRoom, Del and DelRoom
    (internal/comet/bucket.go) and of Room.Put and Del (internal/comet/room.go), taken one at
    a time in any order by any number of connections. A room is an object: several rooms with
    the same ID can exist, at most one of them registered in the bucket. */
module Interleaving {
  import opened Basics

  type Conn = nat

  /** members are the connections reachable from the head of the room's list. */
  datatype Room = Room(id: string, members: set<Conn>, online: int, drop: bool)

  /** What a connection does after leaving a room. */
  datatype Next = Join(room: nat) | Rest | Leave

  datatype Pc =
    | Fresh                                           // before Bucket.Put
    | Joining(room: nat, stale: Option<nat>)          // about to enter Room.Put; stale is Channel.Room
    | Idle(at: Option<nat>)                           // between calls; at is Channel.Room
    | Leaving(room: nat, next: Next)                  // about to enter Room.Del
    | Left(room: nat, emptied: bool, next: Next)      // Room.Del returned emptied
    | Refused(stale: Option<nat>)                     // Room.Put failed; Channel.Room still holds stale
    | Gone

  datatype State = State(objs: seq<Room>, registered: map<string, nat>, pcs: map<Conn, Pc>)
  {
    function At(c: Conn): Pc { if c in pcs then pcs[c] else Fresh }

    function Moved(c: Conn, pc: Pc): State { this.(pcs := pcs[c := pc]) }

    /** The room registered under id, which is created if there is none. */
    function Lookup(id: string): (State, nat) {
      if id in registered then (this, registered[id])
      else (this.(objs := objs + [Room(id, {}, 0, false)], registered := registered[id := |objs|]), |objs|)
    }

    /** Room.Del: unlinking a connection that is not in the list clears the head of the list. */
    function Unlinked(r: nat, c: Conn): Room
      requires r < |objs|
    {
      var room := objs[r];
      Room(room.id, if c in room.members then room.members - {c} else {}, room.online - 1, room.online - 1 == 0)
    }

    function Proceed(c: Conn, from: nat, next: Next): State {
      match next
      case Join(room) => Moved(c, Joining(room, Some(from)))
      case Rest => Moved(c, Idle(None))
      case Leave => Moved(c, Gone)
    }

    ghost predicate Registered(r: nat)
      requires r < |objs|
    {
      objs[r].id in registered && registered[objs[r].id] == r
    }

    ghost predicate Pending(c: Conn, r: nat) {
      At(c).Left? && At(c).room == r && At(c).emptied
    }

    ghost predicate LinkedIn(c: Conn, r: nat) {
      match At(c)
      case Idle(at) => at == Some(r)
      case Leaving(room, _) => room == r
      case _ => false
    }
  }

  datatype Action =
    | Put(c: Conn, id: string)         // Bucket.Put, map section
    | Link(c: Conn)                    // Room.Put
    | Change(c: Conn, id: string)      // ChangeRoom up to and including its map section
    | Close(c: Conn)                   // Bucket.Del, map section
    | Unlink(c: Conn)                  // Room.Del
    | Unregister(c: Conn)              // Bucket.DelRoom, map section
    | Continue(c: Conn)                // Room.Del returned false
    | Ignore(c: Conn)                  // the caller carries on after a failed join
    | Reread(c: Conn)                  // Room.Del reads drop again after releasing its lock

  ghost predicate Enabled(s: State, a: Action) {
    match a
    case Put(c, _) => s.At(c).Fresh?
    case Link(c) => s.At(c).Joining?
    case Change(c, _) => s.At(c).Idle?
    case Close(c) => s.At(c).Idle?
    case Unlink(c) => s.At(c).Leaving?
    case Unregister(c) => s.At(c).Left? && s.At(c).emptied
    case Continue(c) => s.At(c).Left? && !s.At(c).emptied
    case Ignore(c) => s.At(c).Refused?
    case Reread(c) => s.At(c).Left?
  }

  /** Every room that a program counter or the bucket refers to exists. */
  ghost predicate InRange(s: State) {
    && (forall id :: id in s.registered ==> s.registered[id] < |s.objs|)
    && (forall c :: c in s.pcs ==> PcInRange(s.pcs[c], |s.objs|))
  }

  ghost predicate PcInRange(pc: Pc, n: nat) {
    match pc
    case Joining(room, stale) => room < n && (stale.Some? ==> stale.value < n)
    case Idle(at) => at.Some? ==> at.value < n
    case Leaving(room, next) => room < n && (next.Join? ==> next.room < n)
    case Left(room, _, next) => room < n && (next.Join? ==> next.room < n)
    case Refused(stale) => stale.Some? ==> stale.value < n
    case _ => true
  }

  ghost function Apply(s: State, a: Action): State
    requires InRange(s) && Enabled(s, a)
  {
    match a
    case Put(c, id) =>
      if id == "" then s.Moved(c, Idle(None))
      else var (t, room) := s.Lookup(id); t.Moved(c, Joining(room, Some(room)))
    case Link(c) =>
      var Joining(r, stale) := s.At(c);
      var room := s.objs[r];
      if room.drop then s.Moved(c, Refused(stale))
      else
        var joined := room.(members := room.members + {c}, online := room.online + 1);
        s.(objs := s.objs[r := joined]).Moved(c, Idle(Some(r)))
    case Change(c, id) =>
      (match s.At(c).at
       case None =>
         if id == "" then s
         else var (t, room) := s.Lookup(id); t.Moved(c, Joining(room, None))
       case Some(from) =>
         if id == "" then s.Moved(c, Leaving(from, Rest))
         else var (t, room) := s.Lookup(id); t.Moved(c, Leaving(from, Join(room))))
    case Close(c) =>
      (match s.At(c).at
       case None => s.Moved(c, Gone)
       case Some(from) => s.Moved(c, Leaving(from, Leave)))
    case Unlink(c) =>
      var Leaving(r, next) := s.At(c);
      var room := s.Unlinked(r, c);
      s.(objs := s.objs[r := room]).Moved(c, Left(r, room.drop, next))
    case Unregister(c) =>
      var Left(r, _, next) := s.At(c);
      s.(registered := s.registered - {s.objs[r].id}).Proceed(c, r, next)
    case Continue(c) => s.Proceed(c, s.At(c).room, s.At(c).next)
    case Ignore(c) => s.Moved(c, Idle(s.At(c).stale))
    case Reread(c) =>
      var Left(r, _, next) := s.At(c);
      s.Moved(c, Left(r, s.objs[r].drop, next))
  }

  /** A room's list, counter and flag agree with its connections; it is registered as long as it is
      not dropped, and after that exactly while one DelRoom for it is pending. */
  ghost predicate RoomInv(s: State, r: nat)
    requires r < |s.objs|
  {
    var room := s.objs[r];
    && (forall c :: c in room.members <==> s.LinkedIn(c, r))
    && room.online == |room.members|
    && (room.drop ==> room.members == {})
    && (!room.drop ==> s.Registered(r))
    && (room.drop && s.Registered(r) <==> exists c :: s.Pending(c, r))
    && (forall c, d :: s.Pending(c, r) && s.Pending(d, r) ==> c == d)
  }

  ghost predicate Inv(s: State) {
    && InRange(s)
    && (forall id :: id in s.registered ==> s.objs[s.registered[id]].id == id)
    && (forall r :: 0 <= r < |s.objs| ==> RoomInv(s, r))
  }

  lemma LookupKeepsInv(s: State, id: string)
    requires Inv(s)
    ensures Inv(s.Lookup(id).0) && s.Lookup(id).1 < |s.Lookup(id).0.objs|
    ensures s.Lookup(id).0.pcs == s.pcs && |s.objs| <= |s.Lookup(id).0.objs|
  {
    var t := s.Lookup(id).0;
    if id !in s.registered {
      forall r | 0 <= r < |t.objs|
        ensures RoomInv(t, r)
      {
        if r < |s.objs| {
          assert RoomInv(s, r) && t.objs[r] == s.objs[r];
          assert t.Registered(r) <==> s.Registered(r);
          assert forall c :: t.Pending(c, r) <==> s.Pending(c, r);
          assert forall c :: t.LinkedIn(c, r) <==> s.LinkedIn(c, r);
        } else {
          assert forall c :: !t.Pending(c, r) && !t.LinkedIn(c, r) by {
            forall c
              ensures !t.Pending(c, r) && !t.LinkedIn(c, r)
            {
              assert c in s.pcs ==> PcInRange(s.pcs[c], |s.objs|);
            }
          }
        }
      }
    }
  }

  /** A connection moves between program points that mean the same for every room. */
  lemma MoveKeepsInv(s: State, c: Conn, pc: Pc)
    requires Inv(s) && PcInRange(pc, |s.objs|)
    requires forall r :: s.LinkedIn(c, r) <==> s.Moved(c, pc).LinkedIn(c, r)
    requires forall r :: !s.Pending(c, r) && !s.Moved(c, pc).Pending(c, r)
    ensures Inv(s.Moved(c, pc))
  {
    var t := s.Moved(c, pc);
    forall r | 0 <= r < |t.objs|
      ensures RoomInv(t, r)
    {
      assert RoomInv(s, r);
      assert t.Registered(r) <==> s.Registered(r);
      assert forall d :: t.Pending(d, r) <==> s.Pending(d, r);
      assert forall d :: t.LinkedIn(d, r) <==> s.LinkedIn(d, r);
    }
  }

  lemma LinkKeepsInv(s: State, c: Conn)
    requires Inv(s) && Enabled(s, Link(c))
    ensures Inv(Apply(s, Link(c)))
  {
    var Joining(r0, stale) := s.At(c);
    var room := s.objs[r0];
    if room.drop {
      MoveKeepsInv(s, c, Refused(stale));
    } else {
      var t := Apply(s, Link(c));
      forall r | 0 <= r < |t.objs|
        ensures RoomInv(t, r)
      {
        assert RoomInv(s, r);
        assert t.Registered(r) <==> s.Registered(r);
        assert forall d :: t.Pending(d, r) <==> s.Pending(d, r);
        assert forall d :: t.LinkedIn(d, r) <==> s.LinkedIn(d, r) || (d == c && r == r0);
      }
    }
  }

  lemma UnlinkKeepsInv(s: State, c: Conn)
    requires Inv(s) && Enabled(s, Unlink(c))
    ensures Inv(Apply(s, Unlink(c)))
  {
    var Leaving(r0, next) := s.At(c);
    var t := Apply(s, Unlink(c));
    assert RoomInv(s, r0) && s.LinkedIn(c, r0);
    assert t.Pending(c, r0) <==> t.objs[r0].drop;
    forall r | 0 <= r < |t.objs|
      ensures RoomInv(t, r)
    {
      assert RoomInv(s, r);
      assert t.Registered(r) <==> s.Registered(r);
      assert forall d :: t.LinkedIn(d, r) <==> s.LinkedIn(d, r) && !(d == c && r == r0);
      assert forall d :: t.Pending(d, r) <==> s.Pending(d, r) || (d == c && r == r0 && t.objs[r0].drop);
    }
  }

  lemma UnregisterKeepsInv(s: State, c: Conn)
    requires Inv(s) && Enabled(s, Unregister(c))
    ensures Inv(Apply(s, Unregister(c)))
  {
    var Left(r0, _, next) := s.At(c);
    var t := Apply(s, Unregister(c));
    assert RoomInv(s, r0) && s.Pending(c, r0);
    forall r | 0 <= r < |t.objs|
      ensures RoomInv(t, r)
    {
      assert RoomInv(s, r);
      assert t.Registered(r) <==> s.Registered(r) && r != r0;
      assert forall d :: t.LinkedIn(d, r) <==> s.LinkedIn(d, r);
      assert forall d :: t.Pending(d, r) <==> s.Pending(d, r) && d != c;
    }
  }

  /** A second look at the flag finds what was decided inside the lock, and a connection that carries on
      after a failed join points at no room. */
  ghost predicate Harmless(s: State, a: Action)
    requires InRange(s) && Enabled(s, a)
  {
    match a
    case Reread(c) => s.objs[s.At(c).room].drop == s.At(c).emptied
    case Ignore(c) => s.At(c).stale == None
    case _ => true
  }

  /** A second look keeps the rooms consistent exactly if it finds what was decided. */
  lemma RereadKeepsInv(s: State, c: Conn)
    requires Inv(s) && Enabled(s, Reread(c))
    ensures Inv(Apply(s, Reread(c))) <==> s.objs[s.At(c).room].drop == s.At(c).emptied
  {
    var Left(r, emptied, next) := s.At(c);
    var t := Apply(s, Reread(c));
    assert RoomInv(s, r);
    if s.objs[r].drop == emptied {
      assert t.pcs == s.pcs;
    } else {
      assert emptied ==> s.Pending(c, r);
      assert t.Pending(c, r) && !s.Pending(c, r);
      assert t.Registered(r) <==> s.Registered(r);
      assert forall d :: s.Pending(d, r) ==> t.Pending(d, r) && d != c;
      assert !RoomInv(t, r);
    }
  }

  /** Carrying on after a failed join keeps the rooms consistent exactly if there is no stale pointer. */
  lemma IgnoreKeepsInv(s: State, c: Conn)
    requires Inv(s) && Enabled(s, Ignore(c))
    ensures Inv(Apply(s, Ignore(c))) <==> s.At(c).stale == None
  {
    var t := Apply(s, Ignore(c));
    if s.At(c).stale == None {
      MoveKeepsInv(s, c, Idle(None));
    } else {
      var r := s.At(c).stale.value;
      assert RoomInv(s, r);
      assert t.LinkedIn(c, r) && !s.LinkedIn(c, r);
      assert !RoomInv(t, r);
    }
  }

  lemma StepKeepsInv(s: State, a: Action)
    requires Inv(s) && Enabled(s, a)
    ensures Inv(Apply(s, a)) <==> Harmless(s, a)
  {
    match a
    case Put(c, id) =>
      if id == "" {
        MoveKeepsInv(s, c, Idle(None));
      } else {
        LookupKeepsInv(s, id);
        var (t, room) := s.Lookup(id);
        MoveKeepsInv(t, c, Joining(room, Some(room)));
      }
    case Link(c) => LinkKeepsInv(s, c);
    case Change(c, id) =>
      if id == "" {
        if s.At(c).at.Some? {
          MoveKeepsInv(s, c, Leaving(s.At(c).at.value, Rest));
        }
      } else {
        LookupKeepsInv(s, id);
        var (t, room) := s.Lookup(id);
        MoveKeepsInv(t, c, if s.At(c).at.Some? then Leaving(s.At(c).at.value, Join(room)) else Joining(room, None));
      }
    case Close(c) =>
      MoveKeepsInv(s, c, if s.At(c).at.Some? then Leaving(s.At(c).at.value, Leave) else Gone);
    case Unlink(c) => UnlinkKeepsInv(s, c);
    case Unregister(c) => UnregisterKeepsInv(s, c);
    case Continue(c) =>
      MoveKeepsInv(s, c, s.Proceed(c, s.At(c).room, s.At(c).next).At(c));
    case Reread(c) => RereadKeepsInv(s, c);
    case Ignore(c) => IgnoreKeepsInv(s, c);
  }

  ghost predicate Step(s: State, a: Action, t: State) {
    InRange(s) && Enabled(s, a) && t == Apply(s, a)
  }

  ghost predicate Run(states: seq<State>, actions: seq<Action>) {
    && |states| == |actions| + 1
    && states[0] == State([], map[], map[])
    && forall i :: 0 <= i < |actions| ==> Step(states[i], actions[i], states[i + 1])
  }

  /** Every second look and every failed join before state n is harmless. */
  ghost predicate Guarded(states: seq<State>, actions: seq<Action>, n: nat)
    requires Run(states, actions) && n < |states|
  {
    forall i :: 0 <= i < n ==> Step(states[i], actions[i], states[i + 1]) && Harmless(states[i], actions[i])
  }

  lemma {:induction false} RunKeepsInv(states: seq<State>, actions: seq<Action>, i: nat)
    requires Run(states, actions) && i < |states| && Guarded(states, actions, i)
    ensures Inv(states[i])
  {
    if i != 0 {
      RunKeepsInv(states, actions, i - 1);
      assert Step(states[i - 1], actions[i - 1], states[i]);
      StepKeepsInv(states[i - 1], actions[i - 1]);
    }
  }

  /** The rooms are consistent in all states of a run exactly if every second look at the flag and every
      ignored failure in it is harmless. */
  lemma ConsistentExactlyIfGuarded(states: seq<State>, actions: seq<Action>)
    requires Run(states, actions)
    ensures Guarded(states, actions, |actions|) <==> forall i :: 0 <= i < |states| ==> Inv(states[i])
  {
    hide Inv, Harmless, Apply, Enabled, InRange;
    if Guarded(states, actions, |actions|) {
      forall i | 0 <= i < |states|
        ensures Inv(states[i])
      {
        RunKeepsInv(states, actions, i);
      }
    }
    if forall i :: 0 <= i < |states| ==> Inv(states[i]) {
      forall i | 0 <= i < |actions|
        ensures Step(states[i], actions[i], states[i + 1]) && Harmless(states[i], actions[i])
      {
        assert Inv(states[i]) && Inv(states[i + 1]);
        StepKeepsInv(states[i], actions[i]);
      }
    }
  }

  /** A room with a linked member is the one registered under its ID, and knows how many members it has. */
  lemma MembersAreReachable(states: seq<State>, actions: seq<Action>, i: nat, r: nat)
    requires Run(states, actions) && i < |states| && Guarded(states, actions, i) && r < |states[i].objs|
    ensures states[i].objs[r].members != {} ==> states[i].Registered(r) && !states[i].objs[r].drop
    ensures states[i].objs[r].online == |states[i].objs[r].members|
    ensures forall c :: c in states[i].objs[r].members <==> states[i].LinkedIn(c, r)
  {
    RunKeepsInv(states, actions, i);
    assert RoomInv(states[i], r);
  }

  /** A dropped room is still registered exactly while one DelRoom for it is pending. */
  lemma DroppedHasOneDelRoom(states: seq<State>, actions: seq<Action>, i: nat, r: nat)
    requires Run(states, actions) && i < |states| && Guarded(states, actions, i) && r < |states[i].objs|
    requires states[i].objs[r].drop
    ensures states[i].Registered(r) <==> exists c :: states[i].Pending(c, r)
    ensures forall c, d :: states[i].Pending(c, r) && states[i].Pending(d, r) ==> c == d
  {
    RunKeepsInv(states, actions, i);
    assert RoomInv(states[i], r);
  }

  lemma StepKeepsDropped(s: State, a: Action, r: nat)
    requires Inv(s) && Enabled(s, a)
    requires r < |s.objs| && s.objs[r].drop
    ensures r < |Apply(s, a).objs| && Apply(s, a).objs[r].drop
  {
    assert RoomInv(s, r);
    if a.Unlink? {
      assert s.LinkedIn(a.c, s.At(a.c).room);
    }
  }

  /** A dropped room stays dropped and empty for ever. */
  lemma {:induction false} DroppedStaysEmpty(states: seq<State>, actions: seq<Action>, i: nat, j: nat, r: nat)
    requires Run(states, actions) && i <= j < |states| && Guarded(states, actions, j)
    requires r < |states[i].objs| && states[i].objs[r].drop
    ensures r < |states[j].objs| && states[j].objs[r].drop && states[j].objs[r].members == {}
    decreases j
  {
    hide Inv, Apply, Enabled, RoomInv;
    if i != j {
      DroppedStaysEmpty(states, actions, i, j - 1, r);
      RunKeepsInv(states, actions, j - 1);
      assert Step(states[j - 1], actions[j - 1], states[j]);
      StepKeepsDropped(states[j - 1], actions[j - 1], r);
    }
    RunKeepsInv(states, actions, j);
    DroppedIsEmpty(states[j], r);
  }

  lemma DroppedIsEmpty(s: State, r: nat)
    requires Inv(s) && r < |s.objs| && s.objs[r].drop
    ensures s.objs[r].members == {}
  {
    assert RoomInv(s, r);
  }

  /** The state after the actions, one after the other, if each of them is possible in its turn. */
  ghost function After(s: State, actions: seq<Action>): Option<State> {
    if actions == [] then Some(s)
    else
      var n := |actions| - 1;
      match After(s, actions[..n])
      case None => None
      case Some(t) => if InRange(t) && Enabled(t, actions[n]) then Some(Apply(t, actions[n])) else None
  }

  lemma Then(s: State, actions: seq<Action>, t: State, a: Action)
    requires After(s, actions) == Some(t) && InRange(t) && Enabled(t, a)
    ensures After(s, actions + [a]) == Some(Apply(t, a))
  {
    assert (actions + [a])[..|actions|] == actions;
  }

  lemma {:induction false} Thus(s: State, a: seq<Action>, t: State, b: seq<Action>)
    requires After(s, a) == Some(t)
    ensures After(s, a + b) == After(t, b)
    decreases |b|
  {
    hide InRange, Enabled, Apply;
    if b == [] {
      assert a + b == a;
    } else {
      var n := |b| - 1;
      Thus(s, a, t, b[..n]);
      assert (a + b)[..|a| + n] == a + b[..n];
    }
  }

  /** A room that is registered under id, or would be created, and is not dropped. */
  ghost predicate Joinable(s: State, id: string) {
    id != "" && (id in s.registered ==> s.registered[id] < |s.objs| && !s.objs[s.registered[id]].drop)
  }

  /** From s to t connection c has been added to the room registered under id, which is new if there was
      none, and nothing else has changed. */
  ghost predicate Joined(s: State, t: State, c: Conn, id: string) {
    && id in t.registered && t.registered[id] < |t.objs|
    && var r := t.registered[id];
      && t.At(c) == Idle(Some(r))
      && (if id in s.registered then t.registered == s.registered && |t.objs| == |s.objs|
          else t.registered == s.registered[id := |s.objs|] && |t.objs| == |s.objs| + 1)
      && var before := if id in s.registered then s.objs[r] else Room(id, {}, 0, false);
        && t.objs[r] == Room(before.id, before.members + {c}, before.online + 1, false)
        && (forall q :: 0 <= q < |s.objs| && q != r ==> t.objs[q] == s.objs[q])
        && (forall d :: d != c ==> t.At(d) == s.At(d))
  }

  lemma LinkAlone(s: State, c: Conn, id: string, stale: Option<nat>, u: State)
    requires Inv(s) && Joinable(s, id) && (stale.Some? ==> stale.value < |s.Lookup(id).0.objs|)
    requires u == s.Lookup(id).0.Moved(c, Joining(s.Lookup(id).1, stale))
    ensures InRange(u) && Enabled(u, Link(c)) && Joined(s, Apply(u, Link(c)), c, id)
  {
  }

  /** Bucket.Put alone: the connection is a member of the registered room it asked for. */
  lemma PutAlone(s: State, c: Conn, id: string) returns (t: State)
    requires Inv(s) && s.At(c) == Fresh && (id != "" ==> Joinable(s, id))
    ensures After(s, if id == "" then [Put(c, id)] else [Put(c, id), Link(c)]) == Some(t)
    ensures if id == "" then t == s.Moved(c, Idle(None)) else Joined(s, t, c, id)
  {
    hide Inv, Joined;
    InvRange(s);
    t := Apply(s, Put(c, id));
    Then(s, [], s, Put(c, id));
    assert [] + [Put(c, id)] == [Put(c, id)];
    if id != "" {
      LinkAlone(s, c, id, Some(s.Lookup(id).1), t);
      Then(s, [Put(c, id)], t, Link(c));
      t := Apply(t, Link(c));
      assert [Put(c, id)] + [Link(c)] == [Put(c, id), Link(c)];
    }
  }

  lemma InvRange(s: State)
    requires Inv(s)
    ensures InRange(s)
  {
  }

  /** ChangeRoom alone, of a connection in no room. */
  lemma JoinAlone(s: State, c: Conn, id: string) returns (t: State)
    requires Inv(s) && s.At(c) == Idle(None) && (id != "" ==> Joinable(s, id))
    ensures After(s, if id == "" then [Change(c, id)] else [Change(c, id), Link(c)]) == Some(t)
    ensures if id == "" then t == s else Joined(s, t, c, id)
  {
    hide Inv, Joined;
    InvRange(s);
    t := Apply(s, Change(c, id));
    Then(s, [], s, Change(c, id));
    assert [] + [Change(c, id)] == [Change(c, id)];
    if id != "" {
      LinkAlone(s, c, id, None, t);
      Then(s, [Change(c, id)], t, Link(c));
      t := Apply(t, Link(c));
      assert [Change(c, id)] + [Link(c)] == [Change(c, id), Link(c)];
    }
  }

  /** What a connection does to leave a room: Room.Del, whose result is read after the lock is released, and
      DelRoom if the room is empty. */
  ghost function Departure(s: State, c: Conn, from: nat): seq<Action>
    requires from < |s.objs|
  {
    [Unlink(c), Reread(c), if s.objs[from].members == {c} then Unregister(c) else Continue(c)]
  }

  /** The room without c; it is dropped and unregistered exactly if c was the last member. */
  ghost function Departed(s: State, c: Conn, from: nat): State
    requires from < |s.objs|
  {
    var room := s.objs[from];
    var last := room.members == {c};
    s.(objs := s.objs[from := Room(room.id, room.members - {c}, room.online - 1, last)],
       registered := if last then s.registered - {room.id} else s.registered)
  }

  lemma DepartAlone(s: State, c: Conn, from: nat, next: Next) returns (t: State)
    requires Inv(s) && s.At(c) == Leaving(from, next)
    ensures from < |s.objs| && After(s, Departure(s, c, from)) == Some(t)
    ensures t == Departed(s, c, from).Proceed(c, from, next) && Inv(t)
  {
    hide Inv;
    InvRange(s);
    LeavesRoom(s, c, from, next);
    var t1 := Apply(s, Unlink(c));
    StepKeepsInv(s, Unlink(c));
    InvRange(t1);
    var t2 := Apply(t1, Reread(c));
    StepKeepsInv(t1, Reread(c));
    InvRange(t2);
    assert t2.pcs == t1.pcs && t2 == t1;
    var a := if s.objs[from].members == {c} then Unregister(c) else Continue(c);
    t := Apply(t2, a);
    StepKeepsInv(t2, a);
    Then(s, [], s, Unlink(c));
    assert [] + [Unlink(c)] == [Unlink(c)];
    Then(s, [Unlink(c)], t1, Reread(c));
    Then(s, [Unlink(c)] + [Reread(c)], t2, a);
    assert [Unlink(c)] + [Reread(c)] + [a] == Departure(s, c, from);
    MovedTwice(s, c, Left(from, s.objs[from].members == {c}, next), Idle(None));
  }

  lemma LeavesRoom(s: State, c: Conn, from: nat, next: Next)
    requires Inv(s) && s.At(c) == Leaving(from, next)
    ensures from < |s.objs| && c in s.objs[from].members
    ensures s.objs[from].online - 1 == 0 <==> s.objs[from].members == {c}
  {
    assert RoomInv(s, from) && s.LinkedIn(c, from);
    var rest := s.objs[from].members - {c};
    assert rest + {c} == s.objs[from].members;
    assert |s.objs[from].members| == |rest| + 1;
    assert rest == {} <==> s.objs[from].members == {c};
  }

  lemma MovedTwice(s: State, c: Conn, pc: Pc, next: Pc)
    ensures s.Moved(c, pc).Moved(c, next) == s.Moved(c, next)
  {
    assert s.pcs[c := pc][c := next] == s.pcs[c := next];
  }

  /** A connection starts to leave its room. */
  lemma StartsLeaving(s: State, c: Conn, from: nat, gone: bool) returns (u: State)
    requires Inv(s) && s.At(c) == Idle(Some(from))
    ensures u == s.Moved(c, Leaving(from, if gone then Leave else Rest)) && Inv(u) && from < |s.objs|
    ensures After(s, [if gone then Close(c) else Change(c, "")]) == Some(u)
  {
    hide Inv;
    InvRange(s);
    var a := if gone then Close(c) else Change(c, "");
    u := Apply(s, a);
    StepKeepsInv(s, a);
    Then(s, [], s, a);
    assert [] + [a] == [a];
  }

  /** ChangeRoom to no room, and Bucket.Del, alone: the connection is out of its room. */
  lemma LeaveAlone(s: State, c: Conn, from: nat, gone: bool) returns (t: State)
    requires Inv(s) && s.At(c) == Idle(Some(from))
    ensures from < |s.objs|
    ensures After(s, [if gone then Close(c) else Change(c, "")] + Departure(s, c, from)) == Some(t)
    ensures t == Departed(s, c, from).Moved(c, if gone then Gone else Idle(None)) && Inv(t)
  {
    hide Inv, After, Departure, Apply, Enabled;
    var next := if gone then Leave else Rest;
    var u := StartsLeaving(s, c, from, gone);
    t := DepartAlone(u, c, from, next);
    SameDeparture(s, c, from, Leaving(from, next));
    Thus(s, [if gone then Close(c) else Change(c, "")], u, Departure(s, c, from));
    MovedTwice(Departed(s, c, from), c, Leaving(from, next), if gone then Gone else Idle(None));
  }

  lemma SameDeparture(s: State, c: Conn, from: nat, pc: Pc)
    requires from < |s.objs|
    ensures Departure(s.Moved(c, pc), c, from) == Departure(s, c, from)
    ensures Departed(s.Moved(c, pc), c, from) == Departed(s, c, from).Moved(c, pc)
  {
  }

  /** The connection is the only member of the room it asks for. */
  ghost predicate RejoinsAlone(s: State, c: Conn, from: nat, id: string) {
    from < |s.objs| && s.objs[from].members == {c} && id in s.registered && s.registered[id] == from
  }

  lemma StartsMoving(s: State, c: Conn, from: nat, id: string) returns (u: State)
    requires Inv(s) && s.At(c) == Idle(Some(from)) && Joinable(s, id)
    ensures var (l, room) := s.Lookup(id);
      u == l.Moved(c, Leaving(from, Join(room))) && Inv(u) && Inv(l) && room < |l.objs|
    ensures After(s, [Change(c, id)]) == Some(u) && from < |s.objs|
  {
    hide Inv;
    InvRange(s);
    LookupKeepsInv(s, id);
    u := Apply(s, Change(c, id));
    StepKeepsInv(s, Change(c, id));
    Then(s, [], s, Change(c, id));
    assert [] + [Change(c, id)] == [Change(c, id)];
  }

  /** ChangeRoom alone, from one room to another: the connection ends up in the room registered under the ID
      that it asked for and in no other, unless it is the only member of that very room. */
  lemma MoveAlone(s: State, c: Conn, from: nat, id: string) returns (t: State)
    requires Inv(s) && s.At(c) == Idle(Some(from)) && Joinable(s, id)
    ensures from < |s.objs|
    ensures After(s, [Change(c, id)] + Departure(s, c, from) + [Link(c)]) == Some(t)
    ensures RejoinsAlone(s, c, from, id) ==> t == Departed(s, c, from).Moved(c, Refused(Some(from)))
    ensures !RejoinsAlone(s, c, from, id) ==> Joined(Departed(s, c, from).Moved(c, Idle(None)), t, c, id)
  {
    hide Inv, After, Departure, Departed, Joined, Joinable, RejoinsAlone, Apply, Enabled, InRange;
    var u := StartsMoving(s, c, from, id);
    var (l, room) := s.Lookup(id);
    SameDeparture(l, c, from, Leaving(from, Join(room)));
    SameMembers(s, c, from, id);
    var v := DepartAlone(u, c, from, Join(room));
    Thus(s, [Change(c, id)], u, Departure(s, c, from));
    MovedTwice(Departed(l, c, from), c, Leaving(from, Join(room)), Joining(room, Some(from)));
    if RejoinsAlone(s, c, from, id) {
      t := RejoinRefused(s, c, from, id, v);
    } else {
      var d := LeaveAlone(s, c, from, false);
      Commute(s, c, from, id, d);
      LinkAlone(d, c, id, Some(from), v);
      t := Apply(v, Link(c));
    }
    Then(s, [Change(c, id)] + Departure(s, c, from), v, Link(c));
  }

  lemma SameMembers(s: State, c: Conn, from: nat, id: string)
    requires from < |s.objs|
    ensures Departure(s.Lookup(id).0, c, from) == Departure(s, c, from)
  {
  }

  lemma RejoinRefused(s: State, c: Conn, from: nat, id: string, v: State) returns (t: State)
    requires RejoinsAlone(s, c, from, id) && Inv(v)
    requires v == Departed(s.Lookup(id).0, c, from).Moved(c, Joining(s.Lookup(id).1, Some(from)))
    ensures InRange(v) && Enabled(v, Link(c)) && t == Apply(v, Link(c))
    ensures t == Departed(s, c, from).Moved(c, Refused(Some(from)))
  {
    hide Inv;
    InvRange(v);
    t := Apply(v, Link(c));
    MovedTwice(Departed(s, c, from), c, Joining(from, Some(from)), Refused(Some(from)));
  }

  /** Unless the connection is the only member of the room it asks for, finding that room before leaving the
      old one is the same as finding it afterwards. */
  lemma Commute(s: State, c: Conn, from: nat, id: string, d: State)
    requires Inv(s) && s.At(c) == Idle(Some(from)) && Joinable(s, id) && from < |s.objs|
    requires !RejoinsAlone(s, c, from, id) && d == Departed(s, c, from).Moved(c, Idle(None))
    ensures Joinable(d, id) && from < |d.Lookup(id).0.objs|
    ensures var (l, room) := s.Lookup(id);
      Departed(l, c, from).Moved(c, Joining(room, Some(from)))
      == d.Lookup(id).0.Moved(c, Joining(d.Lookup(id).1, Some(from)))
  {
    var (l, room) := s.Lookup(id);
    assert RoomInv(s, from) && s.LinkedIn(c, from);
    assert s.Registered(from);
    var fid := s.objs[from].id;
    MovedTwice(Departed(s, c, from), c, Idle(None), Joining(room, Some(from)));
    if id !in s.registered {
      var x := Departed(s, c, from).objs[from];
      assert (s.objs + [Room(id, {}, 0, false)])[from := x] == s.objs[from := x] + [Room(id, {}, 0, false)];
      assert s.registered[id := |s.objs|] - {fid} == (s.registered - {fid})[id := |s.objs|];
    }
  }

  /** Bucket.Del alone, of a connection in no room. */
  lemma CloseAlone(s: State, c: Conn)
    requires Inv(s) && s.At(c) == Idle(None)
    ensures After(s, [Close(c)]) == Some(s.Moved(c, Gone))
  {
    hide Inv;
    InvRange(s);
    Then(s, [], s, Close(c));
    assert [] + [Close(c)] == [Close(c)];
  }

  ghost predicate NeverIgnores(actions: seq<Action>) {
    forall i :: 0 <= i < |actions| ==> !actions[i].Ignore?
  }

  ghost predicate NeverRereads(actions: seq<Action>) {
    forall i :: 0 <= i < |actions| ==> !actions[i].Reread?
  }

  lemma ApplyInRange(s: State, a: Action)
    requires InRange(s) && Enabled(s, a)
    ensures InRange(Apply(s, a))
  {
    assert |s.objs| <= |Apply(s, a).objs|;
  }

  lemma Start() returns (states: seq<State>, actions: seq<Action>)
    ensures Run(states, actions) && states == [State([], map[], map[])] && actions == []
    ensures InRange(states[0]) && NeverIgnores(actions) && NeverRereads(actions)
  {
    states, actions := [State([], map[], map[])], [];
  }

  /** A step appended to a run. */
  lemma Extend(states: seq<State>, actions: seq<Action>, a: Action)
    returns (moreStates: seq<State>, moreActions: seq<Action>)
    requires Run(states, actions) && |states| == |actions| + 1
    requires InRange(states[|actions|]) && Enabled(states[|actions|], a)
    ensures Run(moreStates, moreActions) && |moreStates| == |moreActions| + 1
    ensures moreStates[|moreActions|] == Apply(states[|actions|], a) && InRange(moreStates[|moreActions|])
    ensures NeverIgnores(actions) && !a.Ignore? ==> NeverIgnores(moreActions)
    ensures NeverRereads(actions) && !a.Reread? ==> NeverRereads(moreActions)
  {
    var t := Apply(states[|actions|], a);
    ApplyInRange(states[|actions|], a);
    moreStates, moreActions := states + [t], actions + [a];
    forall i | 0 <= i < |moreActions|
      ensures Step(moreStates[i], moreActions[i], moreStates[i + 1])
    {
      if i < |actions| {
        assert Step(states[i], actions[i], states[i + 1]);
      }
    }
  }

  lemma TwoInRoom() returns (states: seq<State>, actions: seq<Action>)
    ensures Run(states, actions) && |states| == |actions| + 1 && NeverIgnores(actions)
    ensures InRange(states[|actions|])
    ensures NeverRereads(actions)
    ensures states[|actions|] == State(
      [Room("a", {1, 2}, 2, false)], map["a" := 0], map[1 := Idle(Some(0)), 2 := Idle(Some(0))])
  {
    hide Run, InRange;
    states, actions := Start();
    var s0 := states[|actions|];
    var s1 := State([Room("a", {}, 0, false)], map["a" := 0], map[1 := Joining(0, Some(0))]);
    assert s1 == Apply(s0, Put(1, "a"));
    states, actions := Extend(states, actions, Put(1, "a"));
    var s2 := s1.(objs := [Room("a", {1}, 1, false)]).Moved(1, Idle(Some(0)));
    assert {} + {1} == {1} && s1.objs[0 := Room("a", {1}, 1, false)] == s2.objs;
    assert s2 == Apply(s1, Link(1));
    states, actions := Extend(states, actions, Link(1));
    var s3 := s2.Moved(2, Joining(0, Some(0)));
    assert s3 == Apply(s2, Put(2, "a"));
    states, actions := Extend(states, actions, Put(2, "a"));
    var s4 := s3.(objs := [Room("a", {1, 2}, 2, false)]).Moved(2, Idle(Some(0)));
    assert {1} + {2} == {1, 2} && s3.objs[0 := Room("a", {1, 2}, 2, false)] == s4.objs;
    assert s4 == Apply(s3, Link(2));
    states, actions := Extend(states, actions, Link(2));
    assert s4 == State([Room("a", {1, 2}, 2, false)], map["a" := 0], map[1 := Idle(Some(0)), 2 := Idle(Some(0))]);
  }

  lemma TwoLeaversSeeDrop() returns (states: seq<State>, actions: seq<Action>)
    ensures Run(states, actions) && |states| == |actions| + 1 && NeverIgnores(actions)
    ensures InRange(states[|actions|])
    ensures states[|actions|] == State(
      [Room("a", {}, 0, true)], map["a" := 0], map[1 := Left(0, true, Leave), 2 := Left(0, true, Leave)])
  {
    hide Run, InRange;
    states, actions := TwoInRoom();
    var s4 := states[|actions|];
    var s5 := s4.Moved(1, Leaving(0, Leave));
    assert s5 == Apply(s4, Close(1));
    states, actions := Extend(states, actions, Close(1));
    var s6 := s5.Moved(2, Leaving(0, Leave));
    assert s6 == Apply(s5, Close(2));
    states, actions := Extend(states, actions, Close(2));
    var s7 := s6.(objs := [Room("a", {2}, 1, false)]).Moved(1, Left(0, false, Leave));
    assert {1, 2} - {1} == {2} && s6.objs[0 := Room("a", {2}, 1, false)] == s7.objs;
    assert s7 == Apply(s6, Unlink(1));
    states, actions := Extend(states, actions, Unlink(1));
    var s8 := s7.(objs := [Room("a", {}, 0, true)]).Moved(2, Left(0, true, Leave));
    assert {2} - {2} == {} && s7.objs[0 := Room("a", {}, 0, true)] == s8.objs;
    assert s8 == Apply(s7, Unlink(2));
    states, actions := Extend(states, actions, Unlink(2));
    var s9 := s8.Moved(1, Left(0, true, Leave));
    assert s9 == Apply(s8, Reread(1));
    states, actions := Extend(states, actions, Reread(1));
    assert s9 == State(
      [Room("a", {}, 0, true)], map["a" := 0], map[1 := Left(0, true, Leave), 2 := Left(0, true, Leave)]);
  }

  /** The code as it stands reads drop again after unlocking. Two leavers then both see the room
      dropped, and the slower DelRoom unregisters the room's successor with a member in it. */
  lemma RereadLosesRoom() returns (states: seq<State>, actions: seq<Action>)
    ensures Run(states, actions) && |states| == |actions| + 1 && NeverIgnores(actions)
    ensures InRange(states[|actions|])
    ensures var s := states[|actions|];
      1 < |s.objs| && s.objs[1].members == {3} && !s.objs[1].drop && !s.Registered(1)
  {
    hide Run, InRange;
    states, actions := TwoLeaversSeeDrop();
    var s9 := states[|actions|];
    var s10 := s9.(registered := map[]).Moved(2, Gone);
    assert s9.registered - {"a"} == map[];
    assert s10 == Apply(s9, Unregister(2));
    states, actions := Extend(states, actions, Unregister(2));
    var s11 := State(
      [Room("a", {}, 0, true), Room("a", {}, 0, false)], map["a" := 1], s10.pcs[3 := Joining(1, Some(1))]);
    assert s10.objs + [Room("a", {}, 0, false)] == s11.objs && s10.registered["a" := 1] == s11.registered;
    assert s11 == Apply(s10, Put(3, "a"));
    states, actions := Extend(states, actions, Put(3, "a"));
    var s12 := s11.(objs := [Room("a", {}, 0, true), Room("a", {3}, 1, false)]).Moved(3, Idle(Some(1)));
    assert {} + {3} == {3} && s11.objs[1 := Room("a", {3}, 1, false)] == s12.objs;
    assert s12 == Apply(s11, Link(3));
    states, actions := Extend(states, actions, Link(3));
    var s13 := s12.(registered := map[]).Moved(1, Gone);
    assert s12.registered - {"a"} == map[];
    assert s13 == Apply(s12, Unregister(1));
    states, actions := Extend(states, actions, Unregister(1));
  }

  lemma OneInOther() returns (states: seq<State>, actions: seq<Action>)
    ensures Run(states, actions) && |states| == |actions| + 1 && NeverRereads(actions)
    ensures InRange(states[|actions|])
    ensures states[|actions|] == State(
      [Room("a", {1, 2}, 2, false), Room("b", {3}, 1, false)], map["a" := 0, "b" := 1],
      map[1 := Idle(Some(0)), 2 := Idle(Some(0)), 3 := Idle(Some(1))])
  {
    hide Run, InRange;
    states, actions := TwoInRoom();
    var s4 := states[|actions|];
    var s5 := State(
      [Room("a", {1, 2}, 2, false), Room("b", {}, 0, false)], map["a" := 0, "b" := 1],
      s4.pcs[3 := Joining(1, Some(1))]);
    assert s4.objs + [Room("b", {}, 0, false)] == s5.objs && s4.registered["b" := 1] == s5.registered;
    assert s5 == Apply(s4, Put(3, "b"));
    states, actions := Extend(states, actions, Put(3, "b"));
    var s6 := s5.(objs := [Room("a", {1, 2}, 2, false), Room("b", {3}, 1, false)]).Moved(3, Idle(Some(1)));
    assert {} + {3} == {3} && s5.objs[1 := Room("b", {3}, 1, false)] == s6.objs;
    assert s6 == Apply(s5, Link(3));
    states, actions := Extend(states, actions, Link(3));
    assert s6 == State(
      [Room("a", {1, 2}, 2, false), Room("b", {3}, 1, false)], map["a" := 0, "b" := 1],
      map[1 := Idle(Some(0)), 2 := Idle(Some(0)), 3 := Idle(Some(1))]);
  }

  lemma AboutToJoinOther() returns (states: seq<State>, actions: seq<Action>)
    ensures Run(states, actions) && |states| == |actions| + 1 && NeverRereads(actions)
    ensures InRange(states[|actions|])
    ensures states[|actions|] == State(
      [Room("a", {2}, 1, false), Room("b", {3}, 1, false)], map["a" := 0, "b" := 1],
      map[1 := Joining(1, Some(0)), 2 := Idle(Some(0)), 3 := Idle(Some(1))])
  {
    hide Run, InRange;
    states, actions := OneInOther();
    var s6 := states[|actions|];
    var s7 := s6.Moved(1, Leaving(0, Join(1)));
    assert s7 == Apply(s6, Change(1, "b"));
    states, actions := Extend(states, actions, Change(1, "b"));
    var s8 := s7.(objs := [Room("a", {2}, 1, false), Room("b", {3}, 1, false)]).Moved(1, Left(0, false, Join(1)));
    assert {1, 2} - {1} == {2} && s7.objs[0 := Room("a", {2}, 1, false)] == s8.objs;
    assert s8 == Apply(s7, Unlink(1));
    states, actions := Extend(states, actions, Unlink(1));
    var s9 := s8.Moved(1, Joining(1, Some(0)));
    assert s9 == Apply(s8, Continue(1));
    states, actions := Extend(states, actions, Continue(1));
    assert s9 == State(
      [Room("a", {2}, 1, false), Room("b", {3}, 1, false)], map["a" := 0, "b" := 1],
      map[1 := Joining(1, Some(0)), 2 := Idle(Some(0)), 3 := Idle(Some(1))]);
  }

  lemma OtherRoomDropped() returns (states: seq<State>, actions: seq<Action>)
    ensures Run(states, actions) && |states| == |actions| + 1 && NeverRereads(actions)
    ensures InRange(states[|actions|])
    ensures states[|actions|] == State(
      [Room("a", {2}, 1, false), Room("b", {}, 0, true)], map["a" := 0, "b" := 1],
      map[1 := Joining(1, Some(0)), 2 := Idle(Some(0)), 3 := Left(1, true, Leave)])
  {
    hide Run, InRange;
    states, actions := AboutToJoinOther();
    var s9 := states[|actions|];
    var s10 := s9.Moved(3, Leaving(1, Leave));
    assert s10 == Apply(s9, Close(3));
    states, actions := Extend(states, actions, Close(3));
    var s11 := s10.(objs := [Room("a", {2}, 1, false), Room("b", {}, 0, true)]).Moved(3, Left(1, true, Leave));
    assert {3} - {3} == {} && s10.objs[1 := Room("b", {}, 0, true)] == s11.objs;
    assert s11 == Apply(s10, Unlink(3));
    states, actions := Extend(states, actions, Unlink(3));
    assert s11 == State(
      [Room("a", {2}, 1, false), Room("b", {}, 0, true)], map["a" := 0, "b" := 1],
      map[1 := Joining(1, Some(0)), 2 := Idle(Some(0)), 3 := Left(1, true, Leave)]);
  }

  lemma JoinRefusedAndIgnored() returns (states: seq<State>, actions: seq<Action>)
    ensures Run(states, actions) && |states| == |actions| + 1 && NeverRereads(actions)
    ensures InRange(states[|actions|])
    ensures states[|actions|] == State(
      [Room("a", {2}, 1, false), Room("b", {}, 0, true)], map["a" := 0, "b" := 1],
      map[1 := Idle(Some(0)), 2 := Idle(Some(0)), 3 := Left(1, true, Leave)])
  {
    hide Run, InRange;
    states, actions := OtherRoomDropped();
    var s11 := states[|actions|];
    var s12 := s11.Moved(1, Refused(Some(0)));
    assert s12 == Apply(s11, Link(1));
    states, actions := Extend(states, actions, Link(1));
    var s13 := s12.Moved(1, Idle(Some(0)));
    assert s13 == Apply(s12, Ignore(1));
    states, actions := Extend(states, actions, Ignore(1));
    assert s13 == State(
      [Room("a", {2}, 1, false), Room("b", {}, 0, true)], map["a" := 0, "b" := 1],
      map[1 := Idle(Some(0)), 2 := Idle(Some(0)), 3 := Left(1, true, Leave)]);
  }

  /** The code as it stands also carries on after a failed join. The connection's next Room.Del then
      clears the head of a list it is not in, and the other member is no longer reachable. */
  lemma IgnoreLosesMember() returns (states: seq<State>, actions: seq<Action>)
    ensures Run(states, actions) && |states| == |actions| + 1 && NeverRereads(actions)
    ensures InRange(states[|actions|])
    ensures var s := states[|actions|];
      0 < |s.objs| && s.LinkedIn(2, 0) && s.objs[0].members == {} && s.objs[0].drop
  {
    hide Run, InRange;
    states, actions := JoinRefusedAndIgnored();
    var s13 := states[|actions|];
    var s14 := s13.Moved(1, Leaving(0, Leave));
    assert s14 == Apply(s13, Close(1));
    states, actions := Extend(states, actions, Close(1));
    var s15 := s14.(objs := [Room("a", {}, 0, true), Room("b", {}, 0, true)]).Moved(1, Left(0, true, Leave));
    assert s14.objs[0 := Room("a", {}, 0, true)] == s15.objs;
    assert s15 == Apply(s14, Unlink(1));
    states, actions := Extend(states, actions, Unlink(1));
  }
}
