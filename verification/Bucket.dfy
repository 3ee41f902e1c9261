/** internal/comet/bucket.go: the connections and rooms of one bucket, one call at a time. */
module Buckets {
  import opened Basics
  import opened Protos
  import opened Rooms

  datatype Failure = RoomDropped

  class Bucket {
    var chs: map<string, Channel>
    var rooms: map<string, Room>
    var ipCnts: map<string, int>

    /** The connections put and not yet deleted, each with the ID of its room, or "" if it has none. */
    ghost var assign: map<Channel, string>

    /** A registered room lists exactly the connections assigned to it. */
    ghost predicate RoomOk(room: Room, id: string)
      reads this`assign, room, assign.Keys`next, assign.Keys`prev
    {
      && room.id == id && !room.drop
      && Nodes(room.members) <= assign.Keys && room.Valid()
      && forall ch :: ch in assign ==> (ch in Nodes(room.members) <==> assign[ch] == id)
    }

    /** Every registered room but a new one is non-empty, and every assigned room is registered. */
    ghost predicate RoomsOk(spare: string)
      reads this`rooms, this`assign, rooms.Values, assign.Keys`next, assign.Keys`prev
    {
      && "" !in rooms
      && (forall id :: id in rooms ==> RoomOk(rooms[id], id))
      && (forall id :: id in rooms && id != spare ==> rooms[id].members != [])
      && (forall ch :: ch in assign && assign[ch] != "" ==> assign[ch] in rooms)
    }

    ghost function RoomOf(ch: Channel): Room?
      requires ch in assign && (assign[ch] != "" ==> assign[ch] in rooms)
      reads this`rooms, this`assign
    {
      if assign[ch] == "" then null else rooms[assign[ch]]
    }

    /** Every connection, except perhaps one, points at the room it is assigned to. */
    ghost predicate PointersOk(but: Channel?)
      reads this`rooms, this`assign, assign.Keys`room
    {
      forall ch :: ch in assign && ch != but ==> (assign[ch] != "" ==> assign[ch] in rooms) && ch.room == RoomOf(ch)
    }

    /** The maps refer to live connections under their own keys. */
    ghost predicate KeysOk(conns: set<Channel>)
      reads this`chs, this`ipCnts
    {
      && (forall key :: key in chs ==> chs[key].key == key && chs[key] in conns)
      && (forall ip :: ip in ipCnts ==> 0 < ipCnts[ip])
    }

    ghost predicate Valid()
      reads this, rooms.Values, assign.Keys
    {
      RoomsOk("") && PointersOk(null) && KeysOk(assign.Keys)
    }

    /** The counters tell how many connections there are from each address. */
    ghost predicate Accurate()
      reads this
    {
      CountsAgree(ipCnts, assign.Keys)
    }

    /** Every live connection is the one under its key. */
    ghost predicate Sole()
      reads this
    {
      OnePerKey(chs, assign.Keys)
    }

    constructor ()
      ensures Sole() && Accurate()
      ensures Valid() && assign == map[] && chs == map[] && rooms == map[] && ipCnts == map[]
    {
      chs, rooms, ipCnts, assign := map[], map[], map[], map[];
      new;
      NobodyOnline();
    }

    /** The registered room of that ID, created if there is none. */
    method Lookup(id: string) returns (room: Room)
      requires RoomsOk("") && PointersOk(null) && id != ""
      modifies this`rooms
      ensures RoomsOk(id) && PointersOk(null) && id in rooms && room == rooms[id] && room.id == id
      ensures Nodes(room.members) <= assign.Keys && !room.drop
      ensures if id in old(rooms) then rooms == old(rooms)
              else rooms == old(rooms)[id := room] && fresh(room) && room.members == []
    {
      hide Nodes, Room.Valid;
      NoNodes();
      if id in rooms {
        room := rooms[id];
        assert RoomOk(rooms[id], id);
      } else {
        room := new Room(id);
        rooms := rooms[id := room];
        forall other | other in rooms
          ensures RoomOk(rooms[other], other)
        {
          assert other != id ==> old(RoomOk(rooms[other], other));
        }
      }
    }

    /** Room.Put of a connection that is in no room: into a registered room, or refused by a dropped one. */
    method Enter(room: Room, ch: Channel) returns (dropped: bool)
      requires room.drop ==> room.Valid()
      requires !room.drop ==> RoomsOk(room.id) && room.id in rooms && rooms[room.id] == room && room.id != ""
      requires ch in assign && assign[ch] == "" && PointersOk(ch)
      modifies this`assign, room, ch`next, ch`prev, Nodes(room.members)`prev
      ensures PointersOk(ch) && dropped == old(room.drop)
      ensures dropped ==> assign == old(assign) && ch.next == old(ch.next) && ch.prev == old(ch.prev) && unchanged(room)
      ensures !dropped ==> RoomsOk("") && assign == old(assign)[ch := room.id]
      ensures !dropped ==> room.members == [ch] + old(room.members)
    {
      hide RoomsOk;
      if room.drop {
        dropped := room.Put(ch);
      } else {
        dropped := EnterList(room, ch);
      }
    }

    method EnterList(room: Room, ch: Channel) returns (dropped: bool)
      requires RoomsOk(room.id) && room.id in rooms && rooms[room.id] == room
      requires ch in assign && assign[ch] == ""
      modifies this`assign, room, ch`next, ch`prev, Nodes(room.members)`prev
      ensures !dropped && RoomsOk("")
      ensures assign == old(assign)[ch := room.id]
      ensures room.members == [ch] + old(room.members)
    {
      hide Nodes, RoomOk;
      dropped := Arrive(room, ch);
    }

    /** Room.Put into a registered room. */
    method Arrive(room: Room, ch: Channel) returns (dropped: bool)
      requires (forall id :: id in rooms ==> RoomOk(rooms[id], id)) && room.id in rooms && rooms[room.id] == room
      requires ch in assign && assign[ch] == "" && "" !in rooms
      modifies this`assign, room, ch`next, ch`prev, Nodes(room.members)`prev
      ensures !dropped
      ensures assign == old(assign)[ch := room.id]
      ensures room.members == [ch] + old(room.members)
      ensures forall id :: id in rooms ==> RoomOk(rooms[id], id) && (id != room.id ==> rooms[id] != room)
    {
      hide Nodes, Room.Valid;
      assert RoomOk(room, room.id);
      ghost var was := room.members;
      forall id | id in rooms && id != room.id
        ensures rooms[id] != room && Nodes(rooms[id].members) !! Nodes(was) && ch !in Nodes(rooms[id].members)
      {
        assert RoomOk(rooms[id], id);
      }
      NodesOf(was, ch);
      dropped := room.Put(ch);
      assign := assign[ch := room.id];
      forall id | id in rooms
        ensures RoomOk(rooms[id], id)
      {
        assert old(RoomOk(rooms[id], id));
      }
    }

    method DelRoom(room: Room)
      requires room.Valid()
      modifies this`rooms, Nodes(room.members)`signal
      ensures rooms == old(rooms) - {room.id}
      ensures forall i :: 0 <= i < |room.members| ==>
        room.members[i].signal == old(room.members[i].signal) + [Finish]
    {
      rooms := rooms - {room.id};
      room.Close();
    }

    /** Room.Del of a member; what it leaves to DelRoom is an empty room that nobody is assigned to. */
    method Depart(room: Room, ch: Channel) returns (dropped: bool)
      requires (forall id :: id in rooms ==> RoomOk(rooms[id], id)) && room.id in rooms && rooms[room.id] == room
      requires ch in assign && assign[ch] == room.id && "" !in rooms
      modifies this`assign, room, Nodes(room.members)`next, Nodes(room.members)`prev
      ensures assign == old(assign)[ch := ""]
      ensures room.members == Without(old(room.members), ch)
      ensures dropped == room.drop == (room.members == []) == (old(|room.members|) == 1)
      ensures forall id :: id in rooms && id != room.id ==> RoomOk(rooms[id], id) && rooms[id] != room
      ensures !dropped ==> RoomOk(rooms[room.id], room.id)
      ensures room.Valid() && Nodes(room.members) <= assign.Keys
      ensures dropped ==> forall c :: c in assign ==> assign[c] != room.id
    {
      hide Nodes, Room.Valid, Without;
      assert RoomOk(rooms[room.id], room.id);
      ghost var was := room.members;
      forall id | id in rooms && id != room.id
        ensures rooms[id] != room && Nodes(rooms[id].members) !! Nodes(was)
      {
        assert RoomOk(rooms[id], id);
      }
      room.MembersAreDistinct();
      NodesWithout(was, ch);
      NoNodes();
      dropped := room.Del(ch);
      assert Nodes(room.members) == Nodes(was) - {ch};
      assign := assign[ch := ""];
      forall id | id in rooms && (id == room.id ==> !dropped)
        ensures RoomOk(rooms[id], id)
      {
        assert old(RoomOk(rooms[id], id));
      }
      forall c | c in assign && dropped
        ensures assign[c] != room.id
      {
        assert old(RoomOk(rooms[room.id], room.id));
        assert c !in Nodes(was) - {ch};
      }
    }

    /** Room.Del of a member, and DelRoom if it was the last. */
    method Leave(room: Room, ch: Channel, ghost spare: string)
      requires RoomsOk(spare) && PointersOk(null) && room.id in rooms && rooms[room.id] == room
      requires ch in assign && assign[ch] == room.id
      modifies this`assign, this`rooms, room, Nodes(room.members)`next, Nodes(room.members)`prev
      ensures RoomsOk(spare) && PointersOk(ch) && room.Valid() && Nodes(room.members) <= assign.Keys
      ensures assign == old(assign)[ch := ""]
      ensures room.members == Without(old(room.members), ch)
      ensures if old(|room.members|) == 1 then room.drop && rooms == old(rooms) - {room.id}
              else !room.drop && rooms == old(rooms)
    {
      hide RoomsOk, Nodes, Room.Valid, Without;
      LeaveList(room, ch, spare);
    }

    method LeaveList(room: Room, ch: Channel, ghost spare: string)
      requires RoomsOk(spare) && room.id in rooms && rooms[room.id] == room
      requires ch in assign && assign[ch] == room.id
      modifies this`assign, this`rooms, room, Nodes(room.members)`next, Nodes(room.members)`prev
      ensures RoomsOk(spare) && room.Valid() && Nodes(room.members) <= assign.Keys
      ensures assign == old(assign)[ch := ""]
      ensures room.members == Without(old(room.members), ch)
      ensures if old(|room.members|) == 1 then room.drop && rooms == old(rooms) - {room.id}
              else !room.drop && rooms == old(rooms)
      ensures forall c :: c in assign && assign[c] != "" ==> assign[c] in rooms
    {
      hide Nodes, Room.Valid, Without, RoomOk;
      var dropped := Depart(room, ch);
      if dropped {
        NoNodes();
        DelRoom(room);
      }
    }

    /** The connection counts as live, without a room. */
    ghost method Admit(ch: Channel)
      requires RoomsOk("") && PointersOk(null) && ch !in assign && ch.room == null
      modifies this`assign
      ensures RoomsOk("") && PointersOk(null) && assign == old(assign)[ch := ""]
    {
      hide Nodes, Room.Valid;
      assign := assign[ch := ""];
      forall id | id in rooms
        ensures RoomOk(rooms[id], id)
      {
        assert old(RoomOk(rooms[id], id));
      }
    }

    /** The map section of Put. */
    method Register(ch: Channel)
      requires Valid() && ch !in assign && ch.room == null
      modifies this`chs, this`ipCnts, this`assign, (if ch.key in chs then {chs[ch.key]} else {})`signal
      ensures Valid()
      ensures assign == old(assign)[ch := ""] && chs == old(chs)[ch.key := ch]
      ensures ipCnts == old(ipCnts)[ch.ip := Counted(old(ipCnts), ch.ip) + 1]
      ensures ch.key in old(chs) ==> old(chs)[ch.key].signal == old(chs[ch.key].signal) + [Finish]
    {
      hide RoomsOk, PointersOk;
      if ch.key in chs {
        chs[ch.key].Close();
      }
      Admit(ch);
      chs := chs[ch.key := ch];
      ipCnts := ipCnts[ch.ip := Counted(ipCnts, ch.ip) + 1];
    }

    /** The room part of Put: finds or creates the room, points the connection at it and links it in. */
    method Join(rid: string, ch: Channel) returns (dropped: bool)
      requires RoomsOk("") && PointersOk(null) && rid != ""
      requires ch in assign && assign[ch] == ""
      modifies this`rooms, this`assign, ch`room, rooms.Values, assign.Keys`next, assign.Keys`prev
      ensures RoomsOk("") && PointersOk(null) && !dropped
      ensures assign == old(assign)[ch := rid] && rid in rooms
      ensures if rid in old(rooms) then rooms == old(rooms)
              else rooms == old(rooms)[rid := rooms[rid]] && fresh(rooms[rid])
      ensures rooms[rid].members == [ch] + if rid in old(rooms) then old(rooms[rid].members) else []
    {
      hide RoomsOk;
      var room := Lookup(rid);
      ch.room := room;
      dropped := Enter(room, ch);
    }

    method Put(rid: string, ch: Channel) returns (e: Option<Failure>)
      requires Valid() && ch !in assign && ch.room == null
      modifies this, ch, rooms.Values, assign.Keys
      ensures Valid() && e.None?
      ensures assign == old(assign)[ch := rid] && chs == old(chs)[ch.key := ch]
      ensures old(Accurate()) ==> Accurate()
      ensures old(Sole()) ==> (Sole() <==> ch.key !in old(chs))
      ensures forall c :: c in old(assign) ==>
        c.signal == old(c.signal) + if ch.key in old(chs) && c == old(chs)[ch.key] then [Finish] else []
      ensures rid == "" || rid in old(rooms) ==> rooms == old(rooms)
      ensures rid != "" ==>
        && rid in rooms && (rid !in old(rooms) ==> rooms == old(rooms)[rid := rooms[rid]] && fresh(rooms[rid]))
        && rooms[rid].members == [ch] + if rid in old(rooms) then old(rooms[rid].members) else []
    {
      hide RoomsOk, PointersOk, CountsAgree, Counted, OnePerKey;
      OneMorePerKey(chs, assign.Keys, ch);
      OneMoreCounted(ipCnts, assign.Keys, ch);
      ghost var conns := assign.Keys;
      e := Enlist(rid, ch);
      assert assign.Keys == conns + {ch};
    }

    /** The sections of Put, one after the other. */
    method Enlist(rid: string, ch: Channel) returns (e: Option<Failure>)
      requires Valid() && ch !in assign && ch.room == null
      modifies this, ch, rooms.Values, assign.Keys
      ensures Valid() && e.None?
      ensures assign == old(assign)[ch := rid] && chs == old(chs)[ch.key := ch]
      ensures ipCnts == old(ipCnts)[ch.ip := Counted(old(ipCnts), ch.ip) + 1]
      ensures forall c :: c in old(assign) ==>
        c.signal == old(c.signal) + if ch.key in old(chs) && c == old(chs)[ch.key] then [Finish] else []
      ensures rid == "" || rid in old(rooms) ==> rooms == old(rooms)
      ensures rid != "" ==>
        && rid in rooms && (rid !in old(rooms) ==> rooms == old(rooms)[rid := rooms[rid]] && fresh(rooms[rid]))
        && rooms[rid].members == [ch] + if rid in old(rooms) then old(rooms[rid].members) else []
    {
      hide RoomsOk, PointersOk, Counted;
      ghost var before: map<Channel, string> := assign;
      Register(ch);
      e := None;
      assert before[ch := ""][ch := rid] == before[ch := rid];
      if rid != "" {
        var dropped := Join(rid, ch);
        if dropped {
          e := Some(RoomDropped);
        }
      }
    }

    /** The connection is the only member of the very room it asks for. */
    ghost predicate RejoinsAlone(nrid: string, ch: Channel)
      requires ch in assign
      reads this`rooms, this`assign, rooms.Values
    {
      nrid != "" && assign[ch] == nrid && nrid in rooms && |rooms[nrid].members| == 1
    }

    /** Moves a connection to another room. A sole member that asks for its own room drops that room on
        the way out and is left outside, with a stale pointer; every other move succeeds. */
    method ChangeRoom(nrid: string, ch: Channel) returns (e: Option<Failure>)
      requires Valid() && ch in assign
      modifies this`rooms, this`assign, ch`room, rooms.Values, assign.Keys`next, assign.Keys`prev
      ensures e.Some? <==> old(RejoinsAlone(nrid, ch))
      ensures e.None? ==> Valid() && assign == old(assign)[ch := nrid]
      ensures e.Some? ==> RoomsOk("") && KeysOk(assign.Keys) && assign == old(assign)[ch := ""]
      ensures e.Some? ==> ch.room == old(ch.room) != null && ch.room.drop && nrid !in rooms && !Valid()
      ensures Sole() == old(Sole()) && Accurate() == old(Accurate())
    {
      hide RoomsOk, Nodes, OnePerKey, CountsAgree;
      SameKeys(assign, ch, "");
      SameKeys(assign, ch, nrid);
      e := None;
      if nrid == "" {
        Detach(ch, "");
        ch.room := null;
        return;
      }
      var nroom := Lookup(nrid);
      e := Switch(nroom, ch);
    }

    /** Takes the connection out of its room, if it has one. */
    method Detach(ch: Channel, ghost spare: string)
      requires RoomsOk(spare) && PointersOk(null) && KeysOk(assign.Keys) && ch in assign
      modifies this`rooms, this`assign, rooms.Values, assign.Keys`next, assign.Keys`prev
      ensures RoomsOk(spare) && PointersOk(ch) && KeysOk(assign.Keys)
      ensures assign == old(assign)[ch := ""]
      ensures ch.room == null ==> rooms == old(rooms)
      ensures ch.room != null ==>
        && ch.room.Valid() && Nodes(ch.room.members) <= assign.Keys && ch.room.id == old(assign)[ch]
        && ch.room.id in old(rooms) && old(rooms)[ch.room.id] == ch.room
        && if old(|ch.room.members|) == 1 then ch.room.drop && rooms == old(rooms) - {ch.room.id}
           else !ch.room.drop && rooms == old(rooms)
      ensures forall room :: room in old(rooms).Values && room != ch.room ==>
        room.members == old(room.members) && room.drop == old(room.drop)
    {
      hide RoomsOk, Nodes, Without, KeysOk;
      var oroom := ch.room;
      OwnRoom(ch);
      assert assign[ch := ""].Keys == assign.Keys;
      if oroom != null {
        Leave(oroom, ch, spare);
      } else {
        assert assign == assign[ch := ""];
      }
    }

    /** The rest of ChangeRoom once the new room is found. */
    method Switch(nroom: Room, ch: Channel) returns (e: Option<Failure>)
      requires RoomsOk(nroom.id) && PointersOk(null) && KeysOk(assign.Keys) && ch in assign
      requires nroom.id != "" && nroom.id in rooms && rooms[nroom.id] == nroom && !nroom.drop
      requires Nodes(nroom.members) <= assign.Keys
      modifies this`rooms, this`assign, ch`room, rooms.Values, assign.Keys`next, assign.Keys`prev
      ensures e.Some? <==> old(assign)[ch] == nroom.id && old(|nroom.members|) == 1
      ensures e.None? ==> Valid() && assign == old(assign)[ch := nroom.id]
      ensures e.Some? ==> RoomsOk("") && KeysOk(assign.Keys) && assign == old(assign)[ch := ""]
      ensures e.Some? ==> ch.room == old(ch.room) == nroom && nroom.drop && nroom.id !in rooms
    {
      hide RoomsOk, Nodes, Without, KeysOk, PointersOk;
      OwnRoom(ch);
      assert assign[ch := ""].Keys == assign[ch := nroom.id].Keys == assign.Keys;
      Detach(ch, nroom.id);
      OnlyIfRegistered(nroom.id);
      assert nroom.drop ==> nroom.Valid() && nroom.members == [];
      e := Attach(nroom, ch);
      assert e.None? ==> assign == old(assign)[ch := nroom.id];
    }

    /** The end of ChangeRoom: links the connection into the new room and points it there. */
    method Attach(nroom: Room, ch: Channel) returns (e: Option<Failure>)
      requires nroom.drop ==> nroom.Valid() && nroom.members == [] && RoomsOk("")
      requires !nroom.drop ==>
        RoomsOk(nroom.id) && nroom.id in rooms && rooms[nroom.id] == nroom && nroom.id != ""
      requires ch in assign && assign[ch] == "" && PointersOk(ch) && KeysOk(assign.Keys)
      modifies this`assign, ch`room, nroom, ch`next, ch`prev, Nodes(nroom.members)`prev
      ensures e.Some? <==> old(nroom.drop)
      ensures e.None? ==> Valid() && assign == old(assign)[ch := nroom.id]
      ensures e.Some? ==> RoomsOk("") && KeysOk(assign.Keys) && assign == old(assign)
      ensures e.Some? ==> ch.room == old(ch.room) && nroom.drop
    {
      hide RoomsOk, Nodes, KeysOk, PointersOk;
      NoNodes();
      assert assign[ch := nroom.id].Keys == assign.Keys;
      var dropped := Enter(nroom, ch);
      if dropped {
        return Some(RoomDropped);
      }
      Point(nroom, ch);
      e := None;
    }

    method Point(room: Room, ch: Channel)
      requires PointersOk(ch) && ch in assign && assign[ch] in rooms && room == rooms[assign[ch]] && assign[ch] != ""
      modifies ch`room
      ensures PointersOk(null) && ch.room == room
    {
      ch.room := room;
    }

    lemma OnlyIfRegistered(spare: string)
      ensures RoomsOk(spare) && spare !in rooms ==> RoomsOk("")
    {
    }

    lemma OwnRoom(ch: Channel)
      requires (exists spare :: RoomsOk(spare)) && PointersOk(null) && ch in assign
      ensures assign[ch] == "" <==> ch.room == null
      ensures ch.room != null ==>
        && ch.room.id == assign[ch] && assign[ch] in rooms && rooms[assign[ch]] == ch.room
        && Nodes(ch.room.members) <= assign.Keys
    {
    }

    /** Ends a connection. It leaves its room; the map entry goes only if it is the connection's own; the
        counter that goes down is that of whichever connection the key now belongs to. */
    method Del(dch: Channel)
      requires Valid() && dch in assign
      modifies this, rooms.Values, assign.Keys`next, assign.Keys`prev
      ensures Valid() && assign == old(assign) - {dch}
      ensures chs == if dch.key in old(chs) && old(chs)[dch.key] == dch then old(chs) - {dch.key} else old(chs)
      ensures old(Accurate()) ==>
        (Accurate() <==> dch.key in old(chs) && old(chs)[dch.key].ip == dch.ip)
      ensures old(Sole()) ==> Sole() && (old(Accurate()) ==> Accurate())
    {
      hide RoomsOk, Nodes, CountsAgree, Less, OnePerKey;
      OneLessPerKey(chs, assign.Keys, dch);
      ghost var conns, cnts := assign.Keys, ipCnts;
      if dch.key in chs {
        OneLessCounted(cnts, conns, dch, chs[dch.key]);
      }
      UncountedDiffers(cnts, conns, dch);
      Unregister(dch);
      Depose(dch);
      assert assign.Keys == conns - {dch};
    }

    /** The map section of Del. */
    method Unregister(dch: Channel)
      requires KeysOk(assign.Keys)
      modifies this`chs, this`ipCnts
      ensures KeysOk(assign.Keys) && (dch.key in chs ==> chs[dch.key] != dch)
      ensures chs == if dch.key in old(chs) && old(chs)[dch.key] == dch then old(chs) - {dch.key} else old(chs)
      ensures ipCnts == if dch.key in old(chs) then Less(old(ipCnts), old(chs)[dch.key].ip) else old(ipCnts)
    {
      if dch.key in chs {
        var ch := chs[dch.key];
        if ch == dch {
          chs := chs - {ch.key};
        }
        if Counted(ipCnts, ch.ip) > 1 {
          ipCnts := ipCnts[ch.ip := ipCnts[ch.ip] - 1];
        } else {
          ipCnts := ipCnts - {ch.ip};
        }
      }
    }

    /** The room section of Del, after which the connection is no longer live. */
    method Depose(dch: Channel)
      requires RoomsOk("") && PointersOk(null) && KeysOk(assign.Keys) && dch in assign
      requires dch.key in chs ==> chs[dch.key] != dch
      modifies this`rooms, this`assign, rooms.Values, assign.Keys`next, assign.Keys`prev
      ensures Valid() && assign == old(assign) - {dch}
    {
      hide RoomsOk, PointersOk;
      Detach(dch, "");
      Forget(dch);
      assert assign == old(assign) - {dch};
    }

    ghost method Forget(dch: Channel)
      requires RoomsOk("") && PointersOk(dch) && dch in assign && assign[dch] == ""
      modifies this`assign
      ensures RoomsOk("") && PointersOk(null) && assign == old(assign) - {dch}
    {
      hide Nodes, Room.Valid;
      assign := assign - {dch};
      forall id | id in rooms
        ensures RoomOk(rooms[id], id)
      {
        assert old(RoomOk(rooms[id], id));
      }
    }
  }

  lemma NodesOf(s: seq<Channel>, ch: Channel)
    ensures ch in Nodes(s) <==> ch in s
    ensures Nodes([ch] + s) == Nodes(s) + {ch}
  {
  }

  lemma {:induction false} NodesWithout(s: seq<Channel>, ch: Channel)
    requires ch in Nodes(s) && Distinct(s)
    ensures ch in s && Nodes(Without(s, ch)) == Nodes(s) - {ch} && |Without(s, ch)| == |s| - 1
  {
    var k :| 0 <= k < |s| && s[k] == ch;
    WithoutAt(s, k);
    var t := s[..k] + s[k + 1..];
    forall x
      ensures x in t <==> x in s && x != ch
    {
      if x in s && x != ch {
        var j :| 0 <= j < |s| && s[j] == x;
        assert t[if j < k then j else j - 1] == x;
      }
    }
  }

  /** No two of the connections have the same key, and the map knows each of them. */
  ghost predicate OnePerKey(chs: map<string, Channel>, conns: set<Channel>) {
    forall c :: c in conns ==> c.key in chs && chs[c.key] == c
  }

  lemma OneMorePerKey(chs: map<string, Channel>, conns: set<Channel>, ch: Channel)
    requires ch !in conns && forall key :: key in chs ==> chs[key].key == key && chs[key] in conns
    ensures OnePerKey(chs, conns) ==> (OnePerKey(chs[ch.key := ch], conns + {ch}) <==> ch.key !in chs)
  {
    if ch.key in chs {
      assert chs[ch.key] in conns + {ch};
    }
  }

  lemma OneLessPerKey(chs: map<string, Channel>, conns: set<Channel>, dch: Channel)
    requires dch in conns
    ensures OnePerKey(chs, conns) ==>
      dch.key in chs && chs[dch.key] == dch && OnePerKey(chs - {dch.key}, conns - {dch})
  {
  }

  lemma NobodyOnline()
    ensures CountsAgree(map[], {})
  {
    assert forall ip :: From({}, ip) == {};
  }

  /** A late end of a replaced connection, from another address than its successor, does miscount. */
  method LateDelMiscounts() returns (b: Bucket)
    ensures b.Valid() && !b.Accurate()
  {
    b := new Bucket();
    var first := new Channel("key", "first address", 1);
    var second := new Channel("key", "second address", 1);
    hide Bucket.Valid, Bucket.Accurate;
    var _ := b.Put("", first);
    var _ := b.Put("", second);
    b.Del(first);
  }

  lemma SameKeys(assign: map<Channel, string>, ch: Channel, id: string)
    requires ch in assign
    ensures assign[ch := id].Keys == assign.Keys
  {
  }

  lemma NoNodes()
    ensures Nodes([]) == {}
  {
  }

  function Counted(cnts: map<string, int>, ip: string): int {
    if ip in cnts then cnts[ip] else 0
  }

  ghost predicate CountsAgree(cnts: map<string, int>, conns: set<Channel>) {
    forall ip :: Counted(cnts, ip) == Online(conns, ip)
  }

  ghost function From(conns: set<Channel>, ip: string): set<Channel> {
    set c | c in conns && c.ip == ip
  }

  ghost function Online(conns: set<Channel>, ip: string): nat {
    |From(conns, ip)|
  }

  lemma OneMoreOnline(conns: set<Channel>, ch: Channel)
    requires ch !in conns
    ensures forall ip :: Online(conns + {ch}, ip) == Online(conns, ip) + if ip == ch.ip then 1 else 0
  {
    forall ip
      ensures Online(conns + {ch}, ip) == Online(conns, ip) + if ip == ch.ip then 1 else 0
    {
      assert From(conns + {ch}, ip) == if ip == ch.ip then From(conns, ip) + {ch} else From(conns, ip);
    }
  }

  lemma OneMoreCounted(cnts: map<string, int>, conns: set<Channel>, ch: Channel)
    requires ch !in conns
    ensures CountsAgree(cnts, conns) ==> CountsAgree(cnts[ch.ip := Counted(cnts, ch.ip) + 1], conns + {ch})
  {
    OneMoreOnline(conns, ch);
  }

  function Less(cnts: map<string, int>, ip: string): map<string, int> {
    if Counted(cnts, ip) > 1 then cnts[ip := cnts[ip] - 1] else cnts - {ip}
  }

  lemma OnlineOne(conns: set<Channel>, ch: Channel)
    requires ch in conns
    ensures 1 <= Online(conns, ch.ip)
  {
    assert ch in From(conns, ch.ip);
  }

  /** Counting a connection out at another one's address is right exactly if the addresses are the same. */
  lemma OneLessCounted(cnts: map<string, int>, conns: set<Channel>, dch: Channel, ch: Channel)
    requires dch in conns && ch in conns
    ensures CountsAgree(cnts, conns) ==> (CountsAgree(Less(cnts, ch.ip), conns - {dch}) <==> ch.ip == dch.ip)
  {
    if CountsAgree(cnts, conns) {
      assert (conns - {dch}) + {dch} == conns;
      OneMoreOnline(conns - {dch}, dch);
      OnlineOne(conns, ch);
      var less := Less(cnts, ch.ip);
      assert forall ip :: Counted(less, ip) == Counted(cnts, ip) - if ip == ch.ip then 1 else 0;
      assert Counted(less, dch.ip) == Online(conns - {dch}, dch.ip) <==> ch.ip == dch.ip;
    }
  }

  /** Not counting it out at all is never right. */
  lemma UncountedDiffers(cnts: map<string, int>, conns: set<Channel>, dch: Channel)
    requires dch in conns
    ensures CountsAgree(cnts, conns) ==> !CountsAgree(cnts, conns - {dch})
  {
    assert (conns - {dch}) + {dch} == conns;
    OneMoreOnline(conns - {dch}, dch);
    assert CountsAgree(cnts, conns) ==> Counted(cnts, dch.ip) != Online(conns - {dch}, dch.ip);
  }
}
