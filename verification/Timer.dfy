/** pkg/time/timer.go: an indexed binary heap of pending callbacks, a free list of
    nodes, and the wake-up signal of the goroutine that fires due entries. */
module Timers {
  import opened Basics
  import opened Heaps

  /** An instant in nanoseconds. */
  type Instant = int

  /** The identity of a callback. */
  type Callback = nat

  class TimerData {
    var key: string
    var expire: Instant
    var fn: Option<Callback>
    var index: int
    var next: TimerData?

    constructor ()
      ensures next == null && index == 0 && fn == None
    {
      key, expire, fn, index, next := "", 0, None, 0, null;
    }
  }

  ghost function Nodes(ts: seq<TimerData>): set<TimerData> {
    set td | td in ts
  }

  ghost function Keys(ts: seq<TimerData>): (keys: seq<Instant>)
    reads Nodes(ts)`expire
    ensures |keys| == |ts| && forall k :: 0 <= k < |ts| ==> keys[k] == ts[k].expire
  {
    if ts == [] then [] else
      assert forall td :: td in Nodes(ts[..|ts| - 1]) ==> td in Nodes(ts);
      Keys(ts[..|ts| - 1]) + [ts[|ts| - 1].expire]
  }

  /** Every node records its own slot; hence no node occurs twice. */
  ghost predicate Indexed(ts: seq<TimerData>)
    reads Nodes(ts)`index
  {
    forall k :: 0 <= k < |ts| ==> ts[k].index == k
  }

  /** The root is due no later than any entry. */
  lemma RootIsEarliest(ts: seq<TimerData>)
    requires Heap(Keys(ts), |ts|)
    ensures forall td :: td in Nodes(ts) ==> ts[0].expire <= td.expire
  {
    hide Keys, Heap;
    forall td | td in Nodes(ts)
      ensures ts[0].expire <= td.expire
    {
      var k :| 0 <= k < |ts| && ts[k] == td;
      RootIsLeast(Keys(ts), |ts|, k);
    }
  }

  ghost predicate Shape(ts: seq<TimerData>)
    reads Nodes(ts)`index, Nodes(ts)`expire
  {
    Indexed(ts) && Heap(Keys(ts), |ts|)
  }

  ghost function Following(nodes: seq<TimerData>, i: nat): TimerData? {
    if i + 1 < |nodes| then nodes[i + 1] else null
  }

  /** The free list: nodes chained through next. */
  ghost predicate Chain(head: TimerData?, nodes: seq<TimerData>)
    reads Nodes(nodes)`next
  {
    && head == (if nodes == [] then null else nodes[0])
    && (forall i :: 0 <= i < |nodes| ==> nodes[i].next == Following(nodes, i))
    && (forall i, j :: 0 <= i < j < |nodes| ==> nodes[i] != nodes[j])
  }

  /** The instants at which entries are due, by handle. */
  type Schedule = map<TimerData, Instant>

  ghost predicate AllAfter(due: Schedule, at: Instant) {
    forall td :: td in due ==> at < due[td]
  }

  /** What a timer means: a plain map of deadlines, whatever the heap looks like. */
  datatype Plan = Plan(
    due: Schedule,
    calls: map<TimerData, Option<Callback>>,
    out: set<TimerData>,
    deadline: Option<Instant>,
    running: bool)
  {
    /** The entry is pending at instant `at`; the signal is moved forward if that is before all others. */
    ghost function Scheduled(td: TimerData, at: Instant, fn: Option<Callback>): Plan {
      this.(due := due[td := at], calls := calls[td := fn],
            deadline := if AllAfter(due, at) then Some(at) else deadline)
    }

    ghost function HandedOut(td: TimerData): Plan {
      this.(out := out + {td})
    }

    ghost function Cancelled(td: TimerData): Plan {
      this.(due := due - {td}, calls := calls - {td})
    }

    ghost function Without(tds: set<TimerData>): Plan {
      this.(due := due - tds, calls := calls - tds)
    }

    ghost function Released(td: TimerData): Plan {
      Cancelled(td).(out := out - {td})
    }

    /** td may be fired at instant now: it is due and nothing pending is due before it. */
    ghost predicate Fires(td: TimerData, now: Instant) {
      td in due && due[td] <= now && forall h :: h in due ==> due[td] <= due[h]
    }

    /** The signal is set to the earliest deadline, or switched off if nothing is pending. */
    ghost predicate ArmedAfresh() {
      if due == map[] then deadline == None
      else deadline.Some? && (exists td :: td in due && due[td] == deadline.value)
           && forall td :: td in due ==> deadline.value <= due[td]
    }

    /** While the firing goroutine waits, the signal comes no later than any entry is due. */
    ghost predicate Wakes() {
      !running ==> forall td :: td in due ==> deadline.Some? && deadline.value <= due[td]
    }
  }

  /** No operation on the plan lets the signal come too late. */
  lemma OperationsWake(p: Plan, td: TimerData, at: Instant, fn: Option<Callback>)
    requires p.Wakes()
    ensures p.Cancelled(td).Wakes() && p.Released(td).Wakes()
    ensures p.Cancelled(td).Scheduled(td, at, fn).Wakes()
    ensures td !in p.due ==> p.HandedOut(td).Scheduled(td, at, fn).Wakes()
  {
    assert p.Cancelled(td).Wakes();
  }

  lemma DropLast(ts: seq<TimerData>, n: nat)
    requires 0 < |ts| && Indexed(ts) && |ts| - 1 <= n <= |ts| && Heap(Keys(ts), n)
    ensures Nodes(ts[..|ts| - 1]) == Nodes(ts) - {ts[|ts| - 1]} && ts[|ts| - 1] in Nodes(ts)
    ensures Shape(ts[..|ts| - 1])
  {
    hide Keys, Heap;
    var last := |ts| - 1;
    PrefixIsHeap(Keys(ts), last, n);
    assert Keys(ts[..last]) == Keys(ts)[..last];
  }

  lemma Located(ts: seq<TimerData>, td: TimerData)
    requires Indexed(ts)
    ensures td in Nodes(ts) <==> 0 <= td.index < |ts| && ts[td.index] == td
  {
  }

  lemma AtRoot(ts: seq<TimerData>, td: TimerData)
    requires Indexed(ts) && td in Nodes(ts)
    ensures td.index == 0 <==> td == ts[0]
  {
  }

  /** A new deadline goes to the root exactly if it is before all pending ones. */
  lemma RootVersusAll(ts: seq<TimerData>, due: Schedule, at: Instant)
    requires Shape(ts) && due.Keys == Nodes(ts)
    requires forall td :: td in due ==> due[td] == td.expire
    ensures AllAfter(due, at) <==> ts == [] || at < ts[0].expire
  {
    hide Keys, Heap;
    if ts != [] {
      RootIsEarliest(ts);
      assert ts[0] in due;
    }
  }

  class Timer {
    var free: TimerData?
    var timers: seq<TimerData>
    var deadline: Option<Instant>  // when the signal fires; None is the infinite duration
    const num: nat

    ghost var due: Schedule        // the entries in the heap with their deadlines
    ghost var calls: map<TimerData, Option<Callback>>
    ghost var freeNodes: seq<TimerData>
    ghost var out: set<TimerData>  // handed out by Add and not yet given back to Del
    ghost var running: bool        // the firing goroutine is between its wake-up and its re-arming

    /** The pending entries with their deadlines, and what is armed. */
    ghost function View(): Plan
      reads this`due, this`calls, this`out, this`deadline, this`running
    {
      Plan(due, calls, out, deadline, running)
    }

    /** The slots hold exactly the entries of the plan. */
    ghost predicate Agrees()
      reads this`timers, this`due, this`calls, Nodes(timers)`expire, Nodes(timers)`fn
    {
      && due.Keys == Nodes(timers) == calls.Keys
      && forall td :: td in due ==> due[td] == td.expire && calls[td] == td.fn
    }

    ghost predicate Filled()
      reads this`timers, this`due, this`calls, Nodes(timers)
    {
      Shape(timers) && Agrees()
    }

    ghost predicate Valid()
      reads this, Nodes(freeNodes)`next, Nodes(timers)
    {
      && 0 < num
      && Chain(free, freeNodes)
      && Nodes(freeNodes) !! out
      && Nodes(timers) == due.Keys <= out
      && Filled()
      && View().Wakes()
    }

    method Swap(i: nat, j: nat)
      requires i < |timers| && j < |timers| && Indexed(timers)
      modifies this`timers, Nodes(timers)`index
      ensures timers == old(Exchange(timers, i, j))
      ensures Keys(timers) == old(Exchange(Keys(timers), i, j))
      ensures Indexed(timers) && Nodes(timers) == old(Nodes(timers))
    {
      hide Keys, Exchange;
      timers := Exchange(timers, i, j);
      timers[i].index := i;
      timers[j].index := j;
      assert timers[i] == old(timers[j]) && timers[j] == old(timers[i]);
      assert forall k :: 0 <= k < |timers| && k != i && k != j ==> timers[k] == old(timers[k]);
    }

    /** Slot j0 may be below its parent; sift it towards the root. */
    method Up(j0: nat, ghost n: nat)
      requires j0 < n <= |timers|
      requires Indexed(timers) && HeapButLow(Keys(timers), n, j0)
      modifies this`timers, Nodes(timers)`index
      ensures |timers| == old(|timers|) && Nodes(timers) == old(Nodes(timers))
      ensures Indexed(timers) && Heap(Keys(timers), n)
      ensures forall k :: j0 < k < |timers| ==> timers[k] == old(timers[k])
      ensures old(timers[j0]) == timers[0] <==> j0 == 0 || old(timers[j0].expire < timers[0].expire)
    {
      hide Keys, Parent, HeapButLow, Heap, Exchange;
      var j := j0;
      while true
        invariant 0 <= j <= j0
        invariant |timers| == old(|timers|) && Nodes(timers) == old(Nodes(timers))
        invariant Indexed(timers) && HeapButLow(Keys(timers), n, j)
        invariant timers[j] == old(timers[j0])
        invariant forall k :: j0 < k < |timers| ==> timers[k] == old(timers[k])
        invariant if j == 0 then j0 == 0 || old(timers[j0].expire < timers[0].expire) else timers[0] == old(timers[0])
        decreases j
      {
        var i := Parent(j);
        if i >= j || !(timers[j].expire < timers[i].expire) {
          break;
        }
        UpStep(Keys(timers), n, j);
        Swap(i, j);
        j := i;
      }
      UpDone(Keys(timers), n, j);
    }

    /** Slot i0 may be above its children; sift it away from the root, within the first n slots. */
    method Down(i0: nat, n: nat)
      requires i0 < n <= |timers|
      requires Indexed(timers) && Sinking(Keys(timers), n, i0, i0)
      modifies this`timers, Nodes(timers)`index
      ensures |timers| == old(|timers|) && Nodes(timers) == old(Nodes(timers))
      ensures Indexed(timers) && HeapButLow(Keys(timers), n, i0)
      ensures forall k :: n <= k < |timers| ==> timers[k] == old(timers[k])
    {
      hide Keys, Parent, Sinking, HeapButLow, Exchange;
      var i := i0;
      while true
        invariant i0 <= i < n
        invariant |timers| == old(|timers|) && Nodes(timers) == old(Nodes(timers))
        invariant Indexed(timers) && Sinking(Keys(timers), n, i0, i)
        invariant forall k :: n <= k < |timers| ==> timers[k] == old(timers[k])
        decreases n - i
      {
        var j1 := 2 * i + 1;
        if j1 >= n {
          break;
        }
        var j := j1;
        var j2 := j1 + 1;
        if j2 < n && !(timers[j1].expire < timers[j2].expire) {
          j := j2;
        }
        if !(timers[j].expire < timers[i].expire) {
          break;
        }
        ghost var keys := Keys(timers);
        assert keys[i] == timers[i].expire && keys[j1] == timers[j1].expire;
        assert j2 < n ==> keys[j2] == timers[j2].expire;
        DownStep(keys, n, i0, i, j);
        Swap(i, j);
        i := j;
      }
      DownDone(Keys(timers), n, i0, i);
    }

    /** Puts td into a new last slot. */
    method Append(td: TimerData)
      requires Filled() && td !in due
      modifies this`timers, this`due, this`calls, td`index
      ensures timers == old(timers) + [td] && td.index == |timers| - 1
      ensures Nodes(timers) == old(Nodes(timers)) + {td}
      ensures Indexed(timers) && HeapButLow(Keys(timers), |timers|, |timers| - 1)
      ensures Agrees()
      ensures due == old(due)[td := td.expire] && calls == old(calls)[td := td.fn]
    {
      hide Keys, HeapButLow, Heap;
      Appended(Keys(timers), td.expire);
      ghost var was := timers;
      td.index := |timers|;
      timers := timers + [td];
      due, calls := due[td := td.expire], calls[td := td.fn];
      assert Keys(timers) == Keys(was) + [td.expire];
    }

    method Insert(td: TimerData)
      requires Filled() && td !in due
      modifies this`timers, this`due, this`calls, this`deadline, Nodes(timers)`index, td`index
      ensures Filled() && Nodes(timers) == due.Keys
      ensures due == old(due)[td := td.expire] && calls == old(calls)[td := td.fn]
      ensures deadline == if AllAfter(old(due), td.expire) then Some(td.expire) else old(deadline)
    {
      hide Keys, HeapButLow, Heap, AllAfter, Indexed, Nodes;
      RootVersusAll(timers, due, td.expire);
      Append(td);
      Up(td.index, |timers|);
      AtRoot(timers, td);
      if td.index == 0 {
        deadline := Some(td.expire);
      }
    }

    method RemoveAt(i: nat)
      requires i < |timers|
      requires Shape(timers)
      modifies this`timers, Nodes(timers)`index
      ensures Shape(timers)
      ensures Nodes(timers) == old(Nodes(timers) - {timers[i]})
      ensures old(timers[i]).index == -1
    {
      hide Keys, HeapButLow, Heap, Sinking, Exchange, Nodes, Indexed;
      var last := |timers| - 1;
      if i != last {
        SwappedOut(Keys(timers), i);
        Swap(i, last);
        Down(i, last);
        Up(i, last);
      }
      DropLast(timers, if i == last then last + 1 else last);
      timers[last].index := -1;
      timers := timers[..last];
    }

    /** Removes td if it is pending, and otherwise changes nothing. */
    method Remove(td: TimerData)
      requires Filled()
      modifies this`timers, this`due, this`calls, Nodes(timers)`index
      ensures Filled() && Nodes(timers) == due.Keys
      ensures View() == old(View()).Cancelled(td)
      ensures td !in old(due) ==> timers == old(timers) && View() == old(View())
      ensures td in old(due) ==> td.index == -1
    {
      hide Keys, Heap, Indexed, Nodes;
      var i, last := td.index, |timers| - 1;
      Located(timers, td);
      if i < 0 || i > last || timers[i] != td {
        assert due - {td} == due && calls - {td} == calls;
        return;
      }
      RemoveAt(i);
      due, calls := due - {td}, calls - {td};
    }

    /** Replaces the exhausted free list by num new nodes. */
    method Grow()
      requires 0 < num
      modifies this`free, this`freeNodes
      ensures fresh(Nodes(freeNodes)) && |freeNodes| == num
      ensures Chain(free, freeNodes)
    {
      var first := new TimerData();
      free := first;
      freeNodes := [first];
      var td := first;
      for i := 1 to num
        invariant |freeNodes| == i && freeNodes[i - 1] == td
        invariant fresh(Nodes(freeNodes)) && td in Nodes(freeNodes)
        invariant Chain(free, freeNodes)
      {
        var node := new TimerData();
        td.next := node;
        td := node;
        assert Nodes(freeNodes + [node]) == Nodes(freeNodes) + {node};
        freeNodes := freeNodes + [node];
      }
      td.next := null;
    }

    /** Takes a node off the free list. */
    method Get() returns (td: TimerData)
      requires 0 < num && Chain(free, freeNodes)
      modifies this`free, this`freeNodes
      ensures Chain(free, freeNodes)
      ensures td !in Nodes(freeNodes)
      ensures fresh(Nodes(freeNodes) + {td} - old(Nodes(freeNodes)))
      ensures if old(freeNodes) != [] then [td] + freeNodes == old(freeNodes) else |freeNodes| == num - 1
    {
      if free == null {
        Grow();
      }
      td := free;
      ghost var was := freeNodes;
      assert td == was[0];
      free := td.next;
      freeNodes := freeNodes[1..];
      assert Nodes(was) == Nodes(freeNodes) + {was[0]};
      forall i | 0 <= i < |freeNodes|
        ensures freeNodes[i].next == Following(freeNodes, i)
      {
        assert freeNodes[i] == was[i + 1];
      }
    }

    method Put(td: TimerData)
      requires Chain(free, freeNodes) && td !in Nodes(freeNodes)
      modifies this`free, this`freeNodes, td`fn, td`next
      ensures Chain(free, freeNodes) && freeNodes == [td] + old(freeNodes)
      ensures td.fn == None
    {
      ghost var was := freeNodes;
      assert forall i :: 0 <= i < |was| ==> was[i] in Nodes(was);
      td.fn := None;
      td.next := free;
      free := td;
      freeNodes := [td] + freeNodes;
      assert forall i :: 0 < i < |freeNodes| ==> freeNodes[i] == was[i - 1];
    }

    constructor (num: nat)
      requires 0 < num
      ensures Valid() && this.num == num
      ensures View() == Plan(map[], map[], {}, None, true)
      ensures fresh(Nodes(freeNodes))
    {
      this.num := num;
      deadline, timers := None, [];
      free, freeNodes := null, [];
      due, calls, out, running := map[], map[], {}, true;
      new;
      Grow();
    }

    method Add(now: Instant, delay: int, fn: Option<Callback>) returns (td: TimerData)
      requires Valid()
      modifies this, Nodes(freeNodes), Nodes(timers)`index
      ensures Valid()
      ensures td !in old(out)
      ensures View() == old(View()).HandedOut(td).Scheduled(td, now + delay, fn)
      ensures Step(old(View()), Schedules(td, now + delay, fn), View())
      ensures fresh(Nodes(freeNodes) + {td} - old(Nodes(freeNodes)))
      ensures if old(freeNodes) != [] then [td] + freeNodes == old(freeNodes) else |freeNodes| == num - 1
    {
      hide Keys, Heap, Shape, Chain, AllAfter, Filled, Step, Plan.Wakes;
      td := Get();
      td.expire := now + delay;
      td.fn := fn;
      assert Filled() && View() == old(View());
      assert Nodes(freeNodes) !! out + {td};
      assert Chain(free, freeNodes);
      OperationsWake(View(), td, td.expire, fn);
      SchedulingIsStep(View(), td, td.expire, fn);
      Insert(td);
      out := out + {td};
      assert Chain(free, freeNodes);
      assert View().Wakes();
    }

    method Del(td: TimerData)
      requires Valid() && td in out
      modifies this, td`fn, td`next, Nodes(timers)`index
      ensures Valid()
      ensures View() == old(View()).Released(td)
      ensures Step(old(View()), Deletes(td), View())
      ensures freeNodes == [td] + old(freeNodes)
    {
      hide Keys, Heap, Shape, Chain, AllAfter, Filled, Plan.Wakes;
      OperationsWake(View(), td, 0, None);
      Remove(td);
      Put(td);
      out := out - {td};
    }

    method Set(td: TimerData, now: Instant, delay: int)
      requires Valid() && td in out
      modifies this`timers, this`due, this`calls, this`deadline, td`expire, td`index, Nodes(timers)`index
      ensures Valid()
      ensures View() == old(View()).Cancelled(td).Scheduled(td, now + delay, td.fn)
      ensures Step(old(View()), Schedules(td, now + delay, td.fn), View())
    {
      hide Keys, Heap, Shape, Chain, AllAfter, Filled, Step, Plan.Wakes;
      OperationsWake(View(), td, now + delay, td.fn);
      SchedulingIsStep(View(), td, now + delay, td.fn);
      Remove(td);
      td.expire := now + delay;
      Insert(td);
    }

    /** The signal has fired: the firing goroutine leaves its wait. */
    method Wake(now: Instant)
      requires Valid() && !running && deadline.Some? && deadline.value <= now
      modifies this`running
      ensures Valid() && View() == old(View()).(running := true)
      ensures Step(old(View()), WakesUp(now), View())
    {
      running := true;
    }

    /** One turn of the expiry loop, between two releases of the lock. */
    method ExpireStep(now: Instant) returns (fired: Option<TimerData>, fn: Option<Callback>)
      requires Valid() && running
      modifies this`timers, this`due, this`calls, this`deadline, this`running, Nodes(timers)`index
      ensures Valid()
      ensures Step(old(View()), if fired.Some? then Fires(fired.value, now) else Rests(now), View())
      ensures fired.Some? ==>
        var td := fired.value;
        && old(View()).Fires(td, now)
        && td in old(calls) && fn == old(calls)[td]
        && View() == old(View()).Cancelled(td)
      ensures fired.None? ==>
        && old(AllAfter(due, now))
        && View() == old(View()).(running := false, deadline := deadline)
        && View().ArmedAfresh()
    {
      hide Keys, Heap, Step;
      ghost var plan := View();
      fired, fn := None, None;
      if |timers| == 0 {
        deadline := None;
      } else {
        RootIsEarliest(timers);
        var td := timers[0];
        if td.expire <= now {
          fn := td.fn;
          fired := Some(td);
          Remove(td);
          FiringIsStep(plan, td, now);
          return;
        }
        deadline := Some(td.expire);
        assert td in due;
      }
      running := false;
      RestingIsStep(plan, View(), now);
    }

    /** One activation of the firing goroutine, with the clock read as now throughout. */
    method Expire(now: Instant) returns (fired: seq<TimerData>, fns: seq<Option<Callback>>)
      requires Valid() && running
      modifies this`timers, this`due, this`calls, this`deadline, this`running, Nodes(timers)`index
      ensures Valid() && !running
      ensures forall td :: td in fired <==> td in old(due) && old(due)[td] <= now
      ensures FiredInOrder(old(View()), fired, fns, now)
      ensures View() == old(View()).Without(Nodes(fired)).(running := false, deadline := deadline)
      ensures View().ArmedAfresh()
    {
      hide FiredInOrder, Filled, Shape, Heap, Chain;
      fired, fns := [], [];
      ghost var plan := View();
      assert FiredInOrder(plan, [], [], now) && View() == plan.Without(Nodes([])) by {
        EmptyFiring(plan, now);
      }
      while true
        invariant Valid() && running && Nodes(timers) == due.Keys <= plan.due.Keys
        invariant View() == plan.Without(Nodes(fired)).(deadline := deadline)
        invariant FiredInOrder(plan, fired, fns, now)
        decreases |due|
      {
        var td, fn := ExpireStep(now);
        if td.None? {
          AllFired(plan, fired, fns, now);
          break;
        }
        FireMore(plan, fired, fns, now, td.value, fn);
        WithoutOneMore(plan, fired, td.value);
        fired, fns := fired + [td.value], fns + [fn];
      }
    }
  }

  /** The entries fired so far were due, are distinct, come in the order of their deadlines, none
      of which is after a deadline still pending, and their callbacks were called in that order. */
  ghost predicate FiredInOrder(p: Plan, fired: seq<TimerData>, fns: seq<Option<Callback>>, now: Instant) {
    && (forall td :: td in fired ==> td in p.due && td in p.calls && p.due[td] <= now)
    && (forall td, h :: td in fired && h in p.due && h !in fired ==> p.due[td] <= p.due[h])
    && (forall i, j :: 0 <= i < j < |fired| ==> fired[i] != fired[j] && p.due[fired[i]] <= p.due[fired[j]])
    && |fns| == |fired|
    && (forall i :: 0 <= i < |fns| ==> fns[i] == p.calls[fired[i]])
  }

  lemma EmptyFiring(p: Plan, now: Instant)
    ensures FiredInOrder(p, [], [], now) && p == p.Without(Nodes([]))
  {
    assert p.due - {} == p.due && p.calls - {} == p.calls;
  }

  lemma WithoutOneMore(p: Plan, fired: seq<TimerData>, td: TimerData)
    requires td in p.due && td !in fired
    ensures p.Without(Nodes(fired)).Cancelled(td) == p.Without(Nodes(fired + [td]))
    ensures |p.Without(Nodes(fired + [td])).due| < |p.Without(Nodes(fired)).due|
  {
    var left := p.Without(Nodes(fired));
    assert Nodes(fired + [td]) == Nodes(fired) + {td};
    assert p.due - (Nodes(fired) + {td}) == left.due - {td};
    assert p.calls - (Nodes(fired) + {td}) == left.calls - {td};
    assert left.due == left.Cancelled(td).due[td := left.due[td]];
  }

  lemma FireMore(p: Plan, fired: seq<TimerData>, fns: seq<Option<Callback>>, now: Instant,
                 td: TimerData, fn: Option<Callback>)
    requires FiredInOrder(p, fired, fns, now)
    requires p.Without(Nodes(fired)).Fires(td, now)
    requires td in p.calls && fn == p.calls[td]
    ensures FiredInOrder(p, fired + [td], fns + [fn], now)
  {
    var left := p.Without(Nodes(fired));
    assert td !in fired;
    forall h | h in p.due && h !in fired
      ensures p.due[td] <= p.due[h]
    {
      assert h in left.due;
    }
    forall i | 0 <= i < |fired|
      ensures fired[i] != td && p.due[fired[i]] <= p.due[td]
    {
      assert fired[i] in fired;
    }
  }

  /** Once nothing due is left, exactly the due entries have been fired. */
  lemma AllFired(p: Plan, fired: seq<TimerData>, fns: seq<Option<Callback>>, now: Instant)
    requires FiredInOrder(p, fired, fns, now)
    requires AllAfter(p.Without(Nodes(fired)).due, now)
    ensures forall td :: td in fired <==> td in p.due && p.due[td] <= now
  {
    forall td | td in p.due && p.due[td] <= now
      ensures td in fired
    {
      assert td !in fired ==> td in p.Without(Nodes(fired)).due;
    }
  }

  datatype Event =
    | Schedules(td: TimerData, at: Instant, fn: Option<Callback>)  // Add or Set
    | Deletes(td: TimerData)
    | WakesUp(now: Instant)
    | Fires(td: TimerData, now: Instant)
    | Rests(now: Instant)
  {
    ghost predicate Touches(h: TimerData) {
      !WakesUp? && !Rests? && td == h
    }
  }

  /** One lock section of Add, Set, Del or the expiry loop, or one delivery of the signal. */
  ghost predicate Step(p: Plan, e: Event, q: Plan) {
    match e
    case Schedules(td, at, fn) =>
      if td in p.out then q == p.Cancelled(td).Scheduled(td, at, fn)
      else q == p.HandedOut(td).Scheduled(td, at, fn)
    case Deletes(td) => td in p.out && q == p.Released(td)
    case WakesUp(now) =>
      !p.running && p.deadline.Some? && p.deadline.value <= now && q == p.(running := true)
    case Fires(td, now) => p.running && p.Fires(td, now) && q == p.Cancelled(td)
    case Rests(now) =>
      p.running && AllAfter(p.due, now) && q == p.(running := false, deadline := q.deadline) && q.ArmedAfresh()
  }

  lemma SchedulingIsStep(p: Plan, td: TimerData, at: Instant, fn: Option<Callback>)
    ensures td in p.out ==> Step(p, Schedules(td, at, fn), p.Cancelled(td).Scheduled(td, at, fn))
    ensures td !in p.out ==> Step(p, Schedules(td, at, fn), p.HandedOut(td).Scheduled(td, at, fn))
  {
  }

  lemma FiringIsStep(p: Plan, td: TimerData, now: Instant)
    requires p.running && p.Fires(td, now)
    ensures Step(p, Event.Fires(td, now), p.Cancelled(td))
  {
  }

  lemma RestingIsStep(p: Plan, q: Plan, now: Instant)
    requires p.running && AllAfter(p.due, now) && q == p.(running := false, deadline := q.deadline) && q.ArmedAfresh()
    ensures Step(p, Rests(now), q)
  {
  }

  ghost predicate Run(plans: seq<Plan>, events: seq<Event>) {
    && |plans| == |events| + 1
    && plans[0] == Plan(map[], map[], {}, None, true)
    && forall i :: 0 <= i < |events| ==> Step(plans[i], events[i], plans[i + 1])
  }

  /** Whatever the interleaving, no entry falls due before the signal while the firing
      goroutine waits, and only handed-out nodes are pending. */
  lemma {:induction false} NeverLate(plans: seq<Plan>, events: seq<Event>, i: nat)
    requires Run(plans, events) && i < |plans|
    ensures plans[i].Wakes() && plans[i].due.Keys <= plans[i].out && plans[i].calls.Keys == plans[i].due.Keys
  {
    if i != 0 {
      NeverLate(plans, events, i - 1);
      assert Step(plans[i - 1], events[i - 1], plans[i]);
      if events[i - 1].Schedules? {
        OperationsWake(plans[i - 1], events[i - 1].td, events[i - 1].at, events[i - 1].fn);
      }
    }
  }

  /** What is pending was scheduled, with that deadline and callback, and not touched since. */
  lemma {:induction false} PendingWasScheduled(plans: seq<Plan>, events: seq<Event>, i: nat, td: TimerData)
    returns (j: nat)
    requires Run(plans, events) && i < |plans| && td in plans[i].due
    ensures j < i && events[j].Schedules? && events[j].td == td
    ensures events[j].at == plans[i].due[td]
    ensures td in plans[i].calls && events[j].fn == plans[i].calls[td]
    ensures forall k :: j < k < i ==> !events[k].Touches(td)
  {
    NeverLate(plans, events, i);
    NeverLate(plans, events, i - 1);
    assert Step(plans[i - 1], events[i - 1], plans[i]);
    if events[i - 1].Touches(td) {
      j := i - 1;
    } else {
      j := PendingWasScheduled(plans, events, i - 1, td);
    }
  }

  /** Every firing answers exactly one scheduling: the latest, which is due, not cancelled and not fired before. */
  lemma FiringsWereScheduled(plans: seq<Plan>, events: seq<Event>, i: nat) returns (j: nat)
    requires Run(plans, events) && i < |events| && events[i].Fires?
    ensures j < i && events[j].Schedules? && events[j].td == events[i].td
    ensures events[j].at <= events[i].now
    ensures forall k :: j < k < i ==> !events[k].Touches(events[i].td)
  {
    assert Step(plans[i], events[i], plans[i + 1]);
    j := PendingWasScheduled(plans, events, i, events[i].td);
  }
}
