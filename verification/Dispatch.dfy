/** One connection's two goroutines: the reader loop of ServeTCP and the loop of dispatchTCP
    (internal/comet/server_tcp.go), which share the ring (ring.go) and the bounded signal
    queue (channel.go), while other goroutines push to the same queue. Each action is one
    atomic access to what they share. */
module Dispatch {
  import opened Basics
  import opened Protos
  import opened Rings

  datatype Reader =
    | AtSet     // the loop head: about to ask the ring for a slot
    | AtRead    // holds a slot, reads and handles a request in it
    | AtSetAdv  // the slot holds the reply
    | AtSignal  // about to send Ready, which blocks while the queue is full
    | AtClose   // left the loop: about to send Finish, which blocks likewise
    | Done

  datatype Dispatcher =
    | AtReady            // blocks while the queue is empty
    | AtGet              // answers Ready: about to ask the ring for a reply
    | AtReply            // about to write the reply
    | AtBlank            // about to drop the body of the reply just written
    | AtGetAdv
    | AtMessage(p: Proto)  // about to write a pushed message
    | AtFlush
    | Failed             // discards signals up to Finish
    | Exited

  datatype Output = Reply(p: Proto) | Pushed(p: Proto)

  datatype State = State(
    ring: RingState,
    cap: nat,
    queue: seq<Signal>,
    reader: Reader,
    dispatcher: Dispatcher,
    requests: seq<Proto>,  // history: what SetAdv published
    accepted: seq<Proto>,  // history: what Push put into the queue
    taken: seq<Signal>,    // history: what Ready returned
    out: seq<Output>,      // history: what was written to the connection's buffer
    flushed: seq<Output>,  // history: as much of it as has been flushed
    foreign: nat)          // history: how often another goroutine closed the channel
  {
    predicate Room() { |queue| < cap }

    function Sent(x: Signal): State { this.(queue := queue + [x]) }
  }

  datatype Action =
    | SetOk | SetFull | Scribble(p: Proto) | ReadOk(p: Proto) | ReadFail | SetAdv | SendReady | SendFinish
    | Push(p: Proto) | ForeignClose
    | Receive | GetOk | GetEmpty | WriteOk | WriteFail | Blank | GetAdv | FlushOk | FlushFail
  {
    predicate OfDispatcher() {
      Receive? || GetOk? || GetEmpty? || WriteOk? || WriteFail? || Blank? || GetAdv? || FlushOk? || FlushFail?
    }
  }

  /** The slots that Get and Set point at exist. */
  predicate InRange(s: State) {
    s.ring.data != [] && s.ring.Slot(s.ring.rp) < |s.ring.data| && s.ring.Slot(s.ring.wp) < |s.ring.data|
  }

  predicate Enabled(s: State, a: Action)
    requires InRange(s)
  {
    match a
    case SetOk => s.reader == AtSet && !s.ring.Full()
    case SetFull => s.reader == AtSet && s.ring.Full()
    case Scribble(_) => s.reader == AtRead
    case ReadOk(_) => s.reader == AtRead
    case ReadFail => s.reader == AtRead
    case SetAdv => s.reader == AtSetAdv
    case SendReady => s.reader == AtSignal && s.Room()
    case SendFinish => s.reader == AtClose && s.Room()
    case Push(_) => true
    case ForeignClose => s.Room()
    case Receive => (s.dispatcher == AtReady || s.dispatcher == Failed) && s.queue != []
    case GetOk => s.dispatcher == AtGet && !s.ring.Empty()
    case GetEmpty => s.dispatcher == AtGet && s.ring.Empty()
    case WriteOk => s.dispatcher == AtReply || s.dispatcher.AtMessage?
    case WriteFail => s.dispatcher == AtReply || s.dispatcher.AtMessage?
    case Blank => s.dispatcher == AtBlank
    case GetAdv => s.dispatcher == AtGetAdv
    case FlushOk => s.dispatcher == AtFlush
    case FlushFail => s.dispatcher == AtFlush
  }

  /** What Ready's caller does with the signal. */
  function Received(d: Dispatcher, x: Signal): Dispatcher {
    match x
    case Finish => Exited
    case Ready => if d == Failed then Failed else AtGet
    case Message(p) => if d == Failed then Failed else AtMessage(p)
  }

  function Apply(s: State, a: Action): State
    requires InRange(s) && Enabled(s, a)
  {
    var head, tail := s.ring.Slot(s.ring.rp), s.ring.Slot(s.ring.wp);
    match a
    case SetOk => s.(reader := AtRead)
    case SetFull => s.(reader := AtClose)
    case Scribble(p) => s.(ring := s.ring.Stored(tail, p))
    case ReadOk(p) => s.(ring := s.ring.Stored(tail, p), reader := AtSetAdv)
    case ReadFail => s.(reader := AtClose)
    case SetAdv => s.(ring := s.ring.WriteAdvanced(), requests := s.requests + [s.ring.data[tail]], reader := AtSignal)
    case SendReady => s.Sent(Ready).(reader := AtSet)
    case SendFinish => s.Sent(Finish).(reader := Done)
    case Push(p) => if s.Room() then s.Sent(Message(p)).(accepted := s.accepted + [p]) else s
    case ForeignClose => s.Sent(Finish).(foreign := s.foreign + 1)
    case Receive =>
      s.(queue := s.queue[1..], taken := s.taken + [s.queue[0]], dispatcher := Received(s.dispatcher, s.queue[0]))
    case GetOk => s.(dispatcher := AtReply)
    case GetEmpty => s.(dispatcher := AtFlush)
    case WriteOk =>
      if s.dispatcher == AtReply
      then s.(out := s.out + [Reply(s.ring.data[head])], dispatcher := AtBlank)
      else s.(out := s.out + [Pushed(s.dispatcher.p)], dispatcher := AtFlush)
    case WriteFail => s.(dispatcher := Failed)
    case Blank => s.(ring := s.ring.Stored(head, s.ring.data[head].(body := [])), dispatcher := AtGetAdv)
    case GetAdv => s.(ring := s.ring.ReadAdvanced(), dispatcher := AtGet)
    case FlushOk => s.(flushed := s.out, dispatcher := AtReady)
    case FlushFail => s.(dispatcher := Failed)
  }

  function Replies(out: seq<Output>): seq<Proto> {
    if out == [] then []
    else
      var n := |out| - 1;
      if out[n].Reply? then Replies(out[..n]) + [out[n].p] else Replies(out[..n])
  }

  function PushedOnly(out: seq<Output>): seq<Proto> {
    if out == [] then []
    else
      var n := |out| - 1;
      if out[n].Pushed? then PushedOnly(out[..n]) + [out[n].p] else PushedOnly(out[..n])
  }

  function Messages(xs: seq<Signal>): seq<Proto> {
    if xs == [] then []
    else
      var n := |xs| - 1;
      if xs[n].Message? then Messages(xs[..n]) + [xs[n].p] else Messages(xs[..n])
  }

  /** The unread part of the ring that has not been written to the connection either. */
  ghost function Unanswered(s: State): seq<Proto>
    requires s.ring.Valid()
  {
    var q := s.ring.Queue();
    if (s.dispatcher == AtBlank || s.dispatcher == AtGetAdv) && q != [] then q[1..] else q
  }

  ghost predicate Inv(s: State) {
    && s.ring.Valid() && s.ring.data != []
    && |s.queue| <= s.cap && 1 <= s.cap
    && (s.reader == AtRead || s.reader == AtSetAdv ==> !s.ring.Full())
    && (s.dispatcher == AtReply || s.dispatcher == AtBlank || s.dispatcher == AtGetAdv ==> !s.ring.Empty())
    // requests are answered in order
    && s.requests == Replies(s.out) + Unanswered(s)
    // pushed messages pass through the queue in order
    && s.accepted == Messages(s.taken) + Messages(s.queue)
    && (match s.dispatcher
        case AtMessage(p) => Messages(s.taken) == PushedOnly(s.out) + [p]
        case Failed => PushedOnly(s.out) <= Messages(s.taken)
        case Exited => PushedOnly(s.out) <= Messages(s.taken)
        case _ => Messages(s.taken) == PushedOnly(s.out))
    // what is flushed was written, and nothing waits in the buffer while the dispatcher waits
    && s.flushed <= s.out
    && (s.dispatcher == AtReady ==> s.flushed == s.out)
    // no wake-up is lost
    && (s.ring.Empty() || s.reader == AtSignal || Ready in s.queue || Draining(s.dispatcher))
    // the queue is closed last
    && (s.dispatcher == Exited <==> Finish in s.taken)
    && (s.foreign == 0 && (Finish in s.queue || Finish in s.taken) ==> s.reader == Done)
  }

  predicate Draining(d: Dispatcher) {
    d == AtGet || d == AtReply || d == AtBlank || d == AtGetAdv || d == Failed || d == Exited
  }

  lemma {:induction false} MessagesConcat(xs: seq<Signal>, ys: seq<Signal>)
    ensures Messages(xs + ys) == Messages(xs) + Messages(ys)
  {
    if ys == [] {
      assert xs + ys == xs;
    } else {
      var n := |ys| - 1;
      MessagesConcat(xs, ys[..n]);
      assert (xs + ys)[..|xs| + n] == xs + ys[..n];
      assert (xs + ys)[|xs| + n] == ys[n];
    }
  }

  lemma OneMessage(xs: seq<Signal>, x: Signal)
    ensures Messages(xs + [x]) == Messages(xs) + if x.Message? then [x.p] else []
  {
    assert (xs + [x])[..|xs|] == xs;
  }

  lemma FirstMessage(xs: seq<Signal>)
    requires xs != []
    ensures Messages(xs) == (if xs[0].Message? then [xs[0].p] else []) + Messages(xs[1..])
  {
    assert xs == [xs[0]] + xs[1..];
    MessagesConcat([xs[0]], xs[1..]);
    OneMessage([], xs[0]);
    assert [] + [xs[0]] == [xs[0]];
  }

  lemma OneOutput(out: seq<Output>, x: Output)
    ensures Replies(out + [x]) == Replies(out) + if x.Reply? then [x.p] else []
    ensures PushedOnly(out + [x]) == PushedOnly(out) + if x.Pushed? then [x.p] else []
  {
    assert (out + [x])[..|out|] == out;
  }

  lemma InvInRange(s: State)
    requires Inv(s)
    ensures InRange(s)
  {
    s.ring.ReadSlot();
    s.ring.WriteSlot();
  }

  lemma ReaderKeepsInv(s: State, a: Action)
    requires Inv(s) && InRange(s) && Enabled(s, a)
    requires a.SetOk? || a.SetFull? || a.Scribble? || a.ReadOk? || a.ReadFail? || a.SetAdv?
    ensures Inv(Apply(s, a))
  {
    hide RingState.Valid, RingState.Queue, RingState.Slot, Rings.Wrap, Messages, PushedOnly, Replies;
    s.ring.EmptyIff();
    if a.Scribble? || a.ReadOk? {
      s.ring.Tail(a.p);
    } else if a.SetAdv? {
      s.ring.Pushed();
      s.ring.WriteAdvanced().EmptyIff();
    }
  }

  lemma SenderKeepsInv(s: State, a: Action)
    requires Inv(s) && InRange(s) && Enabled(s, a) && (a.SendReady? || a.SendFinish? || a.Push? || a.ForeignClose?)
    ensures Inv(Apply(s, a))
  {
    hide RingState.Valid, RingState.Queue, RingState.Slot, Rings.Wrap, Messages, PushedOnly, Replies;
    var x := if a.SendReady? then Ready else if a.Push? then Message(a.p) else Finish;
    OneMessage(s.queue, x);
    assert forall y :: y in s.queue + [x] <==> y in s.queue || y == x;
  }

  lemma ReceiverKeepsInv(s: State)
    requires Inv(s) && InRange(s) && Enabled(s, Receive)
    ensures Inv(Apply(s, Receive))
  {
    hide RingState.Valid, RingState.Queue, RingState.Slot, Rings.Wrap, Messages, PushedOnly, Replies;
    var x, rest := s.queue[0], s.queue[1..];
    FirstMessage(s.queue);
    OneMessage(s.taken, x);
    assert forall y :: y in s.queue <==> y == x || y in rest;
    assert forall y :: y in s.taken + [x] <==> y in s.taken || y == x;
  }

  lemma WriterKeepsInv(s: State, a: Action)
    requires Inv(s) && InRange(s) && Enabled(s, a) && a.OfDispatcher() && !a.Receive?
    ensures Inv(Apply(s, a))
  {
    hide Inv, InRange, Apply;
    if a.WriteOk? {
      WriteKeepsInv(s);
    } else if a.Blank? || a.GetAdv? {
      RingKeepsInv(s, a);
    } else if a.WriteFail? || a.FlushFail? {
      FailureKeepsInv(s, a);
    } else {
      PassingKeepsInv(s, a);
    }
  }

  lemma FailureKeepsInv(s: State, a: Action)
    requires Inv(s) && InRange(s) && Enabled(s, a) && (a.WriteFail? || a.FlushFail?)
    ensures Inv(Apply(s, a))
  {
    hide RingState.Valid, RingState.Queue, RingState.Slot, RingState.Empty, Rings.Wrap, Messages, PushedOnly, Replies;
    s.ring.EmptyIff();
  }

  lemma PassingKeepsInv(s: State, a: Action)
    requires Inv(s) && InRange(s) && Enabled(s, a) && (a.GetOk? || a.GetEmpty? || a.FlushOk?)
    ensures Inv(Apply(s, a))
  {
    hide RingState.Valid, RingState.Queue, RingState.Slot, Rings.Wrap, Messages, PushedOnly, Replies;
    s.ring.EmptyIff();
  }

  lemma WriteKeepsInv(s: State)
    requires Inv(s) && InRange(s) && Enabled(s, WriteOk)
    ensures Inv(Apply(s, WriteOk))
  {
    hide RingState.Valid, RingState.Queue, RingState.Slot, Rings.Wrap, Messages, PushedOnly, Replies;
    s.ring.EmptyIff();
    if s.dispatcher == AtReply {
      s.ring.Head(EMPTY);
      OneOutput(s.out, Reply(s.ring.data[s.ring.Slot(s.ring.rp)]));
    } else {
      OneOutput(s.out, Pushed(s.dispatcher.p));
    }
  }

  lemma RingKeepsInv(s: State, a: Action)
    requires Inv(s) && InRange(s) && Enabled(s, a) && (a.Blank? || a.GetAdv?)
    ensures Inv(Apply(s, a))
  {
    hide RingState.Valid, RingState.Queue, RingState.Slot, Rings.Wrap, Messages, PushedOnly, Replies;
    s.ring.EmptyIff();
    if a.Blank? {
      s.ring.Head(s.ring.data[s.ring.Slot(s.ring.rp)].(body := []));
    } else {
      s.ring.Popped();
      s.ring.ReadAdvanced().EmptyIff();
      Shrinks(s.ring);
    }
  }

  lemma Shrinks(r: RingState)
    requires r.Valid() && !r.Empty()
    ensures r.ReadAdvanced().Valid() && !r.ReadAdvanced().Full()
  {
    r.EmptyIff();
    r.Popped();
    assert |r.ReadAdvanced().Queue()| == |r.Queue()| - 1;
  }

  lemma StepKeepsInv(s: State, a: Action)
    requires Inv(s) && InRange(s) && Enabled(s, a)
    ensures Inv(Apply(s, a))
  {
    if a.Receive? {
      ReceiverKeepsInv(s);
    } else if a.OfDispatcher() {
      WriterKeepsInv(s, a);
    } else if a.SendReady? || a.SendFinish? || a.Push? || a.ForeignClose? {
      SenderKeepsInv(s, a);
    } else {
      ReaderKeepsInv(s, a);
    }
  }

  ghost predicate Step(s: State, a: Action, t: State) {
    InRange(s) && Enabled(s, a) && t == Apply(s, a)
  }

  ghost predicate Initial(s: State) {
    && s.ring.Valid() && s.ring.data != [] && s.ring.Empty() && 1 <= s.cap
    && s == State(s.ring, s.cap, [], AtSet, AtReady, [], [], [], [], [], 0)
  }

  ghost predicate Run(states: seq<State>, actions: seq<Action>) {
    && |states| == |actions| + 1
    && Initial(states[0])
    && forall i :: 0 <= i < |actions| ==> Step(states[i], actions[i], states[i + 1])
  }

  lemma {:induction false} RunKeepsInv(states: seq<State>, actions: seq<Action>, i: nat)
    requires Run(states, actions) && i < |states|
    ensures Inv(states[i])
  {
    hide Inv, Initial, InRange, Enabled, Apply;
    if i == 0 {
      InitiallyInv(states[0]);
    } else {
      RunKeepsInv(states, actions, i - 1);
      assert Step(states[i - 1], actions[i - 1], states[i]);
      StepKeepsInv(states[i - 1], actions[i - 1]);
    }
  }

  lemma InitiallyInv(s: State)
    requires Initial(s)
    ensures Inv(s)
  {
    s.ring.EmptyIff();
  }

  /** No lost wake-up: while the dispatcher waits and a reply is ready, a Ready is queued or about to be sent. */
  lemma NoLostWakeup(states: seq<State>, actions: seq<Action>, i: nat)
    requires Run(states, actions) && i < |states|
    ensures states[i].ring.Valid()
    ensures states[i].dispatcher == AtReady && states[i].ring.Queue() != [] ==>
      Ready in states[i].queue || states[i].reader == AtSignal
  {
    RunKeepsInv(states, actions, i);
    states[i].ring.EmptyIff();
  }

  /** What reaches the connection is, in order, a prefix of the replies published and of the messages accepted. */
  lemma OutputInOrder(states: seq<State>, actions: seq<Action>, i: nat)
    requires Run(states, actions) && i < |states|
    ensures Replies(states[i].flushed) <= Replies(states[i].out) <= states[i].requests
    ensures PushedOnly(states[i].flushed) <= PushedOnly(states[i].out) <= states[i].accepted
  {
    RunKeepsInv(states, actions, i);
    PrefixOfOutput(states[i].flushed, states[i].out);
  }

  lemma {:induction false} PrefixOfOutput(front: seq<Output>, out: seq<Output>)
    requires front <= out
    ensures Replies(front) <= Replies(out) && PushedOnly(front) <= PushedOnly(out)
  {
    if front == out {
    } else {
      var n := |out| - 1;
      assert front <= out[..n];
      PrefixOfOutput(front, out[..n]);
    }
  }

  /** When the dispatcher waits on an empty queue and no signal is on its way, everything has reached the connection. */
  lemma QuietMeansAnswered(states: seq<State>, actions: seq<Action>, i: nat)
    requires Run(states, actions) && i < |states|
    requires states[i].dispatcher == AtReady && states[i].queue == [] && states[i].reader != AtSignal
    ensures Replies(states[i].flushed) == states[i].requests
    ensures PushedOnly(states[i].flushed) == states[i].accepted
  {
    RunKeepsInv(states, actions, i);
    states[i].ring.EmptyIff();
  }

  /** The state after the actions, one after the other, if each of them is possible in its turn. */
  ghost function After(s: State, actions: seq<Action>): Option<State> {
    if actions == [] then Some(s)
    else
      var n := |actions| - 1;
      match After(s, actions[..n])
      case None => None
      case Some(t) => if InRange(t) && Enabled(t, actions[n]) then Some(Apply(t, actions[n])) else None
  }

  ghost predicate Leads(s: State, actions: seq<Action>, t: State) {
    After(s, actions) == Some(t)
  }

  lemma {:induction false} LeadsOn(s: State, a: seq<Action>, t: State, b: seq<Action>, u: State)
    requires Leads(s, a, t) && Leads(t, b, u)
    ensures Leads(s, a + b, u)
    decreases |b|
  {
    hide InRange, Enabled, Apply;
    if b == [] {
      assert a + b == a;
    } else {
      var n := |b| - 1;
      LeadsOn(s, a, t, b[..n], After(t, b[..n]).value);
      assert (a + b)[..|a| + n] == a + b[..n];
    }
  }

  lemma Stays(s: State)
    ensures Leads(s, [], s)
  {
  }

  /** One more action. */
  lemma Then(s: State, actions: seq<Action>, t: State, a: Action) returns (u: State)
    requires Leads(s, actions, t) && Inv(t) && InRange(t) && Enabled(t, a)
    ensures u == Apply(t, a) && Leads(s, actions + [a], u) && Inv(u) && InRange(u)
  {
    hide Inv, InRange, Enabled, Apply;
    u := Apply(t, a);
    StepKeepsInv(t, a);
    InvInRange(u);
    assert (actions + [a])[..|actions|] == actions;
  }

  /** The reader is about to ask for a slot, the dispatcher waits, and nothing is queued or unread. */
  ghost predicate Quiet(s: State) {
    s.reader == AtSet && s.dispatcher == AtReady && s.queue == [] && s.ring.Empty()
  }

  /** The reader handles one request. */
  lemma RequestIsPublished(s: State, p: Proto) returns (t: State)
    requires Inv(s) && Quiet(s)
    ensures Leads(s, [SetOk, ReadOk(p), SetAdv, SendReady], t) && Inv(t)
    ensures InRange(s) && var slot := s.ring.Slot(s.ring.wp);
      t == s.(ring := s.ring.Stored(slot, p).WriteAdvanced(), requests := s.requests + [p], queue := [Ready])
  {
    hide Inv, InRange, After, Leads, RingState.Slot, RingState.Valid, RingState.Queue, Rings.Wrap;
    RingNotFull(s);
    InvInRange(s);
    SlotsExist(s);
    Stays(s);
    assert [] + [SetOk] == [SetOk];
    t := Then(s, [], s, SetOk);
    SlotsExist(t);
    t := Then(s, [SetOk], t, ReadOk(p));
    SlotsExist(t);
    SlotsStay(s.ring, s.ring.Slot(s.ring.wp), p);
    t := Then(s, [SetOk] + [ReadOk(p)], t, SetAdv);
    t := Then(s, [SetOk] + [ReadOk(p)] + [SetAdv], t, SendReady);
    assert [SetOk] + [ReadOk(p)] + [SetAdv] + [SendReady] == [SetOk, ReadOk(p), SetAdv, SendReady];
  }

  /** The dispatcher answers the one request there is, and goes back to waiting. */
  lemma RequestIsWritten(s: State, p: Proto) returns (t: State)
    requires Inv(s) && InRange(s) && s.reader == AtSet && s.dispatcher == AtReady && s.queue == [Ready]
    requires !s.ring.Empty() && s.ring.ReadAdvanced().Empty() && s.ring.data[s.ring.Slot(s.ring.rp)] == p
    ensures Leads(s, [Receive, GetOk, WriteOk, Blank, Action.GetAdv, GetEmpty, FlushOk], t) && Inv(t)
    ensures var slot := s.ring.Slot(s.ring.rp);
      t == s.(ring := s.ring.Stored(slot, p.(body := [])).ReadAdvanced(), queue := [], taken := s.taken + [Ready],
              out := s.out + [Reply(p)], flushed := s.out + [Reply(p)])
  {
    hide Inv, InRange, After, Leads, RingState.Slot, RingState.Valid, RingState.Queue, Rings.Wrap;
    SlotsExist(s);
    SlotsStay(s.ring, s.ring.Slot(s.ring.rp), p.(body := []));
    Stays(s);
    assert [] + [Receive] == [Receive];
    t := Then(s, [], s, Receive);
    t := Then(s, [Receive], t, GetOk);
    t := Then(s, [Receive] + [GetOk], t, WriteOk);
    t := Then(s, [Receive] + [GetOk] + [WriteOk], t, Blank);
    t := Then(s, [Receive] + [GetOk] + [WriteOk] + [Blank], t, Action.GetAdv);
    t := Then(s, [Receive] + [GetOk] + [WriteOk] + [Blank] + [Action.GetAdv], t, GetEmpty);
    t := Then(s, [Receive] + [GetOk] + [WriteOk] + [Blank] + [Action.GetAdv] + [GetEmpty], t, FlushOk);
    assert [Receive] + [GetOk] + [WriteOk] + [Blank] + [Action.GetAdv] + [GetEmpty] + [FlushOk]
      == [Receive, GetOk, WriteOk, Blank, Action.GetAdv, GetEmpty, FlushOk];
  }

  /** A request that comes alone is answered: its reply reaches the connection, the body is dropped from its
      slot, and all is quiet again. */
  lemma RequestIsAnswered(s: State, p: Proto) returns (t: State)
    requires Inv(s) && Quiet(s)
    ensures Leads(s, [SetOk, ReadOk(p), SetAdv, SendReady] +
                     [Receive, GetOk, WriteOk, Blank, Action.GetAdv, GetEmpty, FlushOk], t)
    ensures t == s.(ring := t.ring, requests := s.requests + [p], taken := s.taken + [Ready],
                    out := s.out + [Reply(p)], flushed := s.out + [Reply(p)])
    ensures Quiet(t) && InRange(s) && s.ring.Slot(s.ring.wp) < |t.ring.data|
    ensures t.ring.data[s.ring.Slot(s.ring.wp)] == p.(body := [])
  {
    hide Inv, After, Leads, RingState.Slot, RingState.Valid, RingState.Queue;
    InvInRange(s);
    var mid := RequestIsPublished(s, p);
    InvInRange(mid);
    SlotsExist(s);
    OneInRing(s.ring, p);
    t := RequestIsWritten(mid, p);
    LeadsOn(s, [SetOk, ReadOk(p), SetAdv, SendReady], mid,
            [Receive, GetOk, WriteOk, Blank, Action.GetAdv, GetEmpty, FlushOk], t);
  }

  lemma OneInRing(r: RingState, p: Proto)
    requires r.Empty() && r.data != [] && r.Slot(r.wp) < |r.data|
    ensures var m := r.Stored(r.Slot(r.wp), p).WriteAdvanced();
      !m.Empty() && m.ReadAdvanced().Empty() && m.Slot(m.rp) == r.Slot(r.wp)
  {
  }

  lemma SlotsStay(r: RingState, slot: nat, p: Proto)
    requires r.data != [] && slot < |r.data|
    ensures r.Stored(slot, p).data != [] && r.Stored(slot, p).Slot(r.rp) == r.Slot(r.rp)
    ensures r.Stored(slot, p).Slot(r.wp) == r.Slot(r.wp)
  {
  }

  /** A message pushed to a waiting dispatcher reaches the connection. */
  lemma PushIsDelivered(s: State, p: Proto) returns (t: State)
    requires Inv(s) && s.dispatcher == AtReady && s.queue == []
    ensures Leads(s, [Push(p), Receive, WriteOk, FlushOk], t)
    ensures t == s.(accepted := s.accepted + [p], taken := s.taken + [Message(p)],
                    out := s.out + [Pushed(p)], flushed := s.out + [Pushed(p)])
  {
    hide Inv, InRange, After, Leads;
    InvInRange(s);
    HasCapacity(s);
    Stays(s);
    assert [] + [Push(p)] == [Push(p)];
    t := Then(s, [], s, Push(p));
    t := Then(s, [Push(p)], t, Receive);
    t := Then(s, [Push(p)] + [Receive], t, WriteOk);
    t := Then(s, [Push(p)] + [Receive] + [WriteOk], t, FlushOk);
    assert [Push(p)] + [Receive] + [WriteOk] + [FlushOk] == [Push(p), Receive, WriteOk, FlushOk];
  }

  lemma HasCapacity(s: State)
    requires Inv(s)
    ensures 1 <= s.cap
  {
  }

  /** A push is accepted exactly if the queue has room, and otherwise changes nothing. */
  lemma PushNeedsRoom(s: State, p: Proto)
    requires InRange(s)
    ensures Enabled(s, Push(p))
    ensures Apply(s, Push(p)) ==
      if |s.queue| < s.cap then s.(queue := s.queue + [Message(p)], accepted := s.accepted + [p]) else s
  {
  }

  /** A reader that fails to read, or finds the ring full, ends both goroutines. */
  lemma TeardownEnds(s: State) returns (t: State)
    requires Inv(s) && (s.reader == AtRead || (s.reader == AtSet && s.ring.Full()))
    requires (s.dispatcher == AtReady || s.dispatcher == Failed) && s.queue == []
    ensures Leads(s, [if s.reader == AtRead then ReadFail else SetFull, SendFinish, Receive], t)
    ensures t == s.(reader := Done, dispatcher := Exited, taken := s.taken + [Finish])
  {
    hide Inv, InRange, After, Leads, RingState.Full;
    InvInRange(s);
    HasCapacity(s);
    var a := if s.reader == AtRead then ReadFail else SetFull;
    Stays(s);
    assert [] + [a] == [a];
    t := Then(s, [], s, a);
    t := Then(s, [a], t, SendFinish);
    t := Then(s, [a] + [SendFinish], t, Receive);
    assert [a] + [SendFinish] + [Receive] == [a, SendFinish, Receive];
  }

  /** A write can fail wherever the dispatcher writes, and a flush where it flushes. It then writes nothing more. */
  lemma FailureStops(s: State)
    requires InRange(s) && (s.dispatcher == AtReply || s.dispatcher.AtMessage? || s.dispatcher == AtFlush)
    ensures var a := if s.dispatcher == AtFlush then FlushFail else WriteFail;
      Enabled(s, a) && Apply(s, a) == s.(dispatcher := Failed)
  {
  }

  /** After that the dispatcher discards what is queued and waits for the end. */
  lemma FailureOnlyDrains(s: State)
    requires InRange(s) && s.dispatcher == Failed && s.queue != []
    ensures Enabled(s, Receive)
    ensures Apply(s, Receive) == s.(queue := s.queue[1..], taken := s.taken + [s.queue[0]],
                                    dispatcher := if s.queue[0] == Finish then Exited else Failed)
  {
  }

  lemma SlotsExist(s: State)
    requires InRange(s)
    ensures s.ring.data != [] && s.ring.Slot(s.ring.rp) < |s.ring.data| && s.ring.Slot(s.ring.wp) < |s.ring.data|
  {
  }

  lemma RingNotFull(s: State)
    requires Inv(s) && s.ring.Empty()
    ensures !s.ring.Full() && 1 <= s.cap
  {
    s.ring.EmptyIff();
  }

  /** The reader waits in a send on the full queue. */
  predicate Blocked(s: State) {
    (s.reader == AtSignal || s.reader == AtClose) && !s.Room()
  }

  /** How many dispatcher actions there can be before the next Receive while the reader is blocked. */
  function Work(s: State): nat {
    match s.dispatcher
    case AtGet => 4 * s.ring.Len() + 3
    case AtReply => 4 * s.ring.Len() + 2
    case AtBlank => 4 * s.ring.Len() + 1
    case AtGetAdv => 4 * s.ring.Len()
    case AtMessage(_) => 2
    case AtFlush => 1
    case AtReady => 0
    case Failed => 0
    case Exited => 0
  }

  /** The dispatcher can act, and each of its actions either receives or leaves less work. */
  ghost predicate Served(s: State) {
    && InRange(s)
    && (exists a: Action :: a.OfDispatcher() && Enabled(s, a))
    && forall a: Action :: a.OfDispatcher() && Enabled(s, a) && !a.Receive? ==> Work(Apply(s, a)) < Work(s)
  }

  /** A blocked send is served exactly as long as the dispatcher has not exited, and as long as only the
      connection's own teardown closes the channel it has not. */
  lemma BlockedSendIsServed(states: seq<State>, actions: seq<Action>, i: nat)
    requires Run(states, actions) && i < |states| && Blocked(states[i])
    ensures Served(states[i]) <==> states[i].dispatcher != Exited
    ensures states[i].foreign == 0 ==> states[i].dispatcher != Exited
  {
    hide Inv, InRange, Enabled, Apply, Run, Work;
    var s := states[i];
    RunKeepsInv(states, actions, i);
    InvInRange(s);
    if s.foreign == 0 {
      OwnCloseComesLast(s);
    }
    if s.dispatcher == Exited {
      ExitedCannotAct(s);
    } else {
      var a := ReceiverCanAct(s);
      forall a: Action | a.OfDispatcher() && Enabled(s, a) && !a.Receive?
        ensures Work(Apply(s, a)) < Work(s)
      {
        LessWork(s, a);
      }
    }
  }

  lemma OwnCloseComesLast(s: State)
    requires Inv(s) && s.foreign == 0 && Blocked(s)
    ensures s.dispatcher != Exited
  {
  }

  lemma ExitedCannotAct(s: State)
    requires InRange(s) && s.dispatcher == Exited
    ensures forall a: Action :: a.OfDispatcher() ==> !Enabled(s, a)
  {
  }

  lemma ReceiverCanAct(s: State) returns (a: Action)
    requires Inv(s) && InRange(s) && s.dispatcher != Exited && Blocked(s)
    ensures a.OfDispatcher() && Enabled(s, a)
  {
    a := match s.dispatcher
      case AtReady => Receive
      case Failed => Receive
      case AtGet => if s.ring.Empty() then GetEmpty else GetOk
      case AtReply => WriteOk
      case AtMessage(_) => WriteOk
      case AtBlank => Blank
      case AtGetAdv => Action.GetAdv
      case AtFlush => FlushOk
      case Exited => FlushOk;
  }

  lemma LessWork(s: State, a: Action)
    requires Inv(s) && InRange(s) && a.OfDispatcher() && Enabled(s, a) && !a.Receive?
    ensures InRange(Apply(s, a)) && Work(Apply(s, a)) < Work(s)
  {
    hide RingState.Valid, RingState.Queue, RingState.Slot, Rings.Wrap, Inv, Messages;
    WriterKeepsInv(s, a);
    InvInRange(Apply(s, a));
    if s.dispatcher == AtGetAdv {
      InvAtGetAdv(s);
      OneLess(s.ring);
    }
  }

  lemma InvAtGetAdv(s: State)
    requires Inv(s) && s.dispatcher == AtGetAdv
    ensures s.ring.Valid() && !s.ring.Empty()
  {
  }

  lemma OneLess(r: RingState)
    requires r.Valid() && !r.Empty()
    ensures r.ReadAdvanced().Len() == r.Len() - 1
  {
    r.Popped();
    assert |r.ReadAdvanced().Queue()| == |r.Queue()| - 1;
  }

  /** A step appended to a run. */
  lemma Extend(states: seq<State>, actions: seq<Action>, a: Action)
    returns (moreStates: seq<State>, moreActions: seq<Action>)
    requires Run(states, actions) && InRange(states[|actions|]) && Enabled(states[|actions|], a)
    ensures Run(moreStates, moreActions) && moreStates[0] == states[0]
    ensures moreStates[|moreActions|] == Apply(states[|actions|], a) && InRange(moreStates[|moreActions|])
  {
    hide Initial, Enabled, Apply;
    moreStates, moreActions := states + [Apply(states[|actions|], a)], actions + [a];
    forall i | 0 <= i < |moreActions|
      ensures Step(moreStates[i], moreActions[i], moreStates[i + 1])
    {
      assert i < |actions| ==> Step(states[i], actions[i], states[i + 1]);
    }
    RunKeepsInv(moreStates, moreActions, |moreActions|);
    InvInRange(moreStates[|moreActions|]);
  }

  /** Pushes fill the queue. */
  lemma {:induction false} Pushes(states: seq<State>, actions: seq<Action>, k: nat)
    returns (moreStates: seq<State>, moreActions: seq<Action>)
    requires Run(states, actions) && InRange(states[|actions|])
    requires |states[|actions|].queue| + k <= states[|actions|].cap
    ensures Run(moreStates, moreActions) && moreStates[0] == states[0] && InRange(moreStates[|moreActions|])
    ensures var s, t := states[|actions|], moreStates[|moreActions|];
      |t.queue| == |s.queue| + k && t == s.(queue := t.queue, accepted := t.accepted)
  {
    hide Run, InRange;
    moreStates, moreActions := states, actions;
    if k != 0 {
      moreStates, moreActions := Pushes(states, actions, k - 1);
      moreStates, moreActions := Extend(moreStates, moreActions, Push(EMPTY));
    }
  }

  /** A close by another goroutine, as when a newer connection takes over the key, breaks this for every
      capacity: the dispatcher exits first and the reader's own Finish then blocks for ever on a full queue. */
  lemma ForeignCloseCanBlock(ring: RingState, cap: nat) returns (states: seq<State>, actions: seq<Action>)
    requires ring.Valid() && ring.data != [] && ring.Empty() && !ring.Full() && 1 <= cap
    ensures Run(states, actions) && states[0].cap == cap && states[0].ring == ring
    ensures states[|actions|].foreign == 1 && states[|actions|].dispatcher == Exited && Blocked(states[|actions|])
  {
    hide Run, InRange, RingState.Valid, RingState.Slot, RingState.Empty, RingState.Full;
    states, actions := Start(ring, cap);
    states, actions := Extend(states, actions, ForeignClose);
    states, actions := Extend(states, actions, Receive);
    RunLength(states, actions);
    assert states[|actions|] == State(ring, cap, [], AtSet, Exited, [], [], [Finish], [], [], 1);
    states, actions := Pushes(states, actions, cap);
    states, actions := Extend(states, actions, SetOk);
    states, actions := Extend(states, actions, ReadFail);
  }

  lemma Start(ring: RingState, cap: nat) returns (states: seq<State>, actions: seq<Action>)
    requires ring.Valid() && ring.data != [] && ring.Empty() && 1 <= cap
    ensures Run(states, actions) && actions == [] && InRange(states[0])
    ensures states[0] == State(ring, cap, [], AtSet, AtReady, [], [], [], [], [], 0)
  {
    states, actions := [State(ring, cap, [], AtSet, AtReady, [], [], [], [], [], 0)], [];
    InRangeAtStart(states[0]);
  }

  /** State i of a run with that ring and capacity in which, unless allowed, no other goroutine has closed. */
  ghost predicate Reaches(states: seq<State>, actions: seq<Action>, i: nat, ring: RingState, cap: nat, foreign: bool) {
    && Run(states, actions) && i < |states|
    && states[0].ring == ring && states[0].cap == cap
    && (foreign || states[i].foreign == 0)
  }

  ghost predicate AlwaysServed(ring: RingState, cap: nat, foreign: bool) {
    forall states: seq<State>, actions: seq<Action>, i: nat ::
      Reaches(states, actions, i, ring, cap, foreign) && Blocked(states[i]) ==> Served(states[i])
  }

  /** Blocked sends are always served exactly if no other goroutine may close the channel. */
  lemma ServedExactlyWithoutForeignClose(ring: RingState, cap: nat, foreign: bool)
    requires ring.Valid() && ring.data != [] && ring.Empty() && !ring.Full() && 1 <= cap
    ensures AlwaysServed(ring, cap, foreign) <==> !foreign
  {
    hide Run, Served, Blocked;
    if foreign {
      var states, actions := ForeignCloseCanBlock(ring, cap);
      RunLength(states, actions);
      BlockedSendIsServed(states, actions, |actions|);
      assert Reaches(states, actions, |actions|, ring, cap, foreign);
    } else {
      forall states: seq<State>, actions: seq<Action>, i: nat
        | Reaches(states, actions, i, ring, cap, foreign) && Blocked(states[i])
        ensures Served(states[i])
      {
        BlockedSendIsServed(states, actions, i);
      }
    }
  }

  lemma RunLength(states: seq<State>, actions: seq<Action>)
    requires Run(states, actions)
    ensures |states| == |actions| + 1
  {
  }

  lemma InRangeAtStart(s: State)
    requires Initial(s)
    ensures InRange(s)
  {
    s.ring.EmptyIff();
    InvInRange(s);
  }

  /** Once the dispatcher has exited nothing is received any more, so such a send never completes. */
  lemma {:induction false} ExitedNeverReceives(states: seq<State>, actions: seq<Action>, i: nat, j: nat)
    requires Run(states, actions) && i <= j < |states|
    requires states[i].dispatcher == Exited && Blocked(states[i])
    ensures states[j].dispatcher == Exited && Blocked(states[j]) && states[j].reader == states[i].reader
    decreases j
  {
    if i < j {
      ExitedNeverReceives(states, actions, i, j - 1);
      assert Step(states[j - 1], actions[j - 1], states[j]);
    }
  }
}
