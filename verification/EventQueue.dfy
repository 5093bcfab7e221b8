/** The event queue between lwIP and the clients of AsyncTCP, and how the events of a closed
    client are taken out of it (AsyncTCP.cpp:106-186, 188-212, 233-241). */
module EventQueue {

  datatype EventKind = Sent | Recv | Fin | Error | Poll | Clear | Accept | Connected | Dns

  /** A packet is known by its address; arg is the client, 0 for none. */
  datatype Packet = Packet(address: nat, kind: EventKind, arg: nat)

  /** No packet is queued twice. */
  predicate Distinct(queue: seq<Packet>) {
    forall i, j :: 0 <= i < j < |queue| ==> queue[i].address != queue[j].address
  }

  /** The packets of other clients, in their order. */
  function Without(queue: seq<Packet>, arg: nat): seq<Packet> {
    if queue == [] then []
    else if queue[0].arg == arg then Without(queue[1..], arg)
    else [queue[0]] + Without(queue[1..], arg)
  }

  lemma {:induction false} WithoutJoin(p: seq<Packet>, q: seq<Packet>, arg: nat)
    ensures Without(p + q, arg) == Without(p, arg) + Without(q, arg)
    decreases |p|
  {
    if p == [] {
      assert p + q == q;
    } else {
      assert (p + q)[1..] == p[1..] + q;
      WithoutJoin(p[1..], q, arg);
    }
  }

  /** What the filter keeps is exactly what belongs to others. */
  lemma {:induction false} WithoutKeeps(queue: seq<Packet>, arg: nat)
    ensures forall p :: p in Without(queue, arg) <==> p in queue && p.arg != arg
    ensures |Without(queue, arg)| <= |queue|
    decreases |queue|
  {
    if queue != [] {
      WithoutKeeps(queue[1..], arg);
      assert queue == [queue[0]] + queue[1..];
    }
  }

  lemma {:induction false} WithoutDistinct(queue: seq<Packet>, arg: nat)
    requires Distinct(queue)
    ensures Distinct(Without(queue, arg))
    decreases |queue|
  {
    if queue != [] {
      WithoutDistinct(queue[1..], arg);
      WithoutKeeps(queue[1..], arg);
      var rest := Without(queue[1..], arg);
      forall j | 0 <= j < |rest|
        ensures rest[j].address != queue[0].address
      {
        assert rest[j] in queue[1..];
      }
    }
  }

  // ---------------------------------------------------------------- what a dispatch does

  /** handed are the packets that were given to a handler. */
  datatype Task = Task(queue: seq<Packet>, handed: seq<Packet>)

  function Dispatch(t: Task): Task {
    if t.queue == [] then t
    else
      var e := t.queue[0];
      if e.arg == 0 then t.(queue := t.queue[1..])
      else if e.kind == Clear then t.(queue := Without(t.queue[1..], e.arg))
      else Task(t.queue[1..], t.handed + [e])
  }

  class AsyncTask {
    var queue: seq<Packet>
    var handed: seq<Packet>

    function Current(): Task
      reads this
    {
      Task(queue, handed)
    }

    constructor ()
      ensures Current() == Task([], [])
    {
      queue, handed := [], [];
    }

    method Send(p: Packet)
      modifies this`queue
      ensures queue == old(queue) + [p]
    {
      queue := queue + [p];
    }

    method Prepend(p: Packet)
      modifies this`queue
      ensures Current() == Step(old(Current()), Prepended(p))
    {
      queue := [p] + queue;
    }

    method Receive() returns (p: Packet)
      requires queue != []
      modifies this`queue
      ensures p == old(queue)[0] && queue == old(queue)[1..]
    {
      p := queue[0];
      queue := queue[1..];
    }

    /** The queue is turned once: what does not match goes to its back, until the first packet
        that was kept is in front again. */
    method RemoveEventsWithArg(arg: nat) returns (ok: bool)
      requires Distinct(queue)
      modifies this`queue
      ensures queue == Without(old(queue), arg) && ok == (queue != [])
    {
      var first := FirstToKeep(arg);
      if first.None? {
        return false;
      }
      // In front of the first kept packet is what has not been looked at, behind it what
      // has been kept.
      ghost var left := |queue| - 1;
      while queue[0] != first.packet
        invariant 0 <= left < |queue| && Distinct(queue) && queue[left] == first.packet
        invariant queue[left..] + Without(queue[..left], arg) == Without(old(queue), arg)
        decreases left
      {
        ghost var before := queue;
        FrontMoves(queue, left, arg);
        var packet := Receive();
        if packet.arg != arg {
          Send(packet);
        }
        left := left - 1;
      }
      assert left == 0 && queue[0..] == queue;
      ok := true;
    }

    /** Discards what matches until a packet does not, and sends that one to the back. */
    method FirstToKeep(arg: nat) returns (first: Option)
      requires Distinct(queue)
      modifies this`queue
      ensures first.None? ==> queue == [] == Without(old(queue), arg)
      ensures first.Some? ==> queue != [] && Distinct(queue) && queue[|queue| - 1] == first.packet
      ensures first.Some? ==> [first.packet] + Without(queue[..|queue| - 1], arg) == Without(old(queue), arg)
    {
      while true
        invariant Distinct(queue) && Without(queue, arg) == Without(old(queue), arg)
        decreases |queue|
      {
        if queue == [] {
          return None;
        }
        var packet := Receive();
        if packet.arg != arg {
          ghost var rest := queue;
          Send(packet);
          assert queue[..|queue| - 1] == rest;
          return Some(packet);
        }
      }
    }

    method HandleEvent()
      requires queue != [] && Distinct(queue)
      modifies this
      ensures Current() == Dispatch(old(Current()))
    {
      var e := Receive();
      if e.arg == 0 {
      } else if e.kind == Clear {
        var _ := RemoveEventsWithArg(e.arg);
      } else {
        handed := handed + [e];
      }
    }
  }

  datatype Option = None | Some(packet: Packet)

  /** One step of the turn. */
  lemma FrontMoves(queue: seq<Packet>, left: nat, arg: nat)
    requires 0 < left < |queue|
    ensures var turned := if queue[0].arg != arg then queue[1..] + [queue[0]] else queue[1..];
      && turned[left - 1] == queue[left]
      && turned[left - 1..] + Without(turned[..left - 1], arg) == queue[left..] + Without(queue[..left], arg)
  {
    var p := queue[0];
    var turned := if p.arg != arg then queue[1..] + [p] else queue[1..];
    assert queue[..left][1..] == queue[1..left] == turned[..left - 1];
    if p.arg != arg {
      assert turned[left - 1..] == queue[left..] + [p];
      assert queue[left..] + [p] + Without(queue[1..left], arg) == queue[left..] + ([p] + Without(queue[1..left], arg));
    } else {
      assert turned[left - 1..] == queue[left..];
    }
  }

  // ---------------------------------------------------------------- runs

  /** lwIP queues a packet, or the service task dispatches one. */
  datatype Event = Queued(packet: Packet) | Prepended(packet: Packet) | Dispatched

  function Step(t: Task, e: Event): Task {
    match e
    case Queued(p) => t.(queue := t.queue + [p])
    case Prepended(p) => t.(queue := [p] + t.queue)
    case Dispatched => Dispatch(t)
  }

  function Steps(t: Task, events: seq<Event>): Task
    decreases |events|
  {
    if events == [] then t else Steps(Step(t, events[0]), events[1..])
  }

  /** No event queues one of these packets again. */
  predicate NoneQueued(events: seq<Event>, dead: set<Packet>) {
    forall e :: e in events ==> !e.Dispatched? ==> e.packet !in dead
  }

  predicate NoneIn(packets: seq<Packet>, dead: set<Packet>) {
    forall p :: p in packets ==> p !in dead
  }

  /** A packet that is in neither the queue nor the events is not handed to anyone. */
  lemma {:induction false} OnlyQueuedIsHanded(t: Task, events: seq<Event>, dead: set<Packet>)
    requires NoneIn(t.queue, dead) && NoneQueued(events, dead)
    ensures t.handed <= Steps(t, events).handed
    ensures NoneIn(Steps(t, events).handed[|t.handed|..], dead)
    decreases |events|
  {
    if events != [] {
      var e := events[0];
      var next := Step(t, e);
      assert e in events;
      if e.Dispatched? && t.queue != [] {
        WithoutKeeps(t.queue[1..], t.queue[0].arg);
      }
      assert NoneIn(next.queue, dead);
      OnlyQueuedIsHanded(next, events[1..], dead);
      var end := Steps(next, events[1..]).handed;
      assert end[|t.handed|..] == end[|t.handed|..|next.handed|] + end[|next.handed|..];
      assert end[|t.handed|..|next.handed|] == next.handed[|t.handed|..];
    }
  }

  /** Once the Clear of a client is dispatched, no event of the client that was queued behind
      it is ever handed to a handler, whatever is queued and dispatched later. */
  lemma ClearedIsNeverHanded(t: Task, events: seq<Event>, p: Packet)
    requires t.queue != [] && t.queue[0].kind == Clear && t.queue[0].arg != 0
    requires p in t.queue[1..] && p.arg == t.queue[0].arg
    requires NoneQueued(events, {p})
    ensures t.handed <= Steps(Dispatch(t), events).handed
    ensures p !in Steps(Dispatch(t), events).handed[|t.handed|..]
  {
    WithoutKeeps(t.queue[1..], t.queue[0].arg);
    OnlyQueuedIsHanded(Dispatch(t), events, {p});
  }

  /** A Clear that is put in front of the queue overtakes what is queued: from that moment on
      no packet of its client in the queue is ever handed to a handler, also when lwIP queues
      or prepends others before the Clear is dispatched. */
  lemma ClearPreemptsQueued(t: Task, clear: Packet, events: seq<Event>, p: Packet)
    requires clear.kind == Clear && clear.arg != 0
    requires p in t.queue && p.arg == clear.arg && p != clear
    requires NoneQueued(events, {p})
    ensures var from := Step(t, Prepended(clear));
      t.handed <= Steps(from, events).handed && p !in Steps(from, events).handed[|t.handed|..]
  {
    assert Step(t, Prepended(clear)).queue == [] + [clear] + t.queue;
    NotHandedBehindClear(Step(t, Prepended(clear)), [], clear, t.queue, events, p);
  }

  /** The Clear is behind others, and p only behind the Clear. */
  lemma {:induction false} NotHandedBehindClear(t: Task, front: seq<Packet>, clear: Packet, rest: seq<Packet>,
      events: seq<Event>, p: Packet)
    requires clear.kind == Clear && clear.arg == p.arg != 0 && p != clear
    requires t.queue == front + [clear] + rest && p !in front
    requires NoneQueued(events, {p})
    ensures t.handed <= Steps(t, events).handed && p !in Steps(t, events).handed[|t.handed|..]
    decreases |events|, 0
  {
    if events != [] {
      var next := Step(t, events[0]);
      assert events[0] in events;
      match events[0]
      case Queued(q) =>
        assert next.queue == front + [clear] + (rest + [q]);
        NotHandedBehindClear(next, front, clear, rest + [q], events[1..], p);
      case Prepended(q) =>
        assert next.queue == [q] + front + [clear] + rest;
        NotHandedBehindClear(next, [q] + front, clear, rest, events[1..], p);
      case Dispatched =>
        DispatchBehindClear(t, front, clear, rest, events[1..], p);
        var end := Steps(next, events[1..]).handed;
        assert end[|t.handed|..] == end[|t.handed|..|next.handed|] + end[|next.handed|..];
        assert end[|t.handed|..|next.handed|] == next.handed[|t.handed|..];
    }
  }

  lemma {:induction false} DispatchBehindClear(t: Task, front: seq<Packet>, clear: Packet, rest: seq<Packet>,
      events: seq<Event>, p: Packet)
    requires clear.kind == Clear && clear.arg == p.arg != 0 && p != clear
    requires t.queue == front + [clear] + rest && p !in front
    requires NoneQueued(events, {p})
    ensures var next := Dispatch(t);
      t.handed <= next.handed <= Steps(next, events).handed && p !in next.handed[|t.handed|..]
      && p !in Steps(next, events).handed[|next.handed|..]
    decreases |events|, 1
  {
    var next := Dispatch(t);
    if t.queue[0].kind == Clear && t.queue[0].arg == p.arg {
      WithoutKeeps(t.queue[1..], p.arg);
      OnlyQueuedIsHanded(next, events, {p});
    } else {
      assert front != [];
      assert t.queue[1..] == front[1..] + [clear] + rest;
      var a := front[0].arg;
      if front[0].kind == Clear && a != 0 {
        WithoutJoin(front[1..] + [clear], rest, a);
        WithoutJoin(front[1..], [clear], a);
        WithoutKeeps(front[1..], a);
        assert Without([clear], a) == [clear] + Without([], a);
        NotHandedBehindClear(next, Without(front[1..], a), clear, Without(rest, a), events, p);
      } else {
        NotHandedBehindClear(next, front[1..], clear, rest, events, p);
      }
    }
  }

  /** The events of all other clients stay, and are handed over in their order. */
  lemma OthersKeepTheirOrder(t: Task, others: seq<Packet>)
    requires t.queue != [] && t.queue[0].kind == Clear && t.queue[0].arg != 0
    requires others == Without(t.queue[1..], t.queue[0].arg)
    requires forall p :: p in others ==> p.arg != 0 && p.kind != Clear
    ensures Steps(Dispatch(t), seq(|others|, i => Dispatched)) == Task([], t.handed + others)
  {
    AllHanded(Dispatch(t));
  }

  lemma {:induction false} AllHanded(t: Task)
    requires forall p :: p in t.queue ==> p.arg != 0 && p.kind != Clear
    ensures Steps(t, seq(|t.queue|, i => Dispatched)) == Task([], t.handed + t.queue)
    decreases |t.queue|
  {
    if t.queue == [] {
      assert t.handed + [] == t.handed;
    } else {
      var next := Dispatch(t);
      assert t.queue[0] in t.queue;
      assert seq(|t.queue|, i => Dispatched)[1..] == seq(|next.queue|, i => Dispatched);
      AllHanded(next);
      assert t.handed + [t.queue[0]] + t.queue[1..] == t.handed + t.queue;
    }
  }

  /** Over every run: what is handed to a handler has a client and is no Clear. */
  lemma {:induction false} OnlyClientsAreHanded(t: Task, events: seq<Event>)
    ensures t.handed <= Steps(t, events).handed
    ensures forall p :: p in Steps(t, events).handed[|t.handed|..] ==> p.arg != 0 && p.kind != Clear
    decreases |events|
  {
    if events != [] {
      var next := Step(t, events[0]);
      OnlyClientsAreHanded(next, events[1..]);
      var end := Steps(next, events[1..]).handed;
      assert end[|t.handed|..] == end[|t.handed|..|next.handed|] + end[|next.handed|..];
      assert end[|t.handed|..|next.handed|] == next.handed[|t.handed|..];
    }
  }
}
