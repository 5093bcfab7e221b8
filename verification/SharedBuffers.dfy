/** The buffers that AsyncWebSocket shares between the queues of its clients, and when they are
    freed (AsyncWebSocket.cpp:377-406, 490-516, 526-558, 872-877, 948-987, 1198-1229;
    AsyncWebSocket.h:82-108). */
module SharedBuffers {

  const MAX_QUEUED_MESSAGES := 32

  /** AsyncWebSocketMessageBuffer: how many messages use it, and the lock. */
  datatype Buffer = Buffer(count: nat, locked: bool)

  /** A queued message: one that uses a buffer, or one with its own copy of its data. */
  datatype Message = Multi(buffer: nat, finished: bool) | Basic(finished: bool)

  datatype Client = Client(connected: bool, queue: seq<Message>)

  /** Pointers to buffers are numbers that are given out once. */
  datatype Server = Server(buffers: map<nat, Buffer>, clients: seq<Client>, made: nat)

  const NEW_SERVER := Server(map[], [], 0)

  // ---------------------------------------------------------------- what one call does

  predicate CanDelete(b: Buffer) {
    b.count == 0 && !b.locked
  }

  /** The constructor of a message counts its buffer, the destructor takes it back. */
  function Hold(buffers: map<nat, Buffer>, m: Message): map<nat, Buffer> {
    if m.Multi? && m.buffer in buffers
    then buffers[m.buffer := buffers[m.buffer].(count := buffers[m.buffer].count + 1)] else buffers
  }

  function Release(buffers: map<nat, Buffer>, m: Message): map<nat, Buffer> {
    if m.Multi? && m.buffer in buffers && buffers[m.buffer].count > 0
    then buffers[m.buffer := buffers[m.buffer].(count := buffers[m.buffer].count - 1)] else buffers
  }

  function ReleaseAll(buffers: map<nat, Buffer>, queue: seq<Message>): map<nat, Buffer>
    decreases |queue|
  {
    if queue == [] then buffers else ReleaseAll(Release(buffers, queue[0]), queue[1..])
  }

  /** The number of finished messages at the front of a queue. */
  function Finished(queue: seq<Message>): (n: nat)
    ensures n <= |queue|
  {
    if queue == [] || !queue[0].finished then 0 else 1 + Finished(queue[1..])
  }

  /** _runQueue, as far as the buffers see it. */
  function RunQueue(s: Server, i: nat): Server
    requires i < |s.clients|
  {
    var c := s.clients[i];
    var n := Finished(c.queue);
    s.(buffers := ReleaseAll(s.buffers, c.queue[..n]), clients := s.clients[i := c.(queue := c.queue[n..])])
  }

  function QueueMessage(s: Server, i: nat, m: Message, canSend: bool): Server
    requires i < |s.clients|
  {
    var c := s.clients[i];
    var held := s.(buffers := Hold(s.buffers, m));
    if !c.connected then held.(buffers := Release(held.buffers, m))
    else
      var queued :=
        if |c.queue| >= MAX_QUEUED_MESSAGES then held.(buffers := Release(held.buffers, m))
        else held.(clients := s.clients[i := c.(queue := c.queue + [m])]);
      if canSend then RunQueue(queued, i) else queued
  }

  function SetLock(s: Server, b: nat, locked: bool): Server {
    if b in s.buffers then s.(buffers := s.buffers[b := s.buffers[b].(locked := locked)]) else s
  }

  /** textAll and binaryAll over the clients from i on; open are the clients that can send. */
  function QueueForAll(s: Server, i: nat, b: nat, open: set<nat>): Server
    requires i <= |s.clients|
    decreases |s.clients| - i
  {
    if i == |s.clients| then s
    else
      QueueForAll(if s.clients[i].connected then QueueMessage(s, i, Multi(b, false), i in open) else s, i + 1, b, open)
  }

  function CleanBuffers(s: Server): Server {
    s.(buffers := map b | b in s.buffers && !CanDelete(s.buffers[b]) :: s.buffers[b])
  }

  function SendToAll(s: Server, b: nat, open: set<nat>): Server {
    CleanBuffers(SetLock(QueueForAll(SetLock(s, b, true), 0, b, open), b, false))
  }

  function MakeBuffer(s: Server): Server {
    s.(buffers := s.buffers[s.made := Buffer(0, false)], made := s.made + 1)
  }

  /** An acknowledgement for a client: finishes says whether it was the last of a message, and
      closes whether it was the last of a close frame, after which a client that is closing
      closes its connection and does nothing else. */
  function OnAck(s: Server, i: nat, finishes: bool, closes: bool): Server
    requires i < |s.clients|
  {
    var c := s.clients[i];
    if closes && !c.connected then s
    else
      var acked := if c.queue != [] && finishes
                   then s.(clients := s.clients[i := c.(queue := [c.queue[0].(finished := true)] + c.queue[1..])])
                   else s;
      RunQueue(CleanBuffers(acked), i)
  }

  /** The destructor of a client frees its queue. */
  function Disconnect(s: Server, i: nat): Server
    requires i < |s.clients|
  {
    s.(buffers := ReleaseAll(s.buffers, s.clients[i].queue), clients := s.clients[..i] + s.clients[i + 1..])
  }

  // ---------------------------------------------------------------- the object

  class AsyncWebSocket {
    var buffers: map<nat, Buffer>
    var clients: seq<Client>
    var made: nat

    function Current(): Server
      reads this
    {
      Server(buffers, clients, made)
    }

    constructor ()
      ensures Current() == NEW_SERVER
    {
      buffers, clients, made := map[], [], 0;
    }

    method MakeSharedBuffer() returns (b: nat)
      modifies this
      ensures Current() == MakeBuffer(old(Current())) && b == old(made)
    {
      b := made;
      buffers := buffers[b := Buffer(0, false)];
      made := made + 1;
    }

    method CleanSharedBuffers()
      modifies this`buffers
      ensures Current() == CleanBuffers(old(Current()))
    {
      var todo := buffers.Keys;
      while todo != {}
        invariant todo <= buffers.Keys <= old(buffers).Keys
        invariant forall b :: b in buffers ==> buffers[b] == old(buffers)[b]
        invariant forall b :: b in old(buffers) && b !in todo ==> (b in buffers <==> !CanDelete(old(buffers)[b]))
        decreases |todo|
      {
        var b :| b in todo;
        todo := todo - {b};
        if CanDelete(buffers[b]) {
          buffers := buffers - {b};
        }
      }
    }

    method RunClientQueue(i: nat)
      requires i < |clients|
      modifies this`buffers, this`clients
      ensures Current() == RunQueue(old(Current()), i)
    {
      while clients[i].queue != [] && clients[i].queue[0].finished
        invariant |clients| == |old(clients)| && clients == old(clients)[i := clients[i]]
        invariant RunQueue(Current(), i) == RunQueue(old(Current()), i)
        decreases |clients[i].queue|
      {
        PopOne(Current(), i);
        buffers := Release(buffers, clients[i].queue[0]);
        clients := clients[i := clients[i].(queue := clients[i].queue[1..])];
      }
      assert clients[i].queue[..0] == [] && clients[i := clients[i]] == clients;
    }

    method QueueClientMessage(i: nat, m: Message, canSend: bool)
      requires i < |clients|
      modifies this`buffers, this`clients
      ensures Current() == QueueMessage(old(Current()), i, m, canSend)
    {
      buffers := Hold(buffers, m);
      if !clients[i].connected {
        buffers := Release(buffers, m);
        return;
      }
      if |clients[i].queue| >= MAX_QUEUED_MESSAGES {
        buffers := Release(buffers, m);
      } else {
        clients := clients[i := clients[i].(queue := clients[i].queue + [m])];
      }
      if canSend {
        RunClientQueue(i);
      }
    }

    method TextAll(b: nat, open: set<nat>)
      modifies this`buffers, this`clients
      ensures Current() == SendToAll(old(Current()), b, open)
    {
      Lock(b, true);
      ghost var locked := Current();
      var i := 0;
      while i < |clients|
        invariant 0 <= i <= |clients|
        invariant QueueForAll(Current(), i, b, open) == QueueForAll(locked, 0, b, open)
      {
        if clients[i].connected {
          QueueClientMessage(i, Multi(b, false), i in open);
        }
        i := i + 1;
      }
      Lock(b, false);
      CleanSharedBuffers();
    }

    method Lock(b: nat, locked: bool)
      modifies this`buffers
      ensures Current() == SetLock(old(Current()), b, locked)
    {
      if b in buffers {
        buffers := buffers[b := buffers[b].(locked := locked)];
      }
    }

    method Ack(i: nat, finishes: bool, closes: bool)
      requires i < |clients|
      modifies this`buffers, this`clients
      ensures Current() == OnAck(old(Current()), i, finishes, closes)
    {
      var c := clients[i];
      if closes && !c.connected {
        return;
      }
      if c.queue != [] && finishes {
        clients := clients[i := c.(queue := [c.queue[0].(finished := true)] + c.queue[1..])];
      }
      CleanSharedBuffers();
      RunClientQueue(i);
    }

    method HandleDisconnect(i: nat)
      requires i < |clients|
      modifies this`buffers, this`clients
      ensures Current() == Disconnect(old(Current()), i)
    {
      var queue := clients[i].queue;
      for k := 0 to |queue|
        invariant clients == old(clients)
        invariant ReleaseAll(buffers, queue[k..]) == ReleaseAll(old(buffers), queue)
      {
        assert queue[k..][1..] == queue[k + 1..];
        buffers := Release(buffers, queue[k]);
      }
      clients := clients[..i] + clients[i + 1..];
    }
  }

  lemma PopOne(s: Server, i: nat)
    requires i < |s.clients| && s.clients[i].queue != [] && s.clients[i].queue[0].finished
    ensures var c := s.clients[i];
      RunQueue(s, i) == RunQueue(s.(buffers := Release(s.buffers, c.queue[0]),
                                    clients := s.clients[i := c.(queue := c.queue[1..])]), i)
  {
    var c := s.clients[i];
    var n := Finished(c.queue);
    assert c.queue[..n][1..] == c.queue[1..][..n - 1] && c.queue[n..] == c.queue[1..][n - 1..];
    var one := s.clients[i := c.(queue := c.queue[1..])];
    assert one[i := c.(queue := c.queue[n..])] == s.clients[i := c.(queue := c.queue[n..])];
  }

  // ---------------------------------------------------------------- counting

  /** How many of the messages use a buffer. */
  function Uses(queue: seq<Message>, b: nat): nat {
    if queue == [] then 0 else (if queue[0].Multi? && queue[0].buffer == b then 1 else 0) + Uses(queue[1..], b)
  }

  function UsesOfAll(clients: seq<Client>, b: nat): nat {
    if clients == [] then 0 else Uses(clients[0].queue, b) + UsesOfAll(clients[1..], b)
  }

  /** Every count is the number of queued messages, and of the messages that are about to be
      queued or deleted; no message uses a buffer that has been freed. */
  ghost predicate Balanced(buffers: map<nat, Buffer>, clients: seq<Client>, more: seq<Message>) {
    forall b: nat ::
      if b in buffers then buffers[b].count == UsesOfAll(clients, b) + Uses(more, b)
      else UsesOfAll(clients, b) + Uses(more, b) == 0
  }

  ghost predicate Safe(s: Server) {
    && Balanced(s.buffers, s.clients, [])
    && (forall b :: b in s.buffers ==> b < s.made && !s.buffers[b].locked)
  }

  lemma {:induction false} UsesJoin(p: seq<Message>, q: seq<Message>, b: nat)
    ensures Uses(p + q, b) == Uses(p, b) + Uses(q, b)
    decreases |p|
  {
    if p == [] {
      assert p + q == q;
    } else {
      assert (p + q)[1..] == p[1..] + q;
      UsesJoin(p[1..], q, b);
    }
  }

  /** Changing the queue of one client changes the number of uses by the difference. */
  lemma {:induction false} UsesOfChanged(clients: seq<Client>, i: nat, c: Client, b: nat)
    requires i < |clients|
    ensures UsesOfAll(clients[i := c], b) + Uses(clients[i].queue, b) == UsesOfAll(clients, b) + Uses(c.queue, b)
    decreases |clients|
  {
    if i == 0 {
      assert clients[i := c][1..] == clients[1..];
    } else {
      assert clients[i := c][1..] == clients[1..][i - 1 := c];
      UsesOfChanged(clients[1..], i - 1, c, b);
    }
  }

  lemma {:induction false} UsesOfRemoved(clients: seq<Client>, i: nat, b: nat)
    requires i < |clients|
    ensures UsesOfAll(clients[..i] + clients[i + 1..], b) + Uses(clients[i].queue, b) == UsesOfAll(clients, b)
    decreases |clients|
  {
    var rest := clients[..i] + clients[i + 1..];
    if i == 0 {
      assert rest == clients[1..];
    } else {
      assert rest[1..] == clients[1..][..i - 1] + clients[1..][i..];
      UsesOfRemoved(clients[1..], i - 1, b);
    }
  }

  lemma HoldBalances(buffers: map<nat, Buffer>, clients: seq<Client>, m: Message)
    requires Balanced(buffers, clients, []) && (m.Multi? ==> m.buffer in buffers)
    ensures Balanced(Hold(buffers, m), clients, [m])
  {
  }

  lemma ReleaseBalances(buffers: map<nat, Buffer>, clients: seq<Client>, m: Message, more: seq<Message>)
    requires Balanced(buffers, clients, [m] + more)
    ensures Balanced(Release(buffers, m), clients, more)
  {
  }

  lemma {:induction false} ReleaseAllBalances(buffers: map<nat, Buffer>, clients: seq<Client>, queue: seq<Message>)
    requires Balanced(buffers, clients, queue)
    ensures Balanced(ReleaseAll(buffers, queue), clients, [])
    decreases |queue|
  {
    if queue != [] {
      assert [queue[0]] + queue[1..] == queue;
      ReleaseBalances(buffers, clients, queue[0], queue[1..]);
      ReleaseAllBalances(Release(buffers, queue[0]), clients, queue[1..]);
    }
  }

  /** Messages move from a queue into the hands that delete them, or back. */
  lemma MoveBalances(buffers: map<nat, Buffer>, clients: seq<Client>, i: nat, c: Client, before: seq<Message>,
                     after: seq<Message>)
    requires i < |clients| && Balanced(buffers, clients, before)
    requires forall b :: Uses(clients[i].queue, b) + Uses(before, b) == Uses(c.queue, b) + Uses(after, b)
    ensures Balanced(buffers, clients[i := c], after)
  {
    forall b: nat
      ensures UsesOfAll(clients[i := c], b) + Uses(after, b) == UsesOfAll(clients, b) + Uses(before, b)
    {
      UsesOfChanged(clients, i, c, b);
    }
  }

  // ---------------------------------------------------------------- every step is safe

  lemma RunQueueBalances(s: Server, i: nat)
    requires i < |s.clients| && Balanced(s.buffers, s.clients, [])
    ensures Balanced(RunQueue(s, i).buffers, RunQueue(s, i).clients, [])
  {
    var c := s.clients[i];
    var n := Finished(c.queue);
    forall b: nat
      ensures Uses(c.queue, b) == Uses(c.queue[n..], b) + Uses(c.queue[..n], b)
    {
      UsesJoin(c.queue[..n], c.queue[n..], b);
      assert c.queue[..n] + c.queue[n..] == c.queue;
    }
    MoveBalances(s.buffers, s.clients, i, c.(queue := c.queue[n..]), [], c.queue[..n]);
    ReleaseAllBalances(s.buffers, s.clients[i := c.(queue := c.queue[n..])], c.queue[..n]);
  }

  lemma QueueBalances(s: Server, i: nat, m: Message, canSend: bool)
    requires i < |s.clients| && Balanced(s.buffers, s.clients, []) && (m.Multi? ==> m.buffer in s.buffers)
    ensures var after := QueueMessage(s, i, m, canSend);
      Balanced(after.buffers, after.clients, [])
  {
    hide RunQueue, Balanced, Hold, Release;
    var c := s.clients[i];
    var held := Hold(s.buffers, m);
    HoldBalances(s.buffers, s.clients, m);
    if !c.connected || |c.queue| >= MAX_QUEUED_MESSAGES {
      assert [m] + [] == [m];
      ReleaseBalances(held, s.clients, m, []);
      if c.connected && canSend {
        RunQueueBalances(s.(buffers := Release(held, m)), i);
      }
    } else {
      var longer := c.(queue := c.queue + [m]);
      forall b: nat
        ensures Uses(c.queue, b) + Uses([m], b) == Uses(longer.queue, b) + Uses([], b)
      {
        UsesJoin(c.queue, [m], b);
      }
      MoveBalances(held, s.clients, i, longer, [m], []);
      if canSend {
        RunQueueBalances(Server(held, s.clients[i := longer], s.made), i);
      }
    }
  }

  /** Counts change when messages come and go; buffers and locks do not. */
  ghost predicate SameBuffers(before: map<nat, Buffer>, after: map<nat, Buffer>) {
    before.Keys == after.Keys && forall b :: b in before ==> before[b].locked == after[b].locked
  }

  lemma {:induction false} ReleaseAllKeeps(buffers: map<nat, Buffer>, queue: seq<Message>)
    ensures SameBuffers(buffers, ReleaseAll(buffers, queue))
    decreases |queue|
  {
    if queue != [] {
      ReleaseAllKeeps(Release(buffers, queue[0]), queue[1..]);
    }
  }

  lemma QueueKeeps(s: Server, i: nat, m: Message, canSend: bool)
    requires i < |s.clients|
    ensures var after := QueueMessage(s, i, m, canSend);
      && SameBuffers(s.buffers, after.buffers) && after.made == s.made && |after.clients| == |s.clients|
      && forall k :: 0 <= k < |s.clients| ==> after.clients[k].connected == s.clients[k].connected
  {
    hide ReleaseAll, Finished;
    var held := Hold(s.buffers, m);
    assert SameBuffers(s.buffers, held) && SameBuffers(held, Release(held, m));
    if canSend {
      var c := s.clients[i];
      var queue := if |c.queue| >= MAX_QUEUED_MESSAGES then c.queue else c.queue + [m];
      ReleaseAllKeeps(held, queue[..Finished(queue)]);
      ReleaseAllKeeps(Release(held, m), queue[..Finished(queue)]);
    }
  }

  lemma {:induction false} QueueForAllBalances(s: Server, i: nat, b: nat, open: set<nat>)
    requires i <= |s.clients| && b in s.buffers && Balanced(s.buffers, s.clients, [])
    ensures var after := QueueForAll(s, i, b, open);
      && Balanced(after.buffers, after.clients, []) && SameBuffers(s.buffers, after.buffers) && after.made == s.made
    decreases |s.clients| - i
  {
    hide QueueMessage, Balanced;
    if i < |s.clients| {
      if s.clients[i].connected {
        QueueBalances(s, i, Multi(b, false), i in open);
        QueueKeeps(s, i, Multi(b, false), i in open);
        QueueForAllBalances(QueueMessage(s, i, Multi(b, false), i in open), i + 1, b, open);
      } else {
        QueueForAllBalances(s, i + 1, b, open);
      }
    }
  }

  lemma CleanBalances(s: Server)
    requires Balanced(s.buffers, s.clients, [])
    ensures Balanced(CleanBuffers(s).buffers, s.clients, [])
  {
  }

  /** What cleaning frees: exactly the buffers that no queued message uses and no broadcast has
      locked. */
  lemma CleanFreesExactly(s: Server, b: nat)
    requires Balanced(s.buffers, s.clients, []) && b in s.buffers
    ensures b in CleanBuffers(s).buffers <==> UsesOfAll(s.clients, b) > 0 || s.buffers[b].locked
  {
  }

  /** At the end of a broadcast. */
  lemma UnlockSafe(s: Server, b: nat)
    requires Balanced(s.buffers, s.clients, []) && b in s.buffers
    requires forall x :: x in s.buffers ==> x < s.made && (s.buffers[x].locked ==> x == b)
    ensures var end := CleanBuffers(SetLock(s, b, false));
      Safe(end) && end.clients == s.clients && (b in end.buffers <==> UsesOfAll(end.clients, b) > 0)
  {
    hide UsesOfAll;
    CleanBalances(SetLock(s, b, false));
  }

  lemma SendToAllSafe(s: Server, b: nat, open: set<nat>)
    requires Safe(s) && b in s.buffers
    ensures Safe(SendToAll(s, b, open))
    ensures b in SendToAll(s, b, open).buffers <==> UsesOfAll(SendToAll(s, b, open).clients, b) > 0
  {
    hide QueueForAll, UsesOfAll, CleanBuffers;
    QueueForAllBalances(SetLock(s, b, true), 0, b, open);
    UnlockSafe(QueueForAll(SetLock(s, b, true), 0, b, open), b);
  }

  lemma FinishBalances(s: Server, i: nat)
    requires i < |s.clients| && s.clients[i].queue != [] && Balanced(s.buffers, s.clients, [])
    ensures var c := s.clients[i];
      Balanced(s.buffers, s.clients[i := c.(queue := [c.queue[0].(finished := true)] + c.queue[1..])], [])
  {
    var c := s.clients[i];
    var queue := [c.queue[0].(finished := true)] + c.queue[1..];
    assert queue[1..] == c.queue[1..];
    MoveBalances(s.buffers, s.clients, i, c.(queue := queue), [], []);
  }

  lemma OnAckSafe(s: Server, i: nat, finishes: bool, closes: bool)
    requires i < |s.clients| && Safe(s)
    ensures Safe(OnAck(s, i, finishes, closes))
  {
    hide RunQueue, UsesOfAll;
    var c := s.clients[i];
    if closes && !c.connected {
      return;
    }
    if c.queue != [] && finishes {
      FinishBalances(s, i);
    }
    var acked := if c.queue != [] && finishes
                 then s.(clients := s.clients[i := c.(queue := [c.queue[0].(finished := true)] + c.queue[1..])]) else s;
    CleanBalances(acked);
    RunQueueBalances(CleanBuffers(acked), i);
    RunQueueKeeps(CleanBuffers(acked), i);
  }

  lemma RunQueueKeeps(s: Server, i: nat)
    requires i < |s.clients|
    ensures SameBuffers(s.buffers, RunQueue(s, i).buffers) && RunQueue(s, i).made == s.made
  {
    ReleaseAllKeeps(s.buffers, s.clients[i].queue[..Finished(s.clients[i].queue)]);
  }

  lemma DisconnectSafe(s: Server, i: nat)
    requires i < |s.clients| && Safe(s)
    ensures Safe(Disconnect(s, i))
  {
    var rest := s.clients[..i] + s.clients[i + 1..];
    forall b: nat
      ensures UsesOfAll(rest, b) + Uses(s.clients[i].queue, b) == UsesOfAll(s.clients, b)
    {
      UsesOfRemoved(s.clients, i, b);
    }
    ReleaseAllBalances(s.buffers, rest, s.clients[i].queue);
    ReleaseAllKeeps(s.buffers, s.clients[i].queue);
  }

  // ---------------------------------------------------------------- what reaches a queue

  /** A queue without the finished messages at its front. */
  ghost predicate FrontTaken(queue: seq<Message>, rest: seq<Message>) {
    exists n :: 0 <= n <= |queue| && rest == queue[n..] && (forall k :: 0 <= k < n ==> queue[k].finished)
                && (n < |queue| ==> !queue[n].finished)
  }

  /** What a message does to the client that it is for: one that is connected and has room gets
      it behind what waits already, and a queue that can run loses what is finished at its front. */
  ghost predicate Offered(before: Client, m: Message, canSend: bool, after: Client) {
    var queue := if |before.queue| < 32 then before.queue + [m] else before.queue;
    && after.connected == before.connected
    && (!before.connected ==> after.queue == before.queue)
    && (before.connected && !canSend ==> after.queue == queue)
    && (before.connected && canSend ==> FrontTaken(queue, after.queue))
  }

  lemma {:induction false} FinishedInFront(queue: seq<Message>)
    ensures forall k :: 0 <= k < Finished(queue) ==> queue[k].finished
    ensures Finished(queue) < |queue| ==> !queue[Finished(queue)].finished
    decreases |queue|
  {
    if queue != [] {
      FinishedInFront(queue[1..]);
    }
  }

  lemma RunTakesFront(s: Server, i: nat)
    requires i < |s.clients|
    ensures var c, after := s.clients[i], RunQueue(s, i).clients;
      && after == s.clients[i := after[i]] && after[i].connected == c.connected && FrontTaken(c.queue, after[i].queue)
  {
    FinishedInFront(s.clients[i].queue);
  }

  /** One message for one client; the others keep their queues. */
  lemma MessageReaches(s: Server, i: nat, m: Message, canSend: bool)
    requires i < |s.clients|
    ensures var after := QueueMessage(s, i, m, canSend).clients;
      after == s.clients[i := after[i]] && Offered(s.clients[i], m, canSend, after[i])
  {
    var c := s.clients[i];
    var held := Hold(s.buffers, m);
    assert s.clients[i := c] == s.clients;
    if c.connected && canSend {
      hide FrontTaken, RunQueue;
      RunTakesFront(if |c.queue| >= MAX_QUEUED_MESSAGES then s.(buffers := Release(held, m))
                    else Server(held, s.clients[i := c.(queue := c.queue + [m])], s.made), i);
    }
  }

  lemma {:induction false} AllReached(s: Server, i: nat, b: nat, open: set<nat>)
    requires i <= |s.clients|
    ensures var after := QueueForAll(s, i, b, open).clients;
      && |after| == |s.clients| && (forall k :: 0 <= k < i ==> after[k] == s.clients[k])
      && forall k :: i <= k < |after| ==> Offered(s.clients[k], Multi(b, false), k in open, after[k])
    decreases |s.clients| - i
  {
    hide QueueMessage, Offered;
    if i < |s.clients| {
      if s.clients[i].connected {
        MessageReaches(s, i, Multi(b, false), i in open);
        AllReached(QueueMessage(s, i, Multi(b, false), i in open), i + 1, b, open);
      } else {
        AllReached(s, i + 1, b, open);
        assert Offered(s.clients[i], Multi(b, false), i in open, s.clients[i]) by {
          NotOffered(s.clients[i], Multi(b, false), i in open);
        }
      }
    }
  }

  lemma NotOffered(c: Client, m: Message, canSend: bool)
    requires !c.connected
    ensures Offered(c, m, canSend, c)
  {
  }

  /** A broadcast is one message for every client. */
  lemma BroadcastReaches(s: Server, b: nat, open: set<nat>)
    ensures var after := SendToAll(s, b, open).clients;
      |after| == |s.clients|
      && forall i :: 0 <= i < |after| ==> Offered(s.clients[i], Multi(b, false), i in open, after[i])
  {
    hide QueueForAll, Offered;
    AllReached(SetLock(s, b, true), 0, b, open);
  }

  lemma LastStays(queue: seq<Message>, rest: seq<Message>)
    requires FrontTaken(queue, rest) && queue != [] && !queue[|queue| - 1].finished
    ensures rest != [] && rest[|rest| - 1] == queue[|queue| - 1]
  {
  }

  /** A message uses its buffer. */
  lemma {:induction false} QueuedIsCounted(clients: seq<Client>, i: nat, k: nat)
    requires i < |clients| && k < |clients[i].queue| && clients[i].queue[k].Multi?
    ensures UsesOfAll(clients, clients[i].queue[k].buffer) > 0
    decreases |clients|
  {
    var b := clients[i].queue[k].buffer;
    if i == 0 {
      var q := clients[0].queue;
      assert q == q[..k] + ([q[k]] + q[k + 1..]);
      UsesJoin(q[..k], [q[k]] + q[k + 1..], b);
    } else {
      QueuedIsCounted(clients[1..], i - 1, k);
    }
  }

  /** A broadcast that somebody takes keeps its buffer. */
  lemma TakenBufferStays(s: Server, b: nat, open: set<nat>, i: nat)
    requires Safe(s) && b in s.buffers
    requires i < |s.clients| && s.clients[i].connected && |s.clients[i].queue| < 32
    ensures b in SendToAll(s, b, open).buffers
  {
    hide SendToAll, Safe, FrontTaken;
    BroadcastReaches(s, b, open);
    SendToAllSafe(s, b, open);
    var after := SendToAll(s, b, open).clients;
    assert Offered(s.clients[i], Multi(b, false), i in open, after[i]);
    if i in open {
      LastStays(s.clients[i].queue + [Multi(b, false)], after[i].queue);
    }
    QueuedIsCounted(after, i, |after[i].queue| - 1);
  }

  /** An acknowledgement that completes a message takes it out of its queue with all finished
      ones behind it; the queues of the others stay. */
  lemma AckReaches(s: Server, i: nat, finishes: bool, closes: bool)
    requires i < |s.clients|
    ensures var c, after := s.clients[i], OnAck(s, i, finishes, closes).clients;
      && after == s.clients[i := after[i]] && after[i].connected == c.connected
      && (if closes && !c.connected then after[i].queue == c.queue
          else if c.queue != [] && finishes then FrontTaken(c.queue[1..], after[i].queue)
          else FrontTaken(c.queue, after[i].queue))
  {
    var c := s.clients[i];
    assert s.clients[i := c] == s.clients;
    if !(closes && !c.connected) {
      hide RunQueue, FrontTaken;
      var queue := if c.queue != [] && finishes then [c.queue[0].(finished := true)] + c.queue[1..] else c.queue;
      var acked := if c.queue != [] && finishes then s.(clients := s.clients[i := c.(queue := queue)]) else s;
      RunTakesFront(CleanBuffers(acked), i);
      if c.queue != [] && finishes {
        FirstTaken(queue[0], c.queue[1..], OnAck(s, i, finishes, closes).clients[i].queue);
      }
    }
  }

  lemma FirstTaken(first: Message, queue: seq<Message>, rest: seq<Message>)
    requires first.finished && FrontTaken([first] + queue, rest)
    ensures FrontTaken(queue, rest)
  {
    var whole := [first] + queue;
    var n :| 0 <= n <= |whole| && rest == whole[n..] && (forall k :: 0 <= k < n ==> whole[k].finished)
             && (n < |whole| ==> !whole[n].finished);
    assert n > 0 by {
      assert whole[0] == first;
    }
    assert rest == queue[n - 1..] && (forall k :: 0 <= k < n - 1 ==> queue[k] == whole[k + 1]);
  }

  // ---------------------------------------------------------------- runs

  datatype Event =
    | Make
    | ToAll(buffer: nat, open: set<nat>)
    | ToOne(client: nat, message: Message, canSend: bool)
    | Acked(client: nat, finishes: bool, closes: bool)
    | Joined
    | Closing(client: nat)
    | Gone(client: nat)

  /** A caller passes only buffers that have not been freed. */
  predicate Possible(s: Server, e: Event) {
    match e
    case Make => true
    case ToAll(b, open) => b in s.buffers
    case ToOne(i, m, canSend) => i < |s.clients| && (m.Multi? ==> m.buffer in s.buffers)
    case Acked(i, finishes, closes) => i < |s.clients|
    case Joined => true
    case Closing(i) => i < |s.clients|
    case Gone(i) => i < |s.clients|
  }

  function Step(s: Server, e: Event): Server
    requires Possible(s, e)
  {
    match e
    case Make => MakeBuffer(s)
    case ToAll(b, open) => SendToAll(s, b, open)
    case ToOne(i, m, canSend) => QueueMessage(s, i, m, canSend)
    case Acked(i, finishes, closes) => OnAck(s, i, finishes, closes)
    case Joined => s.(clients := s.clients + [Client(true, [])])
    case Closing(i) => s.(clients := s.clients[i := s.clients[i].(connected := false)])
    case Gone(i) => Disconnect(s, i)
  }

  lemma {:induction false} UsesOfJoined(clients: seq<Client>, c: Client, b: nat)
    ensures UsesOfAll(clients + [c], b) == UsesOfAll(clients, b) + Uses(c.queue, b)
    decreases |clients|
  {
    if clients == [] {
      assert [c][1..] == clients;
    } else {
      assert (clients + [c])[1..] == clients[1..] + [c];
      UsesOfJoined(clients[1..], c, b);
    }
  }

  lemma StepSafe(s: Server, e: Event)
    requires Safe(s) && Possible(s, e)
    ensures Safe(Step(s, e))
  {
    match e
    case Make =>
    case ToAll(b, open) => SendToAllSafe(s, b, open);
    case ToOne(i, m, canSend) =>
      QueueBalances(s, i, m, canSend);
      QueueKeeps(s, i, m, canSend);
    case Acked(i, finishes, closes) => OnAckSafe(s, i, finishes, closes);
    case Joined =>
      forall b: nat
        ensures UsesOfAll(s.clients + [Client(true, [])], b) == UsesOfAll(s.clients, b)
      {
        UsesOfJoined(s.clients, Client(true, []), b);
      }
    case Closing(i) =>
      MoveBalances(s.buffers, s.clients, i, s.clients[i].(connected := false), [], []);
    case Gone(i) => DisconnectSafe(s, i);
  }

  predicate PossibleRun(s: Server, events: seq<Event>)
    decreases |events|
  {
    events == [] || (Possible(s, events[0]) && PossibleRun(Step(s, events[0]), events[1..]))
  }

  function Run(s: Server, events: seq<Event>): Server
    requires PossibleRun(s, events)
    decreases |events|
  {
    if events == [] then s else Run(Step(s, events[0]), events[1..])
  }

  lemma {:induction false} RunSafe(s: Server, events: seq<Event>)
    requires Safe(s) && PossibleRun(s, events)
    ensures Safe(Run(s, events))
    decreases |events|
  {
    hide Step, Safe;
    if events != [] {
      StepSafe(s, events[0]);
      RunSafe(Step(s, events[0]), events[1..]);
    }
  }

  /** Over every run: each count is the number of queued messages that use the buffer, and no
      queued message uses a buffer that has been freed. */
  lemma BuffersOutliveTheirMessages(events: seq<Event>)
    requires PossibleRun(NEW_SERVER, events)
    ensures var s := Run(NEW_SERVER, events);
      && (forall b :: b in s.buffers ==> s.buffers[b] == Buffer(UsesOfAll(s.clients, b), false))
      && forall i, k :: 0 <= i < |s.clients| && 0 <= k < |s.clients[i].queue| && s.clients[i].queue[k].Multi?
           ==> s.clients[i].queue[k].buffer in s.buffers
  {
    RunSafe(NEW_SERVER, events);
    var s := Run(NEW_SERVER, events);
    forall i, k | 0 <= i < |s.clients| && 0 <= k < |s.clients[i].queue| && s.clients[i].queue[k].Multi?
      ensures s.clients[i].queue[k].buffer in s.buffers
    {
      QueuedIsCounted(s.clients, i, k);
    }
  }

  /** Any acknowledgement, for any client, frees exactly the buffers that no queue used, except
      the one for a close frame, which frees none: a buffer that was made and not passed on yet
      does not survive any other. */
  lemma AckFreesExactly(s: Server, b: nat, i: nat, finishes: bool, closes: bool)
    requires Safe(s) && b in s.buffers && i < |s.clients|
    ensures b in OnAck(s, i, finishes, closes).buffers
      <==> UsesOfAll(s.clients, b) > 0 || (closes && !s.clients[i].connected)
  {
    hide RunQueue;
    var c := s.clients[i];
    if closes && !c.connected {
      return;
    }
    var acked := if c.queue != [] && finishes
                 then s.(clients := s.clients[i := c.(queue := [c.queue[0].(finished := true)] + c.queue[1..])]) else s;
    RunQueueKeeps(CleanBuffers(acked), i);
  }

  lemma MadeBufferDoesNotSurviveAck(s: Server, i: nat, finishes: bool, closes: bool)
    requires Safe(s) && i < |s.clients|
    ensures s.made in MakeBuffer(s).buffers
    ensures s.made in OnAck(MakeBuffer(s), i, finishes, closes).buffers <==> closes && !s.clients[i].connected
  {
    StepSafe(s, Make);
    AckFreesExactly(MakeBuffer(s), s.made, i, finishes, closes);
  }
}
