/** The slots in which AsyncTCP remembers whether the connection of a client is closed
    (AsyncTCP.cpp:83-94, 821-842): a slot holds 0 while a client owns it, and when it was
    freed otherwise. */
module ClosedSlots {

  /** The first of the least stamps that are not 0, seen from the end; -1 if all are 0. */
  function Oldest(slots: seq<nat>): (slot: int)
    ensures -1 <= slot < |slots|
    ensures slot == -1 ==> forall j :: 0 <= j < |slots| ==> slots[j] == 0
    ensures slot >= 0 ==> slots[slot] != 0
    ensures slot >= 0 ==> forall j :: 0 <= j < |slots| && slots[j] != 0 ==> slots[slot] <= slots[j]
    ensures slot >= 0 ==> forall j :: slot < j < |slots| && slots[j] != 0 ==> slots[slot] < slots[j]
  {
    if slots == [] then -1
    else
      var n := |slots| - 1;
      var before := Oldest(slots[..n]);
      if slots[n] != 0 && (before == -1 || slots[n] <= slots[before]) then n else before
  }

  /** Who owns which slot; a client that found no free slot owns none. */
  datatype Table = Table(slots: seq<nat>, index: nat, owned: map<nat, nat>)

  function NewTable(n: nat): Table {
    Table(seq(n, i => 1), 1, map[])
  }

  function Allocate(t: Table, client: nat): Table {
    var slot := Oldest(t.slots);
    if slot == -1 then t
    else t.(slots := t.slots[slot := 0], owned := t.owned[client := slot])
  }

  predicate SlotsExist(t: Table) {
    forall c :: c in t.owned ==> t.owned[c] < |t.slots|
  }

  function Free(t: Table, client: nat): Table
    requires SlotsExist(t)
  {
    if client !in t.owned then t
    else Table(t.slots[t.owned[client] := t.index], t.index + 1, t.owned - {client})
  }

  class AsyncClientSlots {
    const slots: array<nat>
    var index: nat
    var owned: map<nat, nat>

    function Current(): Table
      reads this, slots
    {
      Table(slots[..], index, owned)
    }

    constructor (n: nat)
      ensures Current() == NewTable(n) && fresh(slots)
    {
      slots := new nat[n](i => 1);
      index, owned := 1, map[];
      new;
      assert slots[..] == seq(n, i => 1);
    }

    method AllocateClosedSlot(client: nat)
      modifies this`owned, slots
      ensures Current() == Allocate(old(Current()), client)
    {
      var slot, least := -1, 0;
      for i := 0 to slots.Length
        invariant -1 <= slot < i
        invariant slot == Oldest(slots[..i]) && (slot >= 0 ==> least == slots[slot])
      {
        assert slots[..i + 1][..i] == slots[..i];
        if (slot == -1 || slots[i] <= least) && slots[i] != 0 {
          slot, least := i, slots[i];
        }
      }
      assert slots[..slots.Length] == slots[..];
      if slot != -1 {
        slots[slot] := 0;
        owned := owned[client := slot];
      }
    }

    method FreeClosedSlot(client: nat)
      requires SlotsExist(Current())
      modifies this, slots
      ensures Current() == Free(old(Current()), client)
    {
      if client in owned {
        slots[owned[client]] := index;
        owned := owned - {client};
        index := index + 1;
      }
    }
  }

  // ---------------------------------------------------------------- runs

  datatype Event = Opened(client: nat) | Closed(client: nat)

  function Step(t: Table, e: Event): Table
    requires SlotsExist(t)
  {
    match e
    case Opened(c) => Allocate(t, c)
    case Closed(c) => Free(t, c)
  }

  /** A client takes a slot when it is made, and only then. */
  predicate Possible(t: Table, e: Event) {
    e.Opened? ==> e.client !in t.owned
  }

  /** Before anything was freed, the owned slots are the topmost ones. */
  ghost predicate Topmost(slots: seq<nat>) {
    forall i, j :: 0 <= i < j < |slots| && slots[i] == 0 ==> slots[j] == 0
  }

  /** Clients own different slots, and a slot is 0 exactly while it is owned. */
  ghost predicate Exclusive(t: Table) {
    && SlotsExist(t)
    && (forall c, d :: c in t.owned && d in t.owned && c != d ==> t.owned[c] != t.owned[d])
    && (forall j :: 0 <= j < |t.slots| ==> (t.slots[j] == 0 <==> exists c :: c in t.owned && t.owned[c] == j))
  }

  /** The counter is behind every stamp but the first, which alone may occur twice. */
  ghost predicate Stamped(slots: seq<nat>, index: nat) {
    && index > 0
    && (forall j :: 0 <= j < |slots| ==> slots[j] <= index && (index > 1 ==> slots[j] < index))
    && (forall i, j :: 0 <= i < j < |slots| && slots[i] > 1 ==> slots[i] != slots[j])
    && (index == 1 ==> Topmost(slots))
  }

  ghost predicate Valid(t: Table) {
    Exclusive(t) && Stamped(t.slots, t.index)
  }

  lemma OpenedValid(t: Table, client: nat)
    requires Valid(t) && client !in t.owned
    ensures Valid(Allocate(t, client))
  {
    hide Exclusive;
    OpenedExclusive(t, client);
  }

  lemma OpenedExclusive(t: Table, client: nat)
    requires Exclusive(t) && client !in t.owned
    ensures Exclusive(Allocate(t, client))
  {
    var after := Allocate(t, client);
    var slot := Oldest(t.slots);
    hide Oldest;
    if slot != -1 {
      assert forall c :: c in t.owned ==> t.slots[t.owned[c]] == 0;
      forall j | 0 <= j < |t.slots|
        ensures after.slots[j] == 0 <==> exists c :: c in after.owned && after.owned[c] == j
      {
        if j == slot {
          assert after.owned[client] == j;
        } else if t.slots[j] == 0 {
          var c :| c in t.owned && t.owned[c] == j;
          assert c in after.owned && after.owned[c] == j;
        }
      }
    }
  }

  lemma ClosedValid(t: Table, client: nat)
    requires Valid(t)
    ensures Valid(Free(t, client))
  {
    if client in t.owned {
      var after := Free(t, client);
      var slot := t.owned[client];
      forall j | 0 <= j < |t.slots|
        ensures after.slots[j] == 0 <==> exists c :: c in after.owned && after.owned[c] == j
      {
        if j != slot && t.slots[j] == 0 {
          var c :| c in t.owned && t.owned[c] == j;
          assert c in after.owned && after.owned[c] == j;
        }
      }
    }
  }

  lemma StepValid(t: Table, e: Event)
    requires Valid(t) && Possible(t, e)
    ensures Valid(Step(t, e))
  {
    match e
    case Opened(c) => OpenedValid(t, c);
    case Closed(c) => ClosedValid(t, c);
  }

  ghost predicate PossibleRun(t: Table, events: seq<Event>)
    decreases |events|
  {
    events == [] || (SlotsExist(t) && Possible(t, events[0]) && PossibleRun(Step(t, events[0]), events[1..]))
  }

  ghost function Steps(t: Table, events: seq<Event>): Table
    requires PossibleRun(t, events)
    decreases |events|
  {
    if events == [] then t else Steps(Step(t, events[0]), events[1..])
  }

  lemma {:induction false} StepsValid(t: Table, events: seq<Event>)
    requires Valid(t) && PossibleRun(t, events)
    ensures Valid(Steps(t, events))
    decreases |events|
  {
    hide Valid, Step;
    if events != [] {
      StepValid(t, events[0]);
      StepsValid(Step(t, events[0]), events[1..]);
    }
  }

  /** Over every sequence of clients that come and go: live clients own different slots, and
      the slots that are 0 are exactly theirs. */
  lemma SlotsAreExclusive(n: nat, events: seq<Event>)
    requires PossibleRun(NewTable(n), events)
    ensures Valid(Steps(NewTable(n), events))
  {
    StepsValid(NewTable(n), events);
  }

  // ---------------------------------------------------------------- the oldest first

  /** The slots that a run gives to clients. */
  ghost function Given(t: Table, events: seq<Event>): set<int>
    requires PossibleRun(t, events)
    decreases |events|
  {
    if events == [] then {}
    else (if events[0].Opened? then {Oldest(t.slots)} else {}) + Given(Step(t, events[0]), events[1..])
  }

  /** A free slot keeps its stamp until it is given to a client. */
  lemma {:induction false} FreeSlotKeepsStamp(t: Table, events: seq<Event>, j: nat)
    requires Valid(t) && PossibleRun(t, events) && j < |t.slots| && t.slots[j] != 0 && j !in Given(t, events)
    ensures |Steps(t, events).slots| == |t.slots| && Steps(t, events).slots[j] == t.slots[j]
    decreases |events|
  {
    if events != [] {
      StepValid(t, events[0]);
      FreeSlotKeepsStamp(Step(t, events[0]), events[1..], j);
    }
  }

  /** After the first slot was freed: a slot that is freed now is given away only when every
      slot that was free before has been given away. */
  lemma OldestFirst(t: Table, client: nat, events: seq<Event>, j: nat)
    requires Valid(t) && t.index > 1 && client in t.owned
    requires PossibleRun(Free(t, client), events)
    requires t.owned[client] !in Given(Free(t, client), events)
    requires Oldest(Steps(Free(t, client), events).slots) == t.owned[client]
    requires j < |t.slots| && t.slots[j] != 0
    ensures j in Given(Free(t, client), events)
  {
    var freed, slot := Free(t, client), t.owned[client];
    ClosedValid(t, client);
    assert j != slot && freed.slots[j] == t.slots[j] < t.index == freed.slots[slot];
    FreeSlotKeepsStamp(freed, events, slot);
    if j !in Given(freed, events) {
      FreeSlotKeepsStamp(freed, events, j);
    }
  }

  /** Every slot that was free when the slot of the client was freed is given to a client
      before that slot is, whoever comes and goes. */
  ghost predicate WaitsItsTurn(t: Table, client: nat)
    requires SlotsExist(t) && client in t.owned
  {
    forall events :: PossibleRun(Free(t, client), events)
      && t.owned[client] !in Given(Free(t, client), events)
      && Oldest(Steps(Free(t, client), events).slots) == t.owned[client]
      ==> forall j :: 0 <= j < |t.slots| && t.slots[j] != 0 ==> j in Given(Free(t, client), events)
  }

  /** The first slot that is freed gets the stamp of the slots that were never used. */
  lemma FirstFreedIsOldest(t: Table, client: nat)
    requires Valid(t) && t.index == 1 && client in t.owned
    ensures Oldest(Free(t, client).slots) == t.owned[client]
  {
    var freed, slot := Free(t, client).slots, t.owned[client];
    var r := Oldest(freed);
    assert t.slots[slot] == 0 && freed[slot] == 1;
    assert r >= 0 && freed[r] == 1;
    assert forall j :: slot < j < |freed| ==> t.slots[j] == 0 && freed[j] == 0;
  }

  /** Over every run: the slot that is freed next waits its turn if and only if some slot was
      freed before or no other slot is free.  The very first one is given away again at once
      although others are free. */
  lemma WaitsExactly(n: nat, events: seq<Event>, client: nat)
    requires PossibleRun(NewTable(n), events) && client in Steps(NewTable(n), events).owned
    ensures var t := Steps(NewTable(n), events);
      && Valid(t)
      && (WaitsItsTurn(t, client) <==> t.index > 1 || forall j :: 0 <= j < |t.slots| ==> t.slots[j] == 0)
  {
    var t := Steps(NewTable(n), events);
    SlotsAreExclusive(n, events);
    WaitsExactlyIn(t, client);
  }

  lemma WaitsExactlyIn(t: Table, client: nat)
    requires Valid(t) && client in t.owned
    ensures WaitsItsTurn(t, client) <==> t.index > 1 || forall j :: 0 <= j < |t.slots| ==> t.slots[j] == 0
  {
    var freed, slot := Free(t, client), t.owned[client];
    if t.index > 1 {
      forall events, j | PossibleRun(freed, events) && slot !in Given(freed, events)
        && Oldest(Steps(freed, events).slots) == slot && 0 <= j < |t.slots| && t.slots[j] != 0
        ensures j in Given(freed, events)
      {
        OldestFirst(t, client, events, j);
      }
    } else if j :| 0 <= j < |t.slots| && t.slots[j] != 0 {
      FirstFreedIsOldest(t, client);
      assert PossibleRun(freed, []) && Steps(freed, []) == freed && Given(freed, []) == {};
    }
  }
}
