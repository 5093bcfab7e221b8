/** Reading a value that is longer than a packet: the first response and the long reads that
    follow it, with the cursor that the value keeps between them, while others write the value
    (BLECharacteristic.cpp:221-402, 648-660; BLEValue.cpp:18-117; Bluetooth Core Specification
    Vol 3 Part G section 4.8.3). */
module LongRead {
  import opened Sequences

  const MAX_ATTR_LEN := 600

  /** BLEValue, and whether a prepared write has begun (m_writeEvt). */
  datatype Value = Value(data: string, readOffset: nat, accumulation: string, writing: bool)

  const NEW_VALUE := Value([], 0, [], false)

  /** The cursor is a place in the value; behind it a long read takes bytes of other memory. */
  predicate Inside(v: Value) { v.readOffset <= |v.data| }

  /** The response to a read request that is not long; max is the size of a packet less one. */
  function FirstResponse(v: Value, max: nat): (Value, string) {
    if max <= |v.data| then (v.(readOffset := max), v.data[..max])
    else (v, v.data)
  }

  function LongResponse(v: Value, max: nat): (Value, string)
    requires Inside(v)
  {
    if |v.data| - v.readOffset < max then (v.(readOffset := 0), v.data[v.readOffset..])
    else (v.(readOffset := v.readOffset + max), v.data[v.readOffset..v.readOffset + max])
  }

  /** What reaches a characteristic.  SetValue is a write request and the call of a program. */
  datatype Event =
    | SetValue(value: string)
    | PrepareWrite(part: string)
    | ExecuteWrite(execute: bool)
    | ReadRequest(max: nat, isLong: bool)

  function Step(v: Value, e: Event): Value {
    match e
    case SetValue(value) => if |value| > MAX_ATTR_LEN then v else v.(data := value)
    case PrepareWrite(part) => v.(accumulation := v.accumulation + part, writing := true)
    case ExecuteWrite(execute) =>
      if !v.writing then v
      else if execute && v.accumulation == [] then v.(writing := false)
      else Value(if execute then v.accumulation else v.data, 0, [], false)
    case ReadRequest(max, false) => FirstResponse(v, max).0
    // behind the end of the value the unsigned difference is large, and the cursor moves on
    case ReadRequest(max, true) =>
      if Inside(v) then LongResponse(v, max).0 else v.(readOffset := v.readOffset + max)
  }

  function Run(v: Value, events: seq<Event>): Value
    decreases |events|
  {
    if events == [] then v else Run(Step(v, events[0]), events[1..])
  }

  class BLECharacteristic {
    var data: string
    var readOffset: nat
    var accumulation: string
    var writing: bool

    function Current(): Value
      reads this
    {
      Value(data, readOffset, accumulation, writing)
    }

    constructor ()
      ensures Current() == NEW_VALUE
    {
      data, readOffset, accumulation, writing := [], 0, [], false;
    }

    /** Too long a value is refused; the cursor stays. */
    method SetValue(value: string)
      modifies this`data
      ensures Current() == Step(old(Current()), Event.SetValue(value))
    {
      if |value| > MAX_ATTR_LEN {
        return;
      }
      data := value;
    }

    method PrepareWrite(part: string)
      modifies this`accumulation, this`writing
      ensures Current() == Step(old(Current()), Event.PrepareWrite(part))
    {
      accumulation := accumulation + part;
      writing := true;
    }

    /** The parts of a prepared write become the value, or nothing; both reset the cursor. */
    method ExecuteWrite(execute: bool)
      modifies this
      ensures Current() == Step(old(Current()), Event.ExecuteWrite(execute))
    {
      if writing {
        writing := false;
        if execute {
          Commit();
        } else {
          Cancel();
        }
      }
    }

    method Commit()
      modifies this`data, this`accumulation, this`readOffset
      ensures old(accumulation) == [] ==> data == old(data) && accumulation == [] && readOffset == old(readOffset)
      ensures old(accumulation) != [] ==> data == old(accumulation) && accumulation == [] && readOffset == 0
    {
      if |accumulation| == 0 {
        return;
      }
      data := accumulation;
      accumulation, readOffset := [], 0;
    }

    method Cancel()
      modifies this`accumulation, this`readOffset
      ensures accumulation == [] && readOffset == 0
    {
      accumulation, readOffset := [], 0;
    }

    /** ESP_GATTS_READ_EVT for a peer with this MTU. */
    method Read(mtu: nat, isLong: bool) returns (response: string)
      requires mtu >= 1 && (isLong ==> Inside(Current()))
      modifies this`readOffset
      ensures (Current(), response) ==
        if isLong then LongResponse(old(Current()), mtu - 1) else FirstResponse(old(Current()), mtu - 1)
    {
      var maxOffset := mtu - 1;
      if isLong {
        if |data| - readOffset < maxOffset {
          response := data[readOffset..];
          readOffset := 0;
        } else {
          response := data[readOffset..readOffset + maxOffset];
          readOffset := readOffset + maxOffset;
        }
      } else {
        if |data| + 1 > maxOffset {
          readOffset := maxOffset;
          response := data[..maxOffset];
        } else {
          response := data;
        }
      }
    }
  }

  // ---------------------------------------------------------------- the cursor over every run

  /** The write leaves a value that ends in front of the cursor. */
  predicate CutsOff(v: Value, e: Event) {
    e.SetValue? && |e.value| <= 600 && |e.value| < v.readOffset
  }

  lemma StepInside(v: Value, e: Event)
    requires Inside(v)
    ensures Inside(Step(v, e)) <==> !CutsOff(v, e)
  {
  }

  lemma {:induction false} RunSplits(v: Value, events: seq<Event>, k: nat)
    requires k < |events|
    ensures Run(v, events[..k + 1]) == Step(Run(v, events[..k]), events[k])
    decreases k
  {
    if k == 0 {
      assert events[..1][1..] == [];
    } else {
      RunSplits(Step(v, events[0]), events[1..], k - 1);
      assert events[..k + 1][1..] == events[1..][..k];
      assert events[..k][1..] == events[1..][..k - 1];
    }
  }

  /** Over every run of writes, prepared writes and reads of any clients: the cursor never
      leaves the value if and only if no value is set that is shorter than the cursor at that
      moment.  Only an event of this one kind leads outside. */
  lemma CursorStaysInside(events: seq<Event>)
    ensures (forall k :: 0 <= k <= |events| ==> Inside(Run(NEW_VALUE, events[..k]))) <==>
      (forall k :: 0 <= k < |events| ==> !CutsOff(Run(NEW_VALUE, events[..k]), events[k]))
  {
    hide CutsOff, Step;
    if forall k :: 0 <= k < |events| ==> !CutsOff(Run(NEW_VALUE, events[..k]), events[k]) {
      forall k | 0 <= k <= |events| ensures Inside(Run(NEW_VALUE, events[..k])) {
        InsideUpTo(events, k);
      }
    } else if forall k :: 0 <= k <= |events| ==> Inside(Run(NEW_VALUE, events[..k])) {
      var k :| 0 <= k < |events| && CutsOff(Run(NEW_VALUE, events[..k]), events[k]);
      RunSplits(NEW_VALUE, events, k);
      StepInside(Run(NEW_VALUE, events[..k]), events[k]);
      assert Inside(Run(NEW_VALUE, events[..k + 1]));
    }
  }

  lemma {:induction false} InsideUpTo(events: seq<Event>, k: nat)
    requires k <= |events|
    requires forall i :: 0 <= i < |events| ==> !CutsOff(Run(NEW_VALUE, events[..i]), events[i])
    ensures Inside(Run(NEW_VALUE, events[..k]))
  {
    hide CutsOff, Step;
    if k > 0 {
      InsideUpTo(events, k - 1);
      RunSplits(NEW_VALUE, events, k - 1);
      StepInside(Run(NEW_VALUE, events[..k - 1]), events[k - 1]);
    }
  }

  /** It does happen: a first read that fills its packet, then a value shorter than the packet. */
  lemma ShorterValueCutsOff(value: string, shorter: string, max: nat)
    requires |shorter| < max <= |value| <= 600
    ensures !Inside(Run(NEW_VALUE, [SetValue(value), ReadRequest(max, false), SetValue(shorter)]))
  {
    var v := Step(NEW_VALUE, SetValue(value));
    var read := Step(v, ReadRequest(max, false));
    assert Run(read, [SetValue(shorter)]) == Run(Step(read, SetValue(shorter)), []);
    assert [ReadRequest(max, false), SetValue(shorter)][1..] == [SetValue(shorter)];
    assert [SetValue(value), ReadRequest(max, false), SetValue(shorter)][1..]
      == [ReadRequest(max, false), SetValue(shorter)];
  }

  // ---------------------------------------------------------------- a whole read

  /** Long reads until a response is shorter than a packet allows. */
  function LongReads(v: Value, max: nat): (Value, seq<string>)
    requires 0 < max && Inside(v)
    decreases |v.data| + 1 - v.readOffset
  {
    var (next, response) := LongResponse(v, max);
    if |response| < max then (next, [response])
    else
      var (last, more) := LongReads(next, max);
      (last, [response] + more)
  }

  function WholeRead(v: Value, max: nat): (Value, seq<string>)
    requires 0 < max
  {
    var (next, response) := FirstResponse(v, max);
    if |response| < max then (next, [response])
    else
      var (last, more) := LongReads(next, max);
      (last, [response] + more)
  }

  /** So many bytes in so many responses, of which all but the last are full. */
  predicate Packed(n: nat, responses: seq<string>, max: nat) {
    && responses != [] && |responses[|responses| - 1]| < max
    && (forall i :: 0 <= i < |responses| - 1 ==> |responses[i]| == max)
    && n == (|responses| - 1) * max + |responses[|responses| - 1]|
  }

  lemma PackedMore(n: nat, responses: seq<string>, max: nat, first: string)
    requires Packed(n, responses, max) && |first| == max
    ensures Packed(n + max, [first] + responses, max)
  {
    var all := [first] + responses;
    assert all[|all| - 1] == responses[|responses| - 1];
    assert (|all| - 1) * max == (|responses| - 1) * max + max;
  }

  lemma {:induction false} LongReadsReassemble(v: Value, max: nat)
    requires 0 < max && Inside(v)
    ensures var (last, responses) := LongReads(v, max);
      && Flatten(responses) == v.data[v.readOffset..] && Packed(|v.data| - v.readOffset, responses, max)
      && last == v.(readOffset := 0)
    decreases |v.data| + 1 - v.readOffset
  {
    hide Packed;
    var (next, response) := LongResponse(v, max);
    if |response| < max {
      assert [response][1..] == [];
      assert Packed(|response|, [response], max) by {
        LastPacked(response, max);
      }
    } else {
      LongReadsReassemble(next, max);
      var more := LongReads(next, max).1;
      PackedMore(|next.data| - next.readOffset, more, max, response);
      assert ([response] + more)[1..] == more;
      assert v.data[v.readOffset..] == response + v.data[next.readOffset..];
    }
  }

  lemma LastPacked(response: string, max: nat)
    requires |response| < max
    ensures Packed(|response|, [response], max)
  {
  }

  /** For every value, packet size and cursor left by earlier reads: the responses put
      together are the value, the first short one is the last, and the cursor is 0 behind a
      read of more than one response and untouched by a read of one. */
  lemma ReadReassembles(v: Value, mtu: nat)
    requires mtu >= 2
    ensures var (last, responses) := WholeRead(v, mtu - 1);
      && Flatten(responses) == v.data && Packed(|v.data|, responses, mtu - 1)
      && last == (if |responses| > 1 then v.(readOffset := 0) else v)
      && (|responses| > 1 <==> |v.data| >= mtu - 1)
  {
    hide Packed;
    var max := mtu - 1;
    var (next, response) := FirstResponse(v, max);
    if |response| < max {
      assert [response][1..] == [];
      LastPacked(response, max);
    } else {
      LongReadsReassemble(next, max);
      var more := LongReads(next, max).1;
      PackedMore(|next.data| - next.readOffset, more, max, response);
      SomeResponse(|next.data| - next.readOffset, more, max);
      assert ([response] + more)[1..] == more;
      assert v.data == response + v.data[max..];
    }
  }

  lemma SomeResponse(n: nat, responses: seq<string>, max: nat)
    requires Packed(n, responses, max)
    ensures responses != []
  {
  }

  /** The first step of a whole read, and of the long reads. */
  lemma WholeReadUnfolded(v: Value, max: nat)
    requires 0 < max
    ensures var (next, response) := FirstResponse(v, max);
      && |response| <= max && next.data == v.data && (|response| == max ==> 0 < next.readOffset <= |v.data|)
      && WholeRead(v, max).0 == (if |response| < max then next else LongReads(next, max).0)
      && Flatten(WholeRead(v, max).1) == response + (if |response| < max then [] else Flatten(LongReads(next, max).1))
  {
    var (next, response) := FirstResponse(v, max);
    assert WholeRead(v, max).1[1..] == if |response| < max then [] else LongReads(next, max).1;
  }

  lemma LongReadsUnfolded(v: Value, max: nat)
    requires 0 < max && Inside(v)
    ensures var (next, response) := LongResponse(v, max);
      && |response| <= max && next.data == v.data
      && (|response| == max ==> v.readOffset < next.readOffset <= |v.data|)
      && LongReads(v, max).0 == (if |response| < max then next else LongReads(next, max).0)
      && Flatten(LongReads(v, max).1) == response + (if |response| < max then [] else Flatten(LongReads(next, max).1))
  {
    var (next, response) := LongResponse(v, max);
    assert LongReads(v, max).1[1..] == if |response| < max then [] else LongReads(next, max).1;
  }

  /** The client that does so with a characteristic. */
  method ReadWhole(c: BLECharacteristic, mtu: nat) returns (value: string)
    requires mtu >= 2
    modifies c`readOffset
    ensures c.Current() == WholeRead(old(c.Current()), mtu - 1).0 && value == old(c.data)
  {
    hide Packed, WholeRead, LongReads, Flatten, LongResponse, FirstResponse;
    var max := mtu - 1;
    ghost var before := c.Current();
    ReadReassembles(before, mtu);
    WholeReadUnfolded(before, max);
    var response := c.Read(mtu, false);
    value := response;
    while |response| == max
      invariant c.data == before.data && |response| <= max && (|response| == max ==> Inside(c.Current()))
      invariant WholeRead(before, max).0
        == (if |response| < max then c.Current() else LongReads(c.Current(), max).0)
      invariant before.data
        == value + (if |response| < max then [] else Flatten(LongReads(c.Current(), max).1))
      decreases if |response| == max then |c.data| + 1 - c.readOffset else 0
    {
      LongReadsUnfolded(c.Current(), max);
      response := c.Read(mtu, true);
      value := value + response;
    }
  }

  // ---------------------------------------------------------------- a read across writes

  /** One of these events ends a prepared write and so sets the cursor back to 0. */
  predicate Resets(v: Value, events: seq<Event>)
    decreases |events|
  {
    events != [] && (
      (events[0].ExecuteWrite? && v.writing && (events[0].execute ==> v.accumulation != []))
      || Resets(Step(v, events[0]), events[1..]))
  }

  lemma {:induction false} CursorAcrossWrites(v: Value, events: seq<Event>)
    requires forall e :: e in events ==> !e.ReadRequest?
    ensures Run(v, events).readOffset == if Resets(v, events) then 0 else v.readOffset
    decreases |events|
  {
    if events != [] {
      CursorAcrossWrites(Step(v, events[0]), events[1..]);
    }
  }

  /** A client that has the beginning of the value up to the cursor, and goes on with long
      reads after writes of others: it can go on and what it has in the end is the value that
      stands then, if and only if no prepared write was ended in between, which makes the long
      reads start again, and the new value begins with what the client already has. */
  lemma ReadAcrossWrites(v: Value, events: seq<Event>, max: nat, collected: string)
    requires 0 < max && Inside(v) && collected == v.data[..v.readOffset] && collected != []
    requires forall e :: e in events ==> !e.ReadRequest?
    ensures var after := Run(v, events);
      Inside(after) && collected + Flatten(LongReads(after, max).1) == after.data
      <==> !Resets(v, events) && collected <= after.data
  {
    var after := Run(v, events);
    hide Run, Resets;
    CursorAcrossWrites(v, events);
    if Inside(after) {
      LongReadsReassemble(after, max);
      var rest := after.data[after.readOffset..];
      assert collected <= after.data && after.readOffset == |collected| ==> after.data == collected + rest;
      if collected + rest == after.data {
        assert |collected| + |after.data| - after.readOffset == |after.data|;
        assert collected == after.data[..|collected|];
      }
    }
  }

  // ---------------------------------------------------------------- prepared writes

  function PartsOf(events: seq<Event>): seq<string> {
    if events == [] then []
    else (if events[0].PrepareWrite? then [events[0].part] else []) + PartsOf(events[1..])
  }

  lemma {:induction false} PartsCollected(v: Value, events: seq<Event>)
    requires forall e :: e in events ==> !e.ExecuteWrite?
    ensures var after := Run(v, events);
      && after.accumulation == v.accumulation + Flatten(PartsOf(events))
      && (after.writing <==> v.writing || PartsOf(events) != [])
    decreases |events|
  {
    if events != [] {
      var e := events[0];
      assert e in events;
      PartsCollected(Step(v, e), events[1..]);
      var more := PartsOf(events[1..]);
      if e.PrepareWrite? {
        assert PartsOf(events)[1..] == more;
        assert v.accumulation + (e.part + Flatten(more)) == v.accumulation + e.part + Flatten(more);
      } else {
        assert PartsOf(events) == more;
      }
    }
  }

  /** A prepared write, with whatever other requests come in between: executing it makes its
      parts in their order the value, and cancelling it leaves the value; both let the next long
      read start again.  Executing nothing but empty parts does neither. */
  lemma PreparedWrite(v: Value, events: seq<Event>, execute: bool)
    requires v.accumulation == [] && !v.writing && forall e :: e in events ==> !e.ExecuteWrite?
    ensures var before, after := Run(v, events), Run(v, events + [ExecuteWrite(execute)]);
      var written := Flatten(PartsOf(events));
      && after.data == (if execute && written != [] then written else before.data)
      && after.readOffset == (if PartsOf(events) == [] || (execute && written == []) then before.readOffset else 0)
      && after.accumulation == [] && !after.writing
  {
    PartsCollected(v, events);
    var all := events + [ExecuteWrite(execute)];
    RunSplits(v, all, |events|);
    assert all[..|events|] == events && all[..|events| + 1] == all;
  }

  /** What is set stands until something else is set, whatever is read or prepared. */
  lemma {:induction false} LastValueStands(v: Value, events: seq<Event>, k: nat)
    requires k <= |events| && forall e :: e in events ==> !e.ExecuteWrite?
    requires k > 0 ==> events[k - 1].SetValue? && |events[k - 1].value| <= 600
    requires forall i :: k <= i < |events| ==> events[i].SetValue? ==> |events[i].value| > 600
    ensures Run(v, events).data == if k > 0 then events[k - 1].value else v.data
    decreases |events|
  {
    if events != [] {
      assert events[0] in events;
      LastValueStands(Step(v, events[0]), events[1..], if k > 0 then k - 1 else 0);
    }
  }
}
