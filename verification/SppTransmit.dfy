/** The task that packs what is printed to a Bluetooth serial port into writes of up to 330
    bytes (BluetoothSerial.cpp:138-236, and the reset of its buffer at 252-262). */
module SppTransmit {

  const TX_MAX := 330

  /** How an attempt to send the buffer goes. */
  datatype Outcome = Congested | ClientGone | WriteFailed | AckFailed | Sent

  /** A new connection may reset the buffer while the transmit task waits for the congestion to end. */
  datatype Attempt = Attempt(reset: bool, outcome: Outcome)

  /** The n-th attempt. */
  type Weather = nat -> Attempt

  datatype Write = Write(data: string, behindReset: bool)

  datatype Transmitter = Transmitter(buffer: string, writes: seq<Write>, attempts: nat)

  const NEW_TRANSMITTER := Transmitter([], [], 0)

  // ---------------------------------------------------------------- what one call does

  function SendBuffer(t: Transmitter, w: Weather): (Transmitter, bool) {
    var a := w(t.attempts);
    var t := t.(buffer := if a.reset then [] else t.buffer, attempts := t.attempts + 1);
    if a.outcome.AckFailed? || a.outcome.Sent?
    then (t.(buffer := [], writes := t.writes + [Write(t.buffer, a.reset)]), a.outcome.Sent?)
    else (t, false)
  }

  /** Full blocks, as long as they can be sent; what is left over if the last one could. */
  function SendBlocks(t: Transmitter, data: string, w: Weather): (r: (Transmitter, string))
    ensures |r.1| < TX_MAX
    decreases |data|
  {
    if |data| < TX_MAX then (t, data)
    else
      var (t, ok) := SendBuffer(t.(buffer := data[..TX_MAX]), w);
      if ok then SendBlocks(t, data[TX_MAX..], w) else (t, [])
  }

  /** One packet; last says that no other packet is waiting. */
  function SendPacket(t: Transmitter, packet: string, last: bool, w: Weather): Transmitter
    requires |t.buffer| <= TX_MAX
  {
    var room := TX_MAX - |t.buffer|;
    if |packet| <= room then
      var t := t.(buffer := t.buffer + packet);
      if |t.buffer| == TX_MAX || last then SendBuffer(t, w).0 else t
    else
      var (t, ok) := SendBuffer(t.(buffer := t.buffer + packet[..room]), w);
      if !ok then t
      else
        var (t, rest) := SendBlocks(t, packet[room..], w);
        if rest == [] then t
        else
          var t := t.(buffer := rest);
          if last then SendBuffer(t, w).0 else t
  }

  class BluetoothSerial {
    const weather: Weather
    const txBuffer: array<char>
    var txBufferLen: nat
    var writes: seq<Write>
    var attempts: nat

    predicate Valid()
      reads this
    {
      txBuffer.Length == TX_MAX && txBufferLen <= TX_MAX
    }

    function Current(): Transmitter
      requires Valid()
      reads this, txBuffer
    {
      Transmitter(txBuffer[..txBufferLen], writes, attempts)
    }

    constructor (weather: Weather)
      ensures Valid() && Current() == NEW_TRANSMITTER && this.weather == weather && fresh(txBuffer)
    {
      this.weather := weather;
      txBuffer := new char[TX_MAX];
      txBufferLen, writes, attempts := 0, [], 0;
    }

    /** ESP_SPP_SRV_OPEN_EVT while the transmit task waits for a packet. */
    method Reset()
      requires Valid()
      modifies this`txBufferLen
      ensures Valid() && Current() == old(Current()).(buffer := [])
    {
      txBufferLen := 0;
    }

    method Send() returns (ok: bool)
      requires Valid()
      modifies this`txBufferLen, this`writes, this`attempts
      ensures Valid() && (Current(), ok) == SendBuffer(old(Current()), weather) && (ok ==> txBufferLen == 0)
    {
      var a := weather(attempts);
      attempts := attempts + 1;
      if a.reset {
        txBufferLen := 0;
      }
      if a.outcome.Congested? || a.outcome.ClientGone? || a.outcome.WriteFailed? {
        return false;
      }
      writes := writes + [Write(txBuffer[..txBufferLen], a.reset)];
      txBufferLen := 0;
      return a.outcome.Sent?;
    }

    /** memcpy to the buffer behind its first at bytes. */
    method Copy(at: nat, data: string)
      requires Valid() && at + |data| <= TX_MAX
      modifies txBuffer
      ensures txBuffer[..at] == old(txBuffer[..at]) && txBuffer[at..at + |data|] == data
      ensures txBuffer[..at + |data|] == old(txBuffer[..at]) + data
    {
      for i := 0 to |data|
        invariant txBuffer[..at] == old(txBuffer[..at]) && txBuffer[at..at + i] == data[..i]
      {
        txBuffer[at + i] := data[i];
      }
      assert txBuffer[..at + |data|] == txBuffer[..at] + txBuffer[at..at + |data|];
    }

    method TransmitPacket(packet: string, last: bool)
      requires Valid()
      modifies this`txBufferLen, this`writes, this`attempts, txBuffer
      ensures Valid() && Current() == SendPacket(old(Current()), packet, last, weather)
    {
      hide SendBuffer, SendBlocks;
      if |packet| <= TX_MAX - txBufferLen {
        Copy(txBufferLen, packet);
        txBufferLen := txBufferLen + |packet|;
        if TX_MAX == txBufferLen || last {
          var _ := Send();
        }
      } else {
        TransmitLarge(packet, last);
      }
    }

    method TransmitLarge(packet: string, last: bool)
      requires Valid() && |packet| > TX_MAX - txBufferLen
      modifies this`txBufferLen, this`writes, this`attempts, txBuffer
      ensures Valid() && Current() == SendPacket(old(Current()), packet, last, weather)
    {
      hide SendBuffer, SendBlocks;
      var data := packet;
      var toSend := TX_MAX - txBufferLen;
      Copy(txBufferLen, data[..toSend]);
      txBufferLen := TX_MAX;
      data := data[toSend..];
      var ok := Send();
      if ok {
        data := TransmitBlocks(data);
      } else {
        data := [];
      }
      if data != [] {
        Copy(0, data);
        txBufferLen := txBufferLen + |data|;
        if last {
          var _ := Send();
        }
      }
    }

    method TransmitBlocks(packet: string) returns (data: string)
      requires Valid() && txBufferLen == 0
      modifies this`txBufferLen, this`writes, this`attempts, txBuffer
      ensures Valid() && (data != [] ==> txBufferLen == 0)
      ensures (Current(), data) == SendBlocks(old(Current()), packet, weather)
    {
      data := packet;
      while |data| >= TX_MAX
        invariant Valid() && (data != [] ==> txBufferLen == 0)
        invariant SendBlocks(Current(), data, weather) == SendBlocks(old(Current()), packet, weather)
        decreases |data|
      {
        Copy(0, data[..TX_MAX]);
        txBufferLen := TX_MAX;
        data := data[TX_MAX..];
        var ok := Send();
        if !ok {
          data := [];
          break;
        }
      }
    }
  }

  // ---------------------------------------------------------------- runs

  /** A packet with what the queue holds behind it, or a new connection in between. */
  datatype Event = Packet(data: string, last: bool) | Connected

  function Step(t: Transmitter, e: Event, w: Weather): Transmitter
    requires |t.buffer| <= TX_MAX
  {
    match e
    case Packet(data, last) => SendPacket(t, data, last, w)
    case Connected => t.(buffer := [])
  }

  function Steps(t: Transmitter, events: seq<Event>, w: Weather): Transmitter
    requires |t.buffer| <= TX_MAX
    decreases |events|
  {
    if events == [] then t
    else
      StepKeepsRoom(t, events[0], w);
      Steps(Step(t, events[0], w), events[1..], w)
  }

  lemma StepKeepsRoom(t: Transmitter, e: Event, w: Weather)
    requires |t.buffer| <= TX_MAX
    ensures |Step(t, e, w).buffer| <= TX_MAX
  {
    if e.Packet? && |e.data| > TX_MAX - |t.buffer| {
      var room := TX_MAX - |t.buffer|;
      var (first, ok) := SendBuffer(t.(buffer := t.buffer + e.data[..room]), w);
      if ok {
        BlocksKeepRoom(first, e.data[room..], w);
      }
    }
  }

  lemma {:induction false} BlocksKeepRoom(t: Transmitter, data: string, w: Weather)
    requires |t.buffer| <= TX_MAX
    ensures |SendBlocks(t, data, w).0.buffer| <= TX_MAX
    decreases |data|
  {
    if |data| >= TX_MAX {
      BlocksKeepRoom(SendBuffer(t.(buffer := data[..TX_MAX]), w).0, data[TX_MAX..], w);
    }
  }

  function Input(events: seq<Event>): string {
    if events == [] then []
    else (if events[0].Packet? then events[0].data else []) + Input(events[1..])
  }

  function Written(writes: seq<Write>): string {
    if writes == [] then [] else Written(writes[..|writes| - 1]) + writes[|writes| - 1].data
  }

  /** Everything that has been written or still can be. */
  function Output(t: Transmitter): string {
    Written(t.writes) + t.buffer
  }

  lemma WrittenAnother(writes: seq<Write>, x: Write)
    ensures Written(writes + [x]) == Written(writes) + x.data
  {
  }

  // ---------------------------------------------------------------- nothing is lost

  ghost predicate Fair(w: Weather) {
    forall n :: w(n) == Attempt(false, Sent)
  }

  lemma SendLosesNothing(t: Transmitter, w: Weather)
    requires Fair(w)
    ensures var (after, ok) := SendBuffer(t, w);
      ok && after.buffer == [] && Written(after.writes) == Output(t)
  {
  }

  lemma {:induction false} BlocksLoseNothing(t: Transmitter, data: string, w: Weather)
    requires Fair(w) && t.buffer == []
    ensures var (after, rest) := SendBlocks(t, data, w);
      after.buffer == [] && Written(after.writes) + rest == Written(t.writes) + data
    decreases |data|
  {
    if |data| >= TX_MAX {
      var full := t.(buffer := data[..TX_MAX]);
      SendLosesNothing(full, w);
      BlocksLoseNothing(SendBuffer(full, w).0, data[TX_MAX..], w);
      assert Written(t.writes) + data[..TX_MAX] + data[TX_MAX..] == Written(t.writes) + data;
    }
  }

  lemma PacketLosesNothing(t: Transmitter, packet: string, last: bool, w: Weather)
    requires Fair(w) && |t.buffer| <= TX_MAX
    ensures var after := SendPacket(t, packet, last, w);
      Output(after) == Output(t) + packet && |after.buffer| < TX_MAX && (last ==> after.buffer == [])
  {
    hide SendBuffer, Written;
    var room := TX_MAX - |t.buffer|;
    if |packet| <= room {
      var longer := t.(buffer := t.buffer + packet);
      SendLosesNothing(longer, w);
      assert Output(longer) == Output(t) + packet;
    } else {
      var full := t.(buffer := t.buffer + packet[..room]);
      SendLosesNothing(full, w);
      var sent := SendBuffer(full, w).0;
      BlocksLoseNothing(sent, packet[room..], w);
      var (after, rest) := SendBlocks(sent, packet[room..], w);
      SendLosesNothing(after.(buffer := rest), w);
      assert Output(full) + packet[room..] == Output(t) + (packet[..room] + packet[room..]);
      assert packet[..room] + packet[room..] == packet;
    }
  }

  /** If every attempt succeeds and no new connection interferes, the writes and the buffer
      are the packets one after the other, and nothing stays in the buffer once the queue is
      empty. */
  lemma {:induction false} NothingIsLost(t: Transmitter, events: seq<Event>, w: Weather)
    requires Fair(w) && |t.buffer| <= TX_MAX && forall e :: e in events ==> e.Packet?
    ensures var end := Steps(t, events, w);
      && Output(end) == Output(t) + Input(events) && (events != [] ==> |end.buffer| < TX_MAX)
      && (events != [] && events[|events| - 1].last ==> end.buffer == [])
    decreases |events|
  {
    hide SendPacket, Output;
    if events == [] {
      assert Output(t) + [] == Output(t);
    } else {
      var e := events[0];
      assert e in events;
      StepKeepsRoom(t, e, w);
      PacketLosesNothing(t, e.data, e.last, w);
      NothingIsLost(Step(t, e, w), events[1..], w);
      assert Output(t) + e.data + Input(events[1..]) == Output(t) + Input(events);
    }
  }

  // ---------------------------------------------------------------- what is lost

  ghost predicate NoReset(w: Weather) {
    forall n :: !w(n).reset
  }

  /** The last of these attempts failed. */
  predicate Failed(from: nat, to: nat, w: Weather) {
    from < to && !w(to - 1).outcome.Sent?
  }

  /** An attempt writes the buffer or leaves it as it is. */
  lemma SendKeeps(t: Transmitter, w: Weather)
    requires NoReset(w)
    ensures var (after, ok) := SendBuffer(t, w);
      && Output(after) == Output(t) && after.attempts == t.attempts + 1
      && ok == w(t.attempts).outcome.Sent? && (ok ==> after.buffer == [])
  {
    WrittenAnother(t.writes, Write(t.buffer, false));
    assert Written(t.writes) + t.buffer + [] == Written(t.writes) + t.buffer;
  }

  lemma {:induction false} BlocksLoseExactly(t: Transmitter, data: string, w: Weather)
    requires NoReset(w) && t.buffer == []
    ensures var (after, rest) := SendBlocks(t, data, w);
      && t.attempts <= after.attempts
      && (forall n :: t.attempts <= n < after.attempts - 1 ==> w(n).outcome.Sent?)
      && var sent := TX_MAX * (after.attempts - t.attempts);
         && sent <= |data| && Output(after) == Output(t) + data[..sent]
         && (if Failed(t.attempts, after.attempts, w) then rest == [] else after.buffer == [] && rest == data[sent..])
    decreases |data|
  {
    hide SendBuffer, Output, NoReset;
    if |data| < TX_MAX {
      assert Output(t) + data[..0] == Output(t) && data[0..] == data;
    } else {
      var full := t.(buffer := data[..TX_MAX]);
      SendKeeps(full, w);
      OutputOfFull(t, data[..TX_MAX]);
      var (next, ok) := SendBuffer(full, w);
      if ok {
        BlocksLoseExactly(next, data[TX_MAX..], w);
        var sent := TX_MAX * (SendBlocks(next, data[TX_MAX..], w).0.attempts - next.attempts);
        FrontOfRest(Output(t), data, sent);
      }
    }
  }

  lemma OutputOfFull(t: Transmitter, block: string)
    requires t.buffer == []
    ensures Output(t.(buffer := block)) == Output(t) + block
  {
    assert Written(t.writes) + [] == Written(t.writes);
  }

  lemma FrontOfRest(output: string, data: string, n: nat)
    requires TX_MAX + n <= |data|
    ensures output + data[..TX_MAX] + data[TX_MAX..][..n] == output + data[..TX_MAX + n]
    ensures data[TX_MAX..][n..] == data[TX_MAX + n..]
  {
    assert data[..TX_MAX] + data[TX_MAX..][..n] == data[..TX_MAX + n];
  }

  /** How much of a packet is written or stays in the buffer: all of it, unless an attempt to
      send a full buffer fails; then what would have come behind that buffer is lost. */
  function Kept(t: Transmitter, packet: string, last: bool, w: Weather): (n: nat)
    requires |t.buffer| <= TX_MAX
    ensures n <= |packet|
  {
    var to := SendPacket(t, packet, last, w).attempts;
    var full := 330 * (to - t.attempts);
    if Failed(t.attempts, to, w) && |t.buffer| <= full < |t.buffer| + |packet| then full - |t.buffer| else |packet|
  }

  lemma PacketLosesExactly(t: Transmitter, packet: string, last: bool, w: Weather)
    requires NoReset(w) && |t.buffer| <= TX_MAX
    ensures var after := SendPacket(t, packet, last, w);
      && Output(after) == Output(t) + packet[..Kept(t, packet, last, w)]
      && forall n :: t.attempts <= n < after.attempts - 1 ==> w(n).outcome.Sent?
  {
    hide SendBuffer, SendBlocks, Output, NoReset;
    var room := TX_MAX - |t.buffer|;
    assert packet[..|packet|] == packet;
    if |packet| <= room {
      OutputOfMore(t, packet);
      SendKeeps(t.(buffer := t.buffer + packet), w);
    } else {
      var full := t.(buffer := t.buffer + packet[..room]);
      OutputOfMore(t, packet[..room]);
      SendKeeps(full, w);
      var (sent, ok) := SendBuffer(full, w);
      if ok {
        LargePacketLosesExactly(t, packet, sent, last, w);
      }
    }
  }

  lemma OutputOfMore(t: Transmitter, data: string)
    ensures Output(t.(buffer := t.buffer + data)) == Output(t) + data
  {
    Associates(Written(t.writes), t.buffer, data);
  }

  /** Behind the first full buffer. */
  lemma LargePacketLosesExactly(t: Transmitter, packet: string, sent: Transmitter, last: bool, w: Weather)
    requires NoReset(w) && |t.buffer| <= TX_MAX && |packet| > TX_MAX - |t.buffer|
    requires (sent, true) == SendBuffer(t.(buffer := t.buffer + packet[..TX_MAX - |t.buffer|]), w)
    requires sent.buffer == [] && sent.attempts == t.attempts + 1 && w(t.attempts).outcome.Sent?
    requires Output(sent) == Output(t) + packet[..TX_MAX - |t.buffer|]
    ensures var after := SendPacket(t, packet, last, w);
      && Output(after) == Output(t) + packet[..Kept(t, packet, last, w)]
      && forall n :: t.attempts <= n < after.attempts - 1 ==> w(n).outcome.Sent?
  {
    hide SendBuffer, SendBlocks, SendPacket, Output, NoReset, Kept;
    var room := TX_MAX - |t.buffer|;
    LargePacket(t, packet, sent, last, w);
    KeptOfLarge(t, packet, sent, last, w);
    BlocksLoseExactly(sent, packet[room..], w);
    var (after, rest) := SendBlocks(sent, packet[room..], w);
    var n := TX_MAX * (after.attempts - sent.attempts);
    JoinFronts(Output(t), packet, room, n);
    assert packet[..|packet|] == packet;
    if rest != [] {
      LeftoverKept(after, Output(t), packet, room + n, w);
    }
  }

  /** What is left of a packet goes to the buffer. */
  lemma LeftoverKept(t: Transmitter, output: string, packet: string, k: nat, w: Weather)
    requires NoReset(w) && t.buffer == [] && k <= |packet| && Output(t) == output + packet[..k]
    ensures var left := t.(buffer := packet[k..]);
      && Output(left) == output + packet && Output(SendBuffer(left, w).0) == output + packet
      && SendBuffer(left, w).0.attempts == t.attempts + 1
  {
    hide SendBuffer, Output, NoReset;
    OutputOfFull(t, packet[k..]);
    SendKeeps(t.(buffer := packet[k..]), w);
    Associates(output, packet[..k], packet[k..]);
    assert packet[..k] + packet[k..] == packet;
  }

  lemma KeptOfLarge(t: Transmitter, packet: string, sent: Transmitter, last: bool, w: Weather)
    requires NoReset(w) && |t.buffer| <= TX_MAX && |packet| > TX_MAX - |t.buffer|
    requires (sent, true) == SendBuffer(t.(buffer := t.buffer + packet[..TX_MAX - |t.buffer|]), w)
    requires sent.buffer == [] && sent.attempts == t.attempts + 1 && w(t.attempts).outcome.Sent?
    ensures var to := SendBlocks(sent, packet[TX_MAX - |t.buffer|..], w).0.attempts;
      Kept(t, packet, last, w)
      == if Failed(sent.attempts, to, w) then TX_MAX - |t.buffer| + TX_MAX * (to - sent.attempts) else |packet|
  {
    hide SendBuffer, SendBlocks, SendPacket, Output, NoReset;
    var room := TX_MAX - |t.buffer|;
    LargePacket(t, packet, sent, last, w);
    BlocksLoseExactly(sent, packet[room..], w);
    var (after, rest) := SendBlocks(sent, packet[room..], w);
    SendKeeps(after.(buffer := rest), w);
  }

  lemma LargePacket(t: Transmitter, packet: string, sent: Transmitter, last: bool, w: Weather)
    requires |t.buffer| <= TX_MAX && |packet| > TX_MAX - |t.buffer|
    requires (sent, true) == SendBuffer(t.(buffer := t.buffer + packet[..TX_MAX - |t.buffer|]), w)
    ensures var (after, rest) := SendBlocks(sent, packet[TX_MAX - |t.buffer|..], w);
      SendPacket(t, packet, last, w)
      == if rest == [] then after
         else if last then SendBuffer(after.(buffer := rest), w).0 else after.(buffer := rest)
  {
    hide SendBuffer, SendBlocks;
  }

  lemma JoinFronts(output: string, packet: string, a: nat, b: nat)
    requires a + b <= |packet|
    ensures output + packet[..a] + packet[a..][..b] == output + packet[..a + b]
    ensures packet[a..][b..] == packet[a + b..]
  {
    assert packet[..a] + packet[a..][..b] == packet[..a + b];
  }

  function KeptOfAll(t: Transmitter, events: seq<Event>, w: Weather): string
    requires |t.buffer| <= TX_MAX
    decreases |events|
  {
    if events == [] then []
    else
      var e := events[0];
      StepKeepsRoom(t, e, w);
      (if e.Packet? then e.data[..Kept(t, e.data, e.last, w)] else []) + KeptOfAll(Step(t, e, w), events[1..], w)
  }

  /** Whatever becomes of the attempts, as long as no new connection interferes: the writes and
      the buffer are what was kept of the packets, one after the other. */
  lemma {:induction false} LosesExactly(t: Transmitter, events: seq<Event>, w: Weather)
    requires NoReset(w) && |t.buffer| <= TX_MAX && forall e :: e in events ==> e.Packet?
    ensures Output(Steps(t, events, w)) == Output(t) + KeptOfAll(t, events, w)
    decreases |events|
  {
    hide SendPacket, Output, Kept, NoReset;
    if events == [] {
      assert Output(t) + [] == Output(t);
    } else {
      var e := events[0];
      assert e in events;
      StepKeepsRoom(t, e, w);
      PacketLosesExactly(t, e.data, e.last, w);
      LosesExactly(Step(t, e, w), events[1..], w);
      Associates(Output(t), e.data[..Kept(t, e.data, e.last, w)], KeptOfAll(Step(t, e, w), events[1..], w));
    }
  }

  // ---------------------------------------------------------------- nothing is repeated

  predicate Subsequence(a: string, b: string) {
    if a == [] then true
    else if b == [] then false
    else (a[0] == b[0] && Subsequence(a[1..], b[1..])) || Subsequence(a, b[1..])
  }

  lemma {:induction false} SubsequenceLonger(a: string, b: string, c: string)
    requires Subsequence(a, b)
    ensures Subsequence(a, b + c) && Subsequence(a, c + b)
    decreases |b| + |c|
  {
    if a != [] {
      assert (b + c)[1..] == b[1..] + c && (b + c)[0] == b[0];
      if a[0] == b[0] && Subsequence(a[1..], b[1..]) {
        SubsequenceLonger(a[1..], b[1..], c);
      } else {
        SubsequenceLonger(a, b[1..], c);
      }
      if c == [] {
        assert c + b == b;
      } else {
        assert (c + b)[1..] == c[1..] + b;
        SubsequenceLonger(a, b, c[1..]);
      }
    }
  }

  lemma {:induction false} SubsequenceJoin(a: string, b: string, x: string, y: string)
    requires Subsequence(a, b) && Subsequence(x, y)
    ensures Subsequence(a + x, b + y)
    decreases |b|
  {
    if a == [] {
      assert a + x == x;
      SubsequenceLonger(x, y, b);
    } else {
      assert (b + y)[1..] == b[1..] + y && (a + x)[1..] == a[1..] + x;
      if a[0] == b[0] && Subsequence(a[1..], b[1..]) {
        SubsequenceJoin(a[1..], b[1..], x, y);
      } else {
        SubsequenceJoin(a, b[1..], x, y);
      }
    }
  }

  lemma {:induction false} SubsequenceSame(a: string)
    ensures Subsequence(a, a)
    decreases |a|
  {
    if a != [] {
      SubsequenceSame(a[1..]);
    }
  }

  /** Dropping the end of a subsequence leaves a subsequence. */
  lemma {:induction false} SubsequenceFront(a: string, dropped: string, b: string)
    requires Subsequence(a + dropped, b)
    ensures Subsequence(a, b)
    decreases |b|
  {
    if a != [] {
      assert (a + dropped)[0] == a[0] && (a + dropped)[1..] == a[1..] + dropped;
      if a[0] == b[0] && Subsequence(a[1..] + dropped, b[1..]) {
        SubsequenceFront(a[1..], dropped, b[1..]);
      } else {
        SubsequenceFront(a, dropped, b[1..]);
      }
    }
  }

  lemma Appended(output: string, input: string, data: string)
    requires Subsequence(output, input)
    ensures Subsequence(output + data, input + data) && Subsequence(output, input + data)
  {
    SubsequenceSame(data);
    SubsequenceJoin(output, input, data, data);
    SubsequenceLonger(output, input, data);
  }

  /** A write has 1 to 330 bytes; it is empty exactly if a new connection reset the buffer
      while the transmit task waited for the congestion to end. */
  predicate GoodWrites(t: Transmitter) {
    forall x :: x in t.writes ==> |x.data| <= 330 && (x.data == [] <==> x.behindReset)
  }

  /** What holds at all times: the output is part of the input, in its order. */
  ghost predicate Orderly(t: Transmitter, input: string) {
    |t.buffer| <= TX_MAX && GoodWrites(t) && Subsequence(Output(t), input)
  }

  /** An attempt moves the buffer to the writes, drops it, or keeps it. */
  lemma SendIsOrderly(t: Transmitter, input: string, w: Weather)
    requires Orderly(t, input) && t.buffer != []
    ensures var (after, ok) := SendBuffer(t, w);
      Orderly(after, input) && (ok ==> after.buffer == [])
  {
    hide Subsequence, Written;
    var a := w(t.attempts);
    var data := if a.reset then [] else t.buffer;
    WrittenAnother(t.writes, Write(data, a.reset));
    SubsequenceFront(Written(t.writes), t.buffer, input);
    NothingBehind(Written(t.writes));
    NothingBehind(Written(t.writes) + data);
  }

  lemma NothingBehind(s: string)
    ensures s + [] == s
  {
  }

  /** Bytes that come to the end of the buffer, or into the empty buffer. */
  lemma FillIsOrderly(t: Transmitter, input: string, data: string)
    requires Orderly(t, input) && |t.buffer| + |data| <= TX_MAX
    ensures Orderly(t.(buffer := t.buffer + data), input + data)
  {
    hide Subsequence;
    Appended(Output(t), input, data);
    assert Output(t) + data == Written(t.writes) + (t.buffer + data);
  }

  lemma LaterInput(t: Transmitter, input: string, data: string)
    requires Orderly(t, input)
    ensures Orderly(t, input + data)
  {
    Appended(Output(t), input, data);
  }

  lemma {:induction false} BlocksAreOrderly(t: Transmitter, input: string, data: string, w: Weather)
    requires Orderly(t, input) && t.buffer == []
    ensures var (after, rest) := SendBlocks(t, data, w);
      && |rest| <= |data| && Orderly(after, input + data[..|data| - |rest|])
      && (rest != [] ==> after.buffer == [] && rest == data[|data| - |rest|..])
    decreases |data|
  {
    hide Orderly, SendBuffer;
    if |data| < TX_MAX {
      assert input + data[..0] == input;
    } else {
      var full := t.(buffer := data[..TX_MAX]);
      assert t.buffer + data[..TX_MAX] == data[..TX_MAX];
      FillIsOrderly(t, input, data[..TX_MAX]);
      SendIsOrderly(full, input + data[..TX_MAX], w);
      var (sent, ok) := SendBuffer(full, w);
      if ok {
        BlocksAreOrderly(sent, input + data[..TX_MAX], data[TX_MAX..], w);
        var rest := SendBlocks(sent, data[TX_MAX..], w).1;
        assert data[..TX_MAX] + data[TX_MAX..][..|data| - TX_MAX - |rest|] == data[..|data| - |rest|];
        Associates(input, data[..TX_MAX], data[TX_MAX..][..|data| - TX_MAX - |rest|]);
      } else {
        LaterInput(sent, input + data[..TX_MAX], data[TX_MAX..]);
        assert data[..TX_MAX] + data[TX_MAX..] == data[..|data|];
        Associates(input, data[..TX_MAX], data[TX_MAX..]);
      }
    }
  }

  lemma Associates(a: string, b: string, c: string)
    ensures a + b + c == a + (b + c)
  {
  }

  lemma PacketIsOrderly(t: Transmitter, input: string, packet: string, last: bool, w: Weather)
    requires Orderly(t, input) && packet != []
    ensures Orderly(SendPacket(t, packet, last, w), input + packet)
  {
    hide SendBuffer, GoodWrites, Output, Subsequence;
    var room := TX_MAX - |t.buffer|;
    if |packet| <= room {
      FillIsOrderly(t, input, packet);
      SendIsOrderly(t.(buffer := t.buffer + packet), input + packet, w);
    } else {
      LargePacketIsOrderly(t, input, packet, last, w);
    }
  }

  lemma LargePacketIsOrderly(t: Transmitter, input: string, packet: string, last: bool, w: Weather)
    requires Orderly(t, input) && |packet| > TX_MAX - |t.buffer|
    ensures Orderly(SendPacket(t, packet, last, w), input + packet)
  {
    hide SendBuffer, SendBlocks, GoodWrites, Output, Subsequence;
    var room := TX_MAX - |t.buffer|;
    var front, back := packet[..room], packet[room..];
    assert front + back == packet;
    Associates(input, front, back);
    FillIsOrderly(t, input, front);
    SendIsOrderly(t.(buffer := t.buffer + front), input + front, w);
    var (sent, ok) := SendBuffer(t.(buffer := t.buffer + front), w);
    if !ok {
      LaterInput(sent, input + front, back);
    } else {
      BlocksAreOrderly(sent, input + front, back, w);
      var (after, rest) := SendBlocks(sent, back, w);
      var done := back[..|back| - |rest|];
      if rest == [] {
        assert done == back;
      } else {
        assert done + rest == back;
        Associates(input + front, done, rest);
        assert after.buffer + rest == rest;
        FillIsOrderly(after, input + front + done, rest);
        SendIsOrderly(after.(buffer := rest), input + front + done + rest, w);
      }
    }
  }

  /** Over every sequence of packets and new connections, and whatever becomes of each
      attempt: the writes and the buffer are a subsequence of the packets, so nothing is
      repeated or exchanged, and every write has 1 to 330 bytes except behind a reset. */
  lemma {:induction false} NothingIsRepeated(t: Transmitter, input: string, events: seq<Event>, w: Weather)
    requires Orderly(t, input) && forall e :: e in events ==> e.Packet? ==> e.data != []
    ensures Orderly(Steps(t, events, w), input + Input(events))
    decreases |events|
  {
    hide SendPacket, GoodWrites, Output, Subsequence;
    if events == [] {
      assert input + [] == input;
    } else {
      var e := events[0];
      assert e in events;
      StepKeepsRoom(t, e, w);
      var data := if e.Packet? then e.data else [];
      if e.Packet? {
        PacketIsOrderly(t, input, e.data, e.last, w);
      } else {
        ResetIsOrderly(t, input);
        assert input + [] == input;
      }
      NothingIsRepeated(Step(t, e, w), input + data, events[1..], w);
      Associates(input, data, Input(events[1..]));
    }
  }

  lemma ResetIsOrderly(t: Transmitter, input: string)
    requires Orderly(t, input)
    ensures Orderly(t.(buffer := []), input)
  {
    SubsequenceFront(Written(t.writes), t.buffer, input);
    assert Written(t.writes) + [] == Written(t.writes);
  }

  lemma AlwaysOrderly(events: seq<Event>, w: Weather)
    requires forall e :: e in events ==> e.Packet? ==> e.data != []
    ensures Orderly(Steps(NEW_TRANSMITTER, events, w), Input(events))
  {
    NothingIsRepeated(NEW_TRANSMITTER, [], events, w);
    assert [] + Input(events) == Input(events);
  }

  /** An empty write does happen: a first packet that fits the buffer, and a new connection
      while the task waits for the end of a congestion.  The packet is lost. */
  lemma EmptyWriteHappens(packet: string, w: Weather)
    requires 0 < |packet| <= TX_MAX && w(0) == Attempt(true, Sent)
    ensures Steps(NEW_TRANSMITTER, [Packet(packet, true)], w) == Transmitter([], [Write([], true)], 1)
  {
    var end := Step(NEW_TRANSMITTER, Packet(packet, true), w);
    assert [Packet(packet, true)][1..] == [];
    assert end == Transmitter([], [Write([], true)], 1);
  }
}
