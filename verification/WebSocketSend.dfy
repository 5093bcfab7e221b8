/** Sending a message over a WebSocket in frames that fit the send window of the connection
    (AsyncWebSocket.cpp:34-109, 281-356, 377-456, 526-536; RFC 6455 section 5.4). */
module WebSocketSend {
  import opened WebSocketFrame

  datatype Status = Sending | Sent | Error

  /** AsyncWebSocketBasicMessage; a MultiMessage has the same fields. */
  datatype Message = Message(
    data: seq<Byte>, opcode: nat, mask: bool, sent: nat, ack: nat, acked: nat, status: Status)

  /** What the connection can take: webSocketSendFrameWindow keeps 8 bytes for the head. */
  function Window(canSend: bool, space: nat): nat {
    if !canSend || space < 9 then 0 else space - 8
  }

  function HeadLength(len: nat, mask: bool): (n: nat)
    ensures 2 <= n <= 8
  {
    2 + (if len > 0 && mask then 4 else 0) + if len > 125 then 2 else 0
  }

  /** The head that webSocketSendFrame writes; a length of more than 16 bits is cut. */
  function SentHead(final: bool, opcode: nat, mask: bool, key: Key, len: nat): (head: seq<Byte>)
    ensures |head| == HeadLength(len, mask)
  {
    var maskBit := if len > 0 && mask then 128 else 0;
    [(if final then 128 else 0) + opcode % 16]
    + (if len < 126 then [maskBit + len] else [maskBit + 126, len / 256 % 256, len % 256])
    + if len > 0 && mask then key else []
  }

  function SentPayload(data: seq<Byte>, mask: bool, key: Key): (p: seq<Byte>)
    ensures |p| == |data|
  {
    if mask then Mask(data, key, 0) else data
  }

  function SentBytes(final: bool, opcode: nat, mask: bool, key: Key, payload: seq<Byte>): (bytes: seq<Byte>)
    ensures |bytes| == HeadLength(|payload|, mask) + |payload|
  {
    SentHead(final, opcode, mask, key, |payload|) + SentPayload(payload, mask, key)
  }

  function SentFrame(final: bool, opcode: nat, mask: bool, key: Key, payload: seq<Byte>): Frame {
    Frame(final, opcode % 16, if |payload| < 126 then Bits7 else Bits16, payload != [] && mask, key, payload)
  }

  /** Up to 65535 bytes the frame is the one of the protocol. */
  lemma SentIsPrinted(final: bool, opcode: nat, mask: bool, key: Key, payload: seq<Byte>)
    requires |payload| < 0x1_0000
    ensures ValidFrame(SentFrame(final, opcode, mask, key, payload))
    ensures PrintFrame(SentFrame(final, opcode, mask, key, payload))
      == SentBytes(final, opcode, mask, key, payload)
  {
    TwoBytes(|payload|);
    assert payload == [] ==> SentPayload(payload, mask, key) == [];
    SentHeadIsPrinted(SentFrame(final, opcode, mask, key, payload), opcode, mask);
  }

  lemma TwoBytes(n: nat)
    ensures BigEndian(n, 2) == [n / 256 % 256, n % 256]
  {
  }

  lemma SentHeadIsPrinted(f: Frame, opcode: nat, mask: bool)
    requires f.opcode == opcode % 16 && |f.payload| < 0x1_0000
    requires f.form == (if |f.payload| < 126 then Bits7 else Bits16) && f.masked == (f.payload != [] && mask)
    ensures PrintHead(f) == SentHead(f.final, opcode, mask, f.key, |f.payload|)
  {
    TwoBytes(|f.payload|);
    if |f.payload| >= 126 {
      var maskBit: Byte := if f.masked then 128 else 0;
      assert [maskBit + 126] + BigEndian(|f.payload|, 2) == [maskBit + 126, |f.payload| / 256 % 256, |f.payload| % 256];
    }
  }

  /** Behind 65535 bytes the receiver is told another length than was sent. */
  lemma AnnouncedLength(final: bool, opcode: nat, mask: bool, key: Key, len: nat, oldKey: Key)
    ensures HeadThere(SentHead(final, opcode, mask, key, len))
    ensures ParseHead(SentHead(final, opcode, mask, key, len), oldKey).len == len <==> len < 0x1_0000
  {
    var head := SentHead(final, opcode, mask, key, len);
    if len >= 126 {
      assert head[2..4] == [len / 256 % 256, len % 256];
      assert FromBigEndian(head[2..4]) == 256 * (len / 256 % 256) + len % 256 by {
        assert FromBigEndian([len / 256 % 256]) == len / 256 % 256;
        assert head[2..4][..1] == [len / 256 % 256];
      }
    }
  }

  /** webSocketSendFrame: part of data goes out behind its head, masked where it stands.
      With too little space the frame is cut, and the bytes of its head are not the ones
      that the shorter length needs. */
  method SendFrame(canSend: bool, space: nat, final: bool, opcode: nat, mask: bool, key: Key,
                   data: array<Byte>, from: nat, length: nat)
    returns (sent: nat, wire: seq<Byte>)
    requires from + length <= data.Length
    modifies data
    ensures !canSend || space < HeadLength(length, mask) ==> sent == 0 && wire == [] && data[..] == old(data[..])
    ensures canSend && HeadLength(length, mask) <= space ==>
      && sent == (if length > space - HeadLength(length, mask) then space - HeadLength(length, mask) else length)
      && |wire| == HeadLength(length, mask) + sent
      && data[..] == old(data[..from]) + SentPayload(old(data[from..from + sent]), mask, key) + old(data[from + sent..])
      && wire[HeadLength(length, mask)..] == SentPayload(old(data[from..from + sent]), mask, key)
      && (sent == length ==> wire == SentBytes(final, opcode, mask, key, old(data[from..from + length])))
  {
    hide Mask, SentHead;
    sent, wire := 0, [];
    if !canSend || space < 2 {
      return;
    }
    var headLen := 2;
    if length > 0 && mask {
      headLen := headLen + 4;
    }
    if length > 125 {
      headLen := headLen + 2;
    }
    if space < headLen {
      return;
    }
    var len := if length > space - headLen then space - headLen else length;
    var buf := PrintedHead(headLen, final, opcode, mask, key, len);
    ThreeParts(data[..], from, from + len);
    if mask {
      MaskInPlace(data, from, len, key, 0);
    }
    wire := buf + data[from..from + len];
    sent := len;
  }

  lemma ThreeParts(s: seq<Byte>, i: nat, j: nat)
    requires i <= j <= |s|
    ensures s == s[..i] + s[i..j] + s[j..]
  {
  }

  /** The block that is allocated for the head holds anything until it is written. */
  method PrintedHead(headLen: nat, final: bool, opcode: nat, mask: bool, key: Key, len: nat) returns (head: seq<Byte>)
    requires HeadLength(len, mask) <= headLen
    ensures |head| == headLen
    ensures headLen == HeadLength(len, mask) ==> head == SentHead(final, opcode, mask, key, len)
  {
    var buf := new Byte[headLen];
    buf[0] := opcode % 16;
    if final {
      buf[0] := buf[0] + 128;
    }
    if len < 126 {
      buf[1] := len;
    } else {
      buf[1] := 126;
      buf[2], buf[3] := len / 256 % 256, len % 256;
    }
    if len > 0 && mask {
      buf[1] := buf[1] + 128;
      forall i | 0 <= i < 4 {
        buf[headLen - 4 + i] := key[i];
      }
    }
    head := buf[..];
    if headLen == HeadLength(len, mask) {
      assert head == SentHead(final, opcode, mask, key, len);
    }
  }

  // ---------------------------------------------------------------- a message

  /** The room that is used of a window. */
  function ToSend(m: Message, canSend: bool, space: nat): (n: nat)
    requires m.sent <= |m.data|
    ensures n <= |m.data| - m.sent && n <= Window(canSend, space)
  {
    var left := |m.data| - m.sent;
    if Window(canSend, space) < left then Window(canSend, space) else left
  }

  predicate ReadyToSend(m: Message) {
    m.status == Sending && m.ack <= m.acked && m.sent < |m.data|
  }

  /** The bytes of the message behind the next frame of n bytes; the frame's own bytes stay
      masked. */
  function DataAfter(m: Message, n: nat, key: Key): seq<Byte>
    requires m.sent + n <= |m.data|
  {
    m.data[..m.sent] + SentPayload(m.data[m.sent..m.sent + n], m.mask, key) + m.data[m.sent + n..]
  }

  function OpcodeOfNext(m: Message, n: nat): nat {
    if n > 0 && m.sent == 0 then m.opcode else 0
  }

  /** A message behind its next frame, and the bytes of that frame. */
  function SentMessage(m: Message, n: nat, key: Key): Message
    requires m.sent + n <= |m.data|
  {
    m.(data := DataAfter(m, n, key), sent := m.sent + n,
       ack := m.ack + n + (if n < 126 then 2 else 4) + if m.mask then 4 else 0)
  }

  function NextBytes(m: Message, n: nat, key: Key): seq<Byte>
    requires m.sent + n <= |m.data|
  {
    SentBytes(m.sent + n == |m.data|, OpcodeOfNext(m, n), m.mask, key, m.data[m.sent..m.sent + n])
  }

  /** send(): the new message, and what it gives to the connection. */
  function SendMessage(m: Message, canSend: bool, space: nat, key: Key): (Message, seq<Byte>)
    requires m.sent <= |m.data|
  {
    if ReadyToSend(m) then
      var n := ToSend(m, canSend, space);
      (SentMessage(m, n, key), if !canSend || space < 2 then [] else NextBytes(m, n, key))
    else if m.status == Sending && m.acked == m.ack && m.sent == |m.data| then (m.(status := Sent), [])
    else (m, [])
  }

  function AckMessage(m: Message, len: nat): Message {
    var m := m.(acked := m.acked + len);
    if m.sent == |m.data| && m.acked == m.ack then m.(status := Sent) else m
  }

  /** A frame within the window is not cut, so its length needs no correction afterwards. */
  method SendUncut(canSend: bool, space: nat, final: bool, opcode: nat, mask: bool, key: Key,
                   data: array<Byte>, from: nat, length: nat)
    returns (sent: nat, wire: seq<Byte>)
    requires from + length <= data.Length && length <= Window(canSend, space)
    modifies data
    ensures sent == length
    ensures wire == if !canSend || space < 2 then []
                    else SentBytes(final, opcode, mask, key, old(data[from..from + length]))
    ensures data[..] == old(data[..from]) + SentPayload(old(data[from..from + length]), mask, key)
                        + old(data[from + length..])
  {
    hide SentBytes, SentPayload, HeadLength;
    EmptyHead(mask);
    NothingSent(data[..], from, mask, key);
    sent, wire := SendFrame(canSend, space, final, opcode, mask, key, data, from, length);
  }

  lemma EmptyHead(mask: bool)
    ensures HeadLength(0, mask) == 2
  {
  }

  lemma NothingSent(data: seq<Byte>, from: nat, mask: bool, key: Key)
    requires from <= |data|
    ensures data[..from] + SentPayload(data[from..from], mask, key) + data[from..] == data
  {
    assert SentPayload(data[from..from], mask, key) == [];
  }

  class AsyncWebSocketBasicMessage {
    const opcode: nat
    const mask: bool
    const data: array<Byte>
    var sent: nat
    var ack: nat
    var acked: nat
    var status: Status

    function Current(): Message
      reads this, data
    {
      Message(data[..], opcode, mask, sent, ack, acked, status)
    }

    constructor (text: seq<Byte>, opcode: nat, mask: bool)
      ensures Current() == NewMessage(text, opcode, mask) && fresh(data)
    {
      this.opcode, this.mask := opcode % 8, mask;
      sent, ack, acked, status := 0, 0, 0, Sending;
      data := new Byte[|text|](i requires 0 <= i < |text| => text[i]);
      new;
      assert data[..] == text;
    }

    method Ack(len: nat)
      modifies this`acked, this`status
      ensures Current() == AckMessage(old(Current()), len)
    {
      acked := acked + len;
      if sent == data.Length && acked == ack {
        status := Sent;
      }
    }

    method Send(canSend: bool, space: nat, key: Key) returns (n: nat, wire: seq<Byte>)
      requires sent <= data.Length
      modifies this`sent, this`ack, this`status, data
      ensures (Current(), wire) == SendMessage(old(Current()), canSend, space, key)
      ensures n == sent - old(sent)
    {
      n, wire := 0, [];
      if status != Sending || acked < ack {
        return;
      }
      if sent == data.Length {
        if acked == ack {
          status := Sent;
        }
        return;
      }
      var toSend := data.Length - sent;
      var window := Window(canSend, space);
      if window < toSend {
        toSend := window;
      }
      n, wire := SendPart(canSend, space, key, toSend);
    }

    method SendPart(canSend: bool, space: nat, key: Key, toSend: nat) returns (n: nat, wire: seq<Byte>)
      requires ReadyToSend(Current()) && toSend == ToSend(Current(), canSend, space)
      modifies this`sent, this`ack, data
      ensures Current() == SentMessage(old(Current()), toSend, key)
      ensures wire == if !canSend || space < 2 then [] else NextBytes(old(Current()), toSend, key)
      ensures n == toSend
    {
      hide SentBytes, SentPayload;
      sent := sent + toSend;
      ack := ack + toSend + (if toSend < 126 then 2 else 4) + if mask then 4 else 0;
      var final := sent == data.Length;
      var op := if toSend > 0 && sent == toSend then opcode else 0;
      n, wire := SendUncut(canSend, space, final, op, mask, key, data, sent - toSend, toSend);
    }
  }

  function NewMessage(text: seq<Byte>, opcode: nat, mask: bool): Message {
    Message(text, opcode % 8, mask, 0, 0, 0, Sending)
  }

  // ---------------------------------------------------------------- a MultiMessage

  function AckMulti(m: Message, len: nat): Message {
    var m := m.(acked := m.acked + len);
    if m.sent >= |m.data| && m.acked >= m.ack then m.(status := Sent) else m
  }

  function SendMulti(m: Message, canSend: bool, space: nat, key: Key): (Message, seq<Byte>)
    requires m.sent <= |m.data|
  {
    if m.status == Sending && m.ack <= m.acked && m.sent == |m.data| then (m.(status := Sent), [])
    else SendMessage(m, canSend, space, key)
  }

  /** The tests that a MultiMessage makes differently come out the same while no more is
      acknowledged than was sent; an ack beyond that finishes the one and not the other. */
  lemma MultiAgrees(m: Message, len: nat, canSend: bool, space: nat, key: Key)
    requires m.sent <= |m.data| && m.status == Sending
    ensures AckMulti(m, len) == AckMessage(m, len) <==> m.sent < |m.data| || m.acked + len <= m.ack
    ensures m.acked <= m.ack ==> SendMulti(m, canSend, space, key) == SendMessage(m, canSend, space, key)
  {
  }

  // ---------------------------------------------------------------- runs

  /** The client runs its queue, or the network acknowledges bytes. */
  datatype Event = RunQueue(canSend: bool, space: nat, key: Key) | Acknowledged(len: nat)

  /** A frame on the wire, and how many bytes had been acknowledged when it was sent. */
  datatype Emitted = Emitted(frame: Frame, ackedBefore: nat)

  datatype Sender = Sender(message: Message, wire: seq<Byte>, frames: seq<Emitted>)

  /** One event of a client whose first message in the queue this is; a finished message
      has left the queue. */
  function Step(s: Sender, e: Event): Sender
    requires s.message.sent <= |s.message.data|
  {
    var m := s.message;
    if m.status != Sending then s
    else
      match e
      case Acknowledged(len) => s.(message := AckMessage(m, len))
      case RunQueue(canSend, space, key) =>
        if m.acked != m.ack || Window(canSend, space) == 0 then s
        else
          var (next, bytes) := SendMessage(m, canSend, space, key);
          var n := next.sent - m.sent;
          Sender(next, s.wire + bytes,
                 if n == 0 then s.frames
                 else s.frames + [Emitted(NextFrame(m, n, key), m.acked)])
  }

  /** TCP acknowledges only what was sent, and the window of the stack has at most 65535
      bytes behind the eight for a head. */
  predicate Possible(s: Sender, e: Event) {
    match e
    case Acknowledged(len) => s.message.acked + len <= |s.wire|
    case RunQueue(canSend, space, key) => space <= 0xFFFF + 8
  }

  function FramesOf(emitted: seq<Emitted>): (frames: seq<Frame>)
    ensures |frames| == |emitted| && forall i :: 0 <= i < |emitted| ==> frames[i] == emitted[i].frame
  {
    seq(|emitted|, i requires 0 <= i < |emitted| => emitted[i].frame)
  }

  function Payloads(frames: seq<Frame>): seq<Byte> {
    if frames == [] then [] else frames[0].payload + Payloads(frames[1..])
  }

  predicate Valid(frames: seq<Frame>) {
    forall f :: f in frames ==> ValidFrame(f)
  }

  /** The frames of a message of which so much has been sent. */
  ghost predicate InOrder(frames: seq<Frame>, text: seq<Byte>, sent: nat, opcode: nat)
    requires sent <= |text|
  {
    && Payloads(frames) == text[..sent]
    && (forall i :: 0 <= i < |frames| ==>
          && 0 < |frames[i].payload| < 0x1_0000
          && frames[i].opcode == (if i == 0 then opcode else 0)
          && (frames[i].final <==> i == |frames| - 1 && sent == |text|))
  }

  /** Everything in front of a frame was acknowledged before it was sent. */
  ghost predicate OneByOne(emitted: seq<Emitted>) {
    var frames := FramesOf(emitted);
    Valid(frames) && forall i :: 0 <= i < |emitted| ==> emitted[i].ackedBefore == |PrintFrames(frames[..i])|
  }

  predicate MessageOk(m: Message, text: seq<Byte>, opcode: nat) {
    && m.sent <= |m.data| == |text| && m.data[m.sent..] == text[m.sent..] && m.opcode == opcode
    && m.acked <= m.ack && m.status != Error && (m.status == Sent <==> m.sent == |text| && m.acked == m.ack)
  }

  /** What holds of a message and of everything that was sent for it. */
  ghost predicate Conserves(s: Sender, text: seq<Byte>, opcode: nat) {
    && MessageOk(s.message, text, opcode)
    && OneByOne(s.frames) && InOrder(FramesOf(s.frames), text, s.message.sent, opcode)
    && s.wire == PrintFrames(FramesOf(s.frames)) && s.message.ack == |s.wire|
    && (s.message.sent == 0 <==> s.frames == [])
  }

  lemma {:induction false} PayloadsOfAnother(frames: seq<Frame>, f: Frame)
    ensures Payloads(frames + [f]) == Payloads(frames) + f.payload
    decreases |frames|
  {
    if frames == [] {
      assert [f][1..] == [];
    } else {
      PayloadsOfAnother(frames[1..], f);
      assert (frames + [f])[1..] == frames[1..] + [f];
    }
  }

  /** The frame that a message sends, in the words of the protocol. */
  function NextFrame(m: Message, n: nat, key: Key): Frame
    requires m.sent + n <= |m.data|
  {
    SentFrame(m.sent + n == |m.data|, OpcodeOfNext(m, n), m.mask, key, m.data[m.sent..m.sent + n])
  }

  lemma SentNext(m: Message, canSend: bool, space: nat, key: Key)
    requires m.sent <= |m.data| && ReadyToSend(m) && 0 < Window(canSend, space) <= 0xFFFF
    ensures var (next, bytes) := SendMessage(m, canSend, space, key);
      var n := ToSend(m, canSend, space);
      && n > 0 && ValidFrame(NextFrame(m, n, key)) && bytes == PrintFrame(NextFrame(m, n, key))
      && next == m.(data := DataAfter(m, n, key), sent := m.sent + n, ack := m.ack + |bytes|)
  {
    hide PrintFrame, SentBytes, SentHead, DataAfter;
    var n := ToSend(m, canSend, space);
    SentIsPrinted(m.sent + n == |m.data|, OpcodeOfNext(m, n), m.mask, key, m.data[m.sent..m.sent + n]);
  }

  lemma DataBehind(m: Message, text: seq<Byte>, n: nat, key: Key)
    requires m.sent + n <= |m.data| == |text| && m.data[m.sent..] == text[m.sent..]
    ensures text[..m.sent] + m.data[m.sent..m.sent + n] == text[..m.sent + n]
    ensures |DataAfter(m, n, key)| == |text| && DataAfter(m, n, key)[m.sent + n..] == text[m.sent + n..]
  {
  }

  lemma OrderOfAnother(frames: seq<Frame>, f: Frame, text: seq<Byte>, sent: nat, opcode: nat)
    requires sent + |f.payload| <= |text| && InOrder(frames, text, sent, opcode) && sent < |text|
    requires 0 < |f.payload| < 0x1_0000 && text[..sent] + f.payload == text[..sent + |f.payload|]
    requires f.opcode == (if frames == [] then opcode else 0) && (f.final <==> sent + |f.payload| == |text|)
    ensures InOrder(frames + [f], text, sent + |f.payload|, opcode)
  {
    PayloadsOfAnother(frames, f);
  }

  lemma AnotherOneByOne(emitted: seq<Emitted>, e: Emitted)
    requires OneByOne(emitted) && ValidFrame(e.frame) && e.ackedBefore == |PrintFrames(FramesOf(emitted))|
    ensures OneByOne(emitted + [e]) && FramesOf(emitted + [e]) == FramesOf(emitted) + [e.frame]
    ensures PrintFrames(FramesOf(emitted + [e])) == PrintFrames(FramesOf(emitted)) + PrintFrame(e.frame)
  {
    var frames := FramesOf(emitted);
    PrintAnother(frames, e.frame);
    assert FramesOf(emitted + [e]) == frames + [e.frame];
    forall i | 0 <= i < |emitted| + 1
      ensures (emitted + [e])[i].ackedBefore == |PrintFrames((frames + [e.frame])[..i])|
    {
      if i < |emitted| {
        assert (frames + [e.frame])[..i] == frames[..i];
      } else {
        assert (frames + [e.frame])[..i] == frames;
      }
    }
  }

  lemma StepConserves(s: Sender, e: Event, text: seq<Byte>, opcode: nat)
    requires opcode < 8 && text != [] && Conserves(s, text, opcode) && Possible(s, e)
    ensures Conserves(Step(s, e), text, opcode)
  {
    var m := s.message;
    if m.status == Sending && e.RunQueue? && m.acked == m.ack && Window(e.canSend, e.space) != 0 {
      assert Sends(s, e);
      SendConserves(s, e, text, opcode);
    }
  }

  predicate Sends(s: Sender, e: Event) {
    && s.message.sent < |s.message.data| && s.message.status == Sending && s.message.acked == s.message.ack
    && e.RunQueue? && Window(e.canSend, e.space) != 0
  }

  lemma StepSends(s: Sender, e: Event)
    requires Sends(s, e) && Possible(s, e)
    ensures var m, n := s.message, ToSend(s.message, e.canSend, e.space);
      var f := NextFrame(m, n, e.key);
      && 0 < n < 0x1_0000 && ValidFrame(f) && |PrintFrame(f)| > 0 && f.payload == m.data[m.sent..m.sent + n]
      && f.opcode == OpcodeOfNext(m, n) % 16 && (f.final <==> m.sent + n == |m.data|)
      && Step(s, e) == Sender(m.(data := DataAfter(m, n, e.key), sent := m.sent + n, ack := m.ack + |PrintFrame(f)|),
                              s.wire + PrintFrame(f), s.frames + [Emitted(f, m.acked)])
  {
    hide PrintFrame, SentBytes, SentHead, DataAfter;
    SentNext(s.message, e.canSend, e.space, e.key);
  }

  lemma SendConserves(s: Sender, e: Event, text: seq<Byte>, opcode: nat)
    requires opcode < 8 && Conserves(s, text, opcode) && Possible(s, e) && Sends(s, e)
    ensures Conserves(Step(s, e), text, opcode)
  {
    hide PrintFrame, PrintFrames, SentFrame, SendMessage, DataAfter, InOrder, Step, NextFrame;
    var m, n := s.message, ToSend(s.message, e.canSend, e.space);
    StepSends(s, e);
    DataBehind(m, text, n, e.key);
    var f := NextFrame(m, n, e.key);
    AnotherOneByOne(s.frames, Emitted(f, m.acked));
    OrderOfAnother(FramesOf(s.frames), f, text, m.sent, opcode);
  }

  function Run(s: Sender, events: seq<Event>): Sender
    requires s.message.sent <= |s.message.data|
    decreases |events|
  {
    if events == [] then s else Run(Step(s, events[0]), events[1..])
  }

  predicate PossibleRun(s: Sender, events: seq<Event>)
    requires s.message.sent <= |s.message.data|
    decreases |events|
  {
    events == [] || (Possible(s, events[0]) && PossibleRun(Step(s, events[0]), events[1..]))
  }

  lemma {:induction false} RunConserves(s: Sender, events: seq<Event>, text: seq<Byte>, opcode: nat)
    requires opcode < 8 && text != [] && Conserves(s, text, opcode) && PossibleRun(s, events)
    ensures Conserves(Run(s, events), text, opcode)
    decreases |events|
  {
    if events != [] {
      StepConserves(s, events[0], text, opcode);
      RunConserves(Step(s, events[0]), events[1..], text, opcode);
    }
  }

  /** Over every sequence of windows and acknowledgements a non-empty message is sent once
      and in order: the payloads so far are the message so far, only the first frame has
      the opcode, only the last is final, every byte sent is counted, and a frame is not
      started before everything in front of it is acknowledged. */
  lemma MessageSentInOrder(text: seq<Byte>, opcode: nat, mask: bool, events: seq<Event>)
    requires text != []
    requires PossibleRun(Sender(NewMessage(text, opcode, mask), [], []), events)
    ensures Conserves(Run(Sender(NewMessage(text, opcode, mask), [], []), events), text, opcode % 8)
  {
    RunConserves(Sender(NewMessage(text, opcode, mask), [], []), events, text, opcode % 8);
  }

  /** Sent means that everything was sent, as complete frames, and acknowledged. */
  lemma SentMeansDelivered(text: seq<Byte>, opcode: nat, mask: bool, events: seq<Event>)
    requires text != []
    requires PossibleRun(Sender(NewMessage(text, opcode, mask), [], []), events)
    requires Run(Sender(NewMessage(text, opcode, mask), [], []), events).message.status == Sent
    ensures var end := Run(Sender(NewMessage(text, opcode, mask), [], []), events);
      var frames := FramesOf(end.frames);
      && Payloads(frames) == text && end.message.acked == |end.wire|
      && frames != [] && frames[0].opcode == opcode % 8 && frames[|frames| - 1].final
  {
    MessageSentInOrder(text, opcode, mask, events);
    var end := Run(Sender(NewMessage(text, opcode, mask), [], []), events);
    assert text[..end.message.sent] == text;
  }

  /** A message sends nothing while bytes of its last frame are not acknowledged, and counts as
      sent exactly if all of it is sent and acknowledged. */
  lemma SendsOneByOne(m: Message, canSend: bool, space: nat, key: Key)
    requires m.sent <= |m.data| && m.status == Sending
    ensures m.acked < m.ack ==> SendMessage(m, canSend, space, key) == (m, [])
    ensures SendMessage(m, canSend, space, key).0.status == Sent <==> m.sent == |m.data| && m.acked == m.ack
  {
  }

  /** Why the queue looks at the window before it sends: without one, send() counts bytes that
      no acknowledgement will ever cover.  It puts nothing on the wire, or an empty
      continuation frame, which for a masked message counts as 4 bytes more than it has. */
  lemma SendNeedsAWindow(m: Message, canSend: bool, space: nat, key: Key)
    requires ReadyToSend(m) && Window(canSend, space) == 0
    ensures var (next, bytes) := SendMessage(m, canSend, space, key);
      && next.sent == m.sent
      && (if !canSend || space < 2 then bytes == [] && next.ack > m.ack
          else bytes == PrintFrame(Frame(false, 0, Bits7, false, key, []))
               && next.ack == m.ack + |bytes| + if m.mask then 4 else 0)
  {
  }

  /** With a window and nothing outstanding, the message goes on by as much as fits. */
  lemma WindowIsUsed(s: Sender, text: seq<Byte>, opcode: nat, e: Event)
    requires Conserves(s, text, opcode) && e.RunQueue? && Window(e.canSend, e.space) > 0
    requires s.message.status == Sending && s.message.acked == |s.wire|
    ensures var after := Step(s, e).message;
      && after.sent > s.message.sent
      && (after.sent == |text| || after.sent == s.message.sent + e.space - 8)
  {
  }
}
