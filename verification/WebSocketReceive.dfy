/** Receiving frames over a WebSocket (AsyncWebSocket.cpp:610-699): what the handler is given
    of a stream that arrives in segments. */
module WebSocketReceive {
  import opened WebSocketFrame
  import opened WebSocketSend

  /** A call of the handler with WS_EVT_DATA, or a control frame that was answered. */
  datatype Delivery =
    | Data(final: bool, opcode: nat, len: nat, index: nat, bytes: seq<Byte>)
    | Control(opcode: nat, bytes: seq<Byte>)

  datatype Receiver = Receiver(inFrame: bool, info: FrameInfo, deliveries: seq<Delivery>)

  predicate ReceiverOk(r: Receiver) {
    r.inFrame ==> r.info.index < r.info.len
  }

  /** "ESPAsyncWebServer-PING", the payload of the client's own pings. */
  const KEEP_ALIVE: seq<Byte> :=
    [69, 83, 80, 65, 115, 121, 110, 99, 87, 101, 98, 83, 101, 114, 118, 101, 114, 45, 80, 73, 78, 71]

  function Unmasked(info: FrameInfo, bytes: seq<Byte>): (u: seq<Byte>)
    ensures |u| == |bytes|
  {
    if info.masked then Mask(bytes, info.key, info.index) else bytes
  }

  /** What the last bytes of a frame make the client do. */
  function Completed(info: FrameInfo, bytes: seq<Byte>): seq<Delivery> {
    if info.opcode == 8 || info.opcode == 9 || (info.opcode == 10 && bytes != KEEP_ALIVE) then
      [Control(info.opcode, bytes)]
    else if info.opcode < 8 then [Data(info.final, info.opcode, info.len, info.index, bytes)]
    else []
  }

  /** The number of bytes that belong to the frame. */
  function Mine(info: FrameInfo, data: seq<Byte>): (n: nat)
    requires info.index <= info.len
    ensures n <= |data| && n <= info.len - info.index
  {
    if info.len - info.index < |data| then info.len - info.index else |data|
  }

  /** Bytes of the payload of a frame. */
  function TakePayload(r: Receiver, data: seq<Byte>): Receiver
    requires r.info.index <= r.info.len
  {
    var info, n := r.info, Mine(r.info, data);
    var bytes := Unmasked(info, data[..n]);
    if n + info.index < info.len then
      Receiver(true, info.(index := info.index + n),
               r.deliveries + [Data(info.final, info.opcode, info.len, info.index, bytes)])
    else
      Receiver(false, info, r.deliveries + Completed(info, bytes))
  }

  /** The head of a frame, if one is due. */
  function TakeHead(r: Receiver, data: seq<Byte>): (Receiver, seq<Byte>)
    requires r.inFrame || HeadThere(data)
  {
    if r.inFrame then (r, data)
    else (r.(info := ParseHead(data, r.info.key)), data[HeadSize(data[1])..])
  }

  /** The code supports no head that is split between two segments. */
  predicate WholeHeads(r: Receiver, data: seq<Byte>)
    requires ReceiverOk(r)
    decreases |data|
  {
    if data == [] then true
    else if !r.inFrame && !HeadThere(data) then false
    else
      var (begun, rest) := TakeHead(r, data);
      WholeHeads(TakePayload(begun, rest), rest[Mine(begun.info, rest)..])
  }

  /** _onData */
  function OnData(r: Receiver, data: seq<Byte>): (after: Receiver)
    requires ReceiverOk(r) && WholeHeads(r, data)
    ensures ReceiverOk(after)
    decreases |data|
  {
    if data == [] then r
    else
      var (begun, rest) := TakeHead(r, data);
      OnData(TakePayload(begun, rest), rest[Mine(begun.info, rest)..])
  }

  const NEW_RECEIVER := Receiver(false, FrameInfo(false, 0, false, 0, [0, 0, 0, 0], 0), [])

  class AsyncWebSocketClient {
    /** _pstate and _pinfo */
    var inFrame: bool
    var info: FrameInfo
    var deliveries: seq<Delivery>

    function Current(): Receiver
      reads this
    {
      Receiver(inFrame, info, deliveries)
    }

    constructor ()
      ensures Current() == NEW_RECEIVER
    {
      inFrame, info, deliveries := false, NEW_RECEIVER.info, [];
    }

    /** The segment is unmasked where it stands. */
    method Received(data: array<Byte>)
      requires ReceiverOk(Current()) && WholeHeads(Current(), data[..])
      modifies this, data
      ensures Current() == OnData(old(Current()), old(data[..]))
    {
      hide TakeHead, TakePayload;
      var at := 0;
      while at < data.Length
        invariant 0 <= at <= data.Length
        invariant ReceiverOk(Current()) && WholeHeads(Current(), data[at..])
        invariant OnData(Current(), data[at..]) == OnData(old(Current()), old(data[..]))
      {
        HeadStep(Current(), data[at..]);
        at := ReadHead(data, at);
        at := ReadPayload(data, at);
      }
      assert data[at..] == [];
    }

    lemma HeadStep(r: Receiver, data: seq<Byte>)
      requires data != [] && ReceiverOk(r) && WholeHeads(r, data)
      ensures r.inFrame || HeadThere(data)
      ensures var (begun, rest) := TakeHead(r, data);
        var n := Mine(begun.info, rest);
        && ReceiverOk(TakePayload(begun, rest)) && WholeHeads(TakePayload(begun, rest), rest[n..])
        && OnData(r, data) == OnData(TakePayload(begun, rest), rest[n..])
        && |rest| <= |data| && |rest[n..]| < |data|
    {
    }

    method ReadPayload(data: array<Byte>, at: nat) returns (next: nat)
      requires at <= data.Length && info.index <= info.len
      modifies this, data
      ensures Current() == TakePayload(old(Current()), old(data[at..]))
      ensures next == at + Mine(old(info), old(data[at..])) && data[next..] == old(data[at..])[next - at..]
    {
      hide Mask;
      var n := if info.len - info.index < data.Length - at then info.len - info.index else data.Length - at;
      assert data[at..][..n] == data[at..at + n] && data[at..][n..] == data[at + n..];
      if info.masked {
        MaskInPlace(data, at, n, info.key, info.index);
      }
      next := at + n;
      if n + info.index < info.len {
        inFrame := true;
        deliveries := deliveries + [Data(info.final, info.opcode, info.len, info.index, data[at..next])];
        info := info.(index := info.index + n);
      } else {
        inFrame := false;
        Complete(data[at..next]);
      }
    }

    method ReadHead(data: array<Byte>, at: nat) returns (payload: nat)
      requires at <= data.Length && (inFrame || HeadThere(data[at..]))
      modifies this`info
      ensures at <= payload <= data.Length
      ensures (Current(), data[payload..]) == TakeHead(old(Current()), data[at..])
    {
      if inFrame {
        return at;
      }
      hide ParseHead, FromBigEndian;
      var fdata := data[at..];
      SameHead(fdata, info.key);
      var n := 2;
      info := info.(final := fdata[0] >= 128, opcode := fdata[0] % 16, masked := fdata[1] >= 128,
                    len := fdata[1] % 128, index := 0);
      if info.len == 126 {
        info := info.(len := FromBigEndian(fdata[2..4]));
        n := n + 2;
      } else if info.len == 127 {
        info := info.(len := FromBigEndian(fdata[2..10]));
        n := n + 8;
      }
      if info.masked {
        info := info.(key := fdata[n..n + 4]);
        n := n + 4;
      }
      payload := at + n;
      assert data[payload..] == fdata[n..];
    }

    lemma SameHead(data: seq<Byte>, oldKey: Key)
      requires HeadThere(data)
      ensures var info, second := ParseHead(data, oldKey), data[1] % 128;
        && info.final == (data[0] >= 128) && info.opcode == data[0] % 16 && info.masked == (data[1] >= 128)
        && info.len == (if second == 126 then FromBigEndian(data[2..4])
                        else if second == 127 then FromBigEndian(data[2..10]) else second)
        && info.key == (if !info.masked then oldKey
                        else if second == 126 then data[4..8] else if second == 127 then data[10..14] else data[2..6])
    {
    }

    method Complete(bytes: seq<Byte>)
      modifies this`deliveries
      ensures deliveries == old(deliveries) + Completed(info, bytes)
    {
      if info.opcode == 8 || info.opcode == 9 {
        deliveries := deliveries + [Control(info.opcode, bytes)];
      } else if info.opcode == 10 {
        if |bytes| != |KEEP_ALIVE| || bytes != KEEP_ALIVE {
          deliveries := deliveries + [Control(info.opcode, bytes)];
        }
      } else if info.opcode < 8 {
        deliveries := deliveries + [Data(info.final, info.opcode, info.len, info.index, bytes)];
      }
    }
  }
}
