/** Whatever is printed as frames is delivered as the same payloads, however it is cut into
    segments between the heads (AsyncWebSocket.cpp:43-109, 610-699; RFC 6455 sections 5.2
    to 5.4). */
module WebSocketRoundTrip {
  import opened Sequences
  import opened WebSocketFrame
  import opened WebSocketSend
  import opened WebSocketReceive

  // ---------------------------------------------------------------- what was delivered

  datatype Payload = Payload(final: bool, opcode: nat, bytes: seq<Byte>)

  /** A handler that puts the pieces of each frame together.  It relies on every piece to
      start where the one before ended, and on all pieces of a frame to tell the same about
      it. */
  datatype Handler = Handler(done: seq<Payload>, current: Payload, ok: bool)

  function Handle(h: Handler, d: Delivery): Handler {
    if !d.Data? || d.index != |h.current.bytes|
       || (h.current.bytes != [] && (d.final != h.current.final || d.opcode != h.current.opcode))
    then h.(ok := false)
    else
      var p := Payload(d.final, d.opcode, h.current.bytes + d.bytes);
      if |p.bytes| == d.len then h.(done := h.done + [p], current := Payload(false, 0, []))
      else h.(current := p)
  }

  function HandleAll(deliveries: seq<Delivery>): Handler {
    if deliveries == [] then Handler([], Payload(false, 0, []), true)
    else Handle(HandleAll(deliveries[..|deliveries| - 1]), deliveries[|deliveries| - 1])
  }

  function PayloadOf(f: Frame): Payload {
    Payload(f.final, f.opcode, f.payload)
  }

  function PayloadsOf(frames: seq<Frame>): seq<Payload> {
    if frames == [] then [] else [PayloadOf(frames[0])] + PayloadsOf(frames[1..])
  }

  // ---------------------------------------------------------------- the state of the receiver

  /** The frames that the theorem is about: data frames of the protocol, whose size fits the
      size_t of the receiver. */
  predicate DataFrames(frames: seq<Frame>) {
    forall f :: f in frames ==> ValidFrame(f) && f.opcode < 8 && |f.payload| < 0x1_0000_0000
  }

  predicate InfoOf(info: FrameInfo, f: Frame) {
    && info.final == f.final && info.opcode == f.opcode && info.masked == f.masked && info.len == |f.payload|
    && (f.masked ==> info.key == f.key) && info.index <= info.len
  }

  /** The receiver is at the start of the first of these frames, or in its payload; payloads
      is what the handler already has in full. */
  ghost predicate At(r: Receiver, frames: seq<Frame>, payloads: seq<Payload>) {
    var h := HandleAll(r.deliveries);
    && DataFrames(frames) && h.ok && h.done == payloads
    && (r.inFrame ==>
          && frames != [] && InfoOf(r.info, frames[0]) && r.info.index < r.info.len
          && h.current.bytes == frames[0].payload[..r.info.index]
          && (r.info.index > 0 ==> h.current == PayloadOf(frames[0]).(bytes := h.current.bytes)))
    && (!r.inFrame ==> h.current.bytes == [])
  }

  /** The bytes that the receiver still has to get. */
  function Expected(r: Receiver, frames: seq<Frame>): seq<Byte>
    requires DataFrames(frames)
    requires r.inFrame ==> frames != [] && r.info.index <= |frames[0].payload|
  {
    if r.inFrame then PrintPayload(frames[0])[r.info.index..] + PrintFrames(frames[1..]) else PrintFrames(frames)
  }

  // ---------------------------------------------------------------- payload

  /** A piece of a printed payload, unmasked, is that piece of the payload. */
  lemma UnmaskedPiece(f: Frame, info: FrameInfo, n: nat)
    requires InfoOf(info, f) && info.index + n <= |f.payload|
    ensures Unmasked(info, PrintPayload(f)[info.index..info.index + n]) == f.payload[info.index..info.index + n]
  {
    if f.masked {
      MaskTwice(f.payload[info.index..info.index + n], f.key, info.index);
    }
  }

  lemma HandleAnother(deliveries: seq<Delivery>, d: Delivery)
    ensures HandleAll(deliveries + [d]) == Handle(HandleAll(deliveries), d)
  {
  }

  /** Behind a head, or in the middle of a payload: like At, for the frame f. */
  ghost predicate InPayload(r: Receiver, f: Frame, payloads: seq<Payload>) {
    var h := HandleAll(r.deliveries);
    && ValidFrame(f) && f.opcode < 8 && InfoOf(r.info, f) && h.ok && h.done == payloads
    && h.current.bytes == f.payload[..r.info.index]
    && (r.info.index > 0 ==> h.current == PayloadOf(f).(bytes := h.current.bytes))
  }

  /** One call of the handler: it is given the next bytes of the payload. */
  lemma PieceDelivered(r: Receiver, f: Frame, payloads: seq<Payload>, data: seq<Byte>)
    requires InPayload(r, f, payloads)
    requires Unmasked(r.info, data[..Mine(r.info, data)]) == f.payload[r.info.index..r.info.index + Mine(r.info, data)]
    ensures var after, n := TakePayload(r, data), Mine(r.info, data);
      var h := HandleAll(after.deliveries);
      && h.ok && after.inFrame == (r.info.index + n < |f.payload|)
      && (if after.inFrame then
            && h.done == payloads && h.current == PayloadOf(f).(bytes := f.payload[..r.info.index + n])
            && after.info == r.info.(index := r.info.index + n)
          else h.done == payloads + [PayloadOf(f)] && h.current.bytes == [])
  {
    hide HandleAll, Unmasked, ValidFrame;
    var n := Mine(r.info, data);
    var piece := f.payload[r.info.index..r.info.index + n];
    HandleAnother(r.deliveries, Data(f.final, f.opcode, |f.payload|, r.info.index, piece));
    assert f.payload[..r.info.index] + piece == f.payload[..r.info.index + n];
    assert r.info.index + n == |f.payload| ==> f.payload[..r.info.index + n] == f.payload;
  }

  /** Bytes of the payload of the first frame. */
  lemma PayloadTaken(r: Receiver, frames: seq<Frame>, payloads: seq<Payload>, data: seq<Byte>, more: seq<Byte>)
    returns (done: seq<Frame>, rest: seq<Frame>)
    requires frames != [] && DataFrames(frames) && InPayload(r, frames[0], payloads)
    requires data + more == PrintPayload(frames[0])[r.info.index..] + PrintFrames(frames[1..])
    ensures var after, n := TakePayload(r, data), Mine(r.info, data);
      && frames == done + rest && At(after, rest, payloads + PayloadsOf(done))
      && data[n..] + more == Expected(after, rest) && ReceiverOk(after)
      && |PrintHead(frames[0])| + r.info.index + n == |PrintFrames(done)| + Into(after, rest)
      && (after.inFrame ==> data[n..] == [])
  {
    hide HandleAll, Unmasked, PrintPayload, PrintHead, PrintFrame, PrintFrames, TakePayload, PayloadsOf, ValidFrame;
    var f, n := frames[0], Mine(r.info, data);
    FirstFrame(frames);
    PayloadPiece(r, f, data, more, PrintFrames(frames[1..]));
    PieceDelivered(r, f, payloads, data);
    if r.info.index + n < |f.payload| {
      done, rest := [], frames;
      NoFrame(payloads);
    } else {
      done, rest := [f], frames[1..];
      OneFrame(f);
      assert frames == [f] + frames[1..];
    }
  }

  /** The bytes at the front of a stream that belong to the payload, and what is behind. */
  lemma PayloadPiece(r: Receiver, f: Frame, data: seq<Byte>, more: seq<Byte>, behind: seq<Byte>)
    requires InfoOf(r.info, f) && data + more == PrintPayload(f)[r.info.index..] + behind
    ensures var n := Mine(r.info, data);
      && Unmasked(r.info, data[..n]) == f.payload[r.info.index..r.info.index + n]
      && (if r.info.index + n < |f.payload|
          then data[n..] == [] && more == PrintPayload(f)[r.info.index + n..] + behind
          else data[n..] + more == behind)
  {
    hide Unmasked, PrintPayload;
    var n := Mine(r.info, data);
    var left := PrintPayload(f)[r.info.index..];
    Pieces(data, more, left, behind, n);
    assert left[..n] == PrintPayload(f)[r.info.index..r.info.index + n];
    assert left[n..] == PrintPayload(f)[r.info.index + n..];
    UnmaskedPiece(f, r.info, n);
  }

  lemma NoFrame(payloads: seq<Payload>)
    ensures payloads + PayloadsOf([]) == payloads && PrintFrames([]) == []
  {
  }

  lemma OneFrame(f: Frame)
    requires ValidFrame(f)
    ensures PayloadsOf([f]) == [PayloadOf(f)]
    ensures |PrintFrames([f])| == |PrintHead(f)| + |f.payload|
  {
  }

  lemma FirstFrame(frames: seq<Frame>)
    requires frames != [] && DataFrames(frames)
    ensures ValidFrame(frames[0]) && frames[0].opcode < 8 && |frames[0].payload| < 0x1_0000_0000
    ensures DataFrames(frames[1..]) && |PrintFrame(frames[0])| == |PrintHead(frames[0])| + |frames[0].payload|
    ensures PrintFrames(frames) == PrintHead(frames[0]) + (PrintPayload(frames[0]) + PrintFrames(frames[1..]))
    ensures |PrintHead(frames[0])| >= 2
  {
    hide PrintPayload, PrintHead, ValidFrame;
    assert frames[0] in frames && forall f :: f in frames[1..] ==> f in frames;
    HeadNotEmpty(frames[0]);
    Associates(PrintHead(frames[0]), PrintPayload(frames[0]), PrintFrames(frames[1..]));
  }

  lemma Associates(a: seq<Byte>, b: seq<Byte>, c: seq<Byte>)
    ensures a + b + c == a + (b + c)
  {
  }

  lemma HeadNotEmpty(f: Frame)
    requires ValidFrame(f)
    ensures |PrintHead(f)| >= 2
  {
  }

  /** A receiver that expects nothing more is behind the last frame. */
  lemma NothingExpected(r: Receiver, frames: seq<Frame>, payloads: seq<Payload>)
    requires At(r, frames, payloads) && Expected(r, frames) == []
    ensures frames == [] && !r.inFrame && payloads + PayloadsOf(frames) == payloads
  {
  }

  lemma Pieces(data: seq<Byte>, more: seq<Byte>, left: seq<Byte>, behind: seq<Byte>, n: nat)
    requires data + more == left + behind && n <= |left| && n <= |data| && (n == |left| || n == |data|)
    ensures data[..n] == left[..n]
    ensures data[n..] + more == left[n..] + behind
    ensures n == |left| ==> data[n..] + more == behind
  {
    assert (data + more)[..n] == data[..n] && (left + behind)[..n] == left[..n];
    assert (data + more)[n..] == data[n..] + more && (left + behind)[n..] == left[n..] + behind;
  }

  // ---------------------------------------------------------------- cuts

  /** How far the receiver is into the first frame. */
  function Into(r: Receiver, frames: seq<Frame>): nat
    requires DataFrames(frames) && (r.inFrame ==> frames != [])
  {
    if r.inFrame then |PrintHead(frames[0])| + r.info.index else 0
  }

  /** Whether a position in the stream of frames is between the first and the last byte of
      a head. */
  predicate InHead(frames: seq<Frame>, at: nat)
    requires DataFrames(frames)
  {
    frames != [] &&
    if at < |PrintFrame(frames[0])| then 0 < at < |PrintHead(frames[0])|
    else InHead(frames[1..], at - |PrintFrame(frames[0])|)
  }

  lemma {:induction false} InHeadSkips(done: seq<Frame>, rest: seq<Frame>, at: nat)
    requires DataFrames(done + rest)
    ensures DataFrames(done) && DataFrames(rest)
    ensures InHead(done + rest, |PrintFrames(done)| + at) == InHead(rest, at)
    decreases |done|
  {
    hide PrintHead, PrintPayload, ValidFrame;
    assert forall f :: f in done || f in rest ==> f in done + rest;
    if done == [] {
      assert done + rest == rest;
    } else {
      assert (done + rest)[1..] == done[1..] + rest;
      InHeadSkips(done[1..], rest, at);
    }
  }

  // ---------------------------------------------------------------- one segment

  /** The head that is due is the one of the first frame. */
  lemma HeadTaken(r: Receiver, frames: seq<Frame>, payloads: seq<Payload>, data: seq<Byte>, more: seq<Byte>)
    requires At(r, frames, payloads) && !r.inFrame && data != []
    requires data + more == PrintFrames(frames) && !InHead(frames, |data|)
    ensures frames != [] && HeadThere(data)
    ensures var (begun, rest) := TakeHead(r, data);
      && InPayload(begun, frames[0], payloads) && begun.info.index == 0
      && |data| == |PrintHead(frames[0])| + |rest|
      && rest + more == PrintPayload(frames[0]) + PrintFrames(frames[1..])
  {
    hide HandleAll, PrintPayload, PrintHead, ParseHead, PrintFrame, PrintFrames, HeadThere, HeadSize, ValidFrame;
    FramesLeft(frames);
    FirstFrame(frames);
    var f := frames[0];
    var behind := PrintPayload(f) + PrintFrames(frames[1..]);
    var n := |PrintHead(f)|;
    assert |data| >= n;
    SplitHead(data, more, PrintHead(f), behind);
    HeadRoundTrip(f, data[n..], r.info.key);
  }

  lemma FramesLeft(frames: seq<Frame>)
    requires DataFrames(frames)
    ensures PrintFrames(frames) != [] ==> frames != []
  {
  }

  lemma SplitHead(data: seq<Byte>, more: seq<Byte>, head: seq<Byte>, behind: seq<Byte>)
    requires data + more == head + behind && |head| <= |data|
    ensures data == head + data[|head|..] && data[|head|..] + more == behind
  {
    var n := |head|;
    assert (data + more)[..n] == data[..n] && (head + behind)[..n] == head;
    assert (data + more)[n..] == data[n..] + more && (head + behind)[n..] == behind;
  }

  lemma AtInPayload(r: Receiver, frames: seq<Frame>, payloads: seq<Payload>)
    requires At(r, frames, payloads) && r.inFrame
    ensures InPayload(r, frames[0], payloads)
  {
    hide HandleAll;
    assert frames[0] in frames;
  }

  /** A segment that does not end within a head is taken, and the receiver is where the
      segment ends. */
  lemma {:induction false} SegmentTaken(r: Receiver, frames: seq<Frame>, payloads: seq<Payload>, data: seq<Byte>,
                                        more: seq<Byte>)
    returns (done: seq<Frame>, rest: seq<Frame>)
    requires ReceiverOk(r) && At(r, frames, payloads)
    requires data + more == Expected(r, frames) && !InHead(frames, Into(r, frames) + |data|)
    ensures WholeHeads(r, data)
    ensures var after := OnData(r, data);
      && frames == done + rest && At(after, rest, payloads + PayloadsOf(done))
      && more == Expected(after, rest)
      && Into(r, frames) + |data| == |PrintFrames(done)| + Into(after, rest)
    decreases |data|
  {
    hide HandleAll, PrintPayload, PrintHead, PrintFrame, PrintFrames, TakePayload, PayloadsOf, ValidFrame,
      HeadThere, ParseHead, HeadSize, InHead, InPayload, InfoOf;
    if r.inFrame {
      AtInPayload(r, frames, payloads);
    }
    if data == [] {
      done, rest := [], frames;
      NoFrame(payloads);
      assert data + more == more;
    } else {
      if !r.inFrame {
        HeadTaken(r, frames, payloads, data, more);
      }
      FirstFrame(frames);
      var (begun, body) := TakeHead(r, data);
      var first, others := PayloadTaken(begun, frames, payloads, body, more);
      var next, n := TakePayload(begun, body), Mine(begun.info, body);
      assert Into(r, frames) + |data| == |PrintHead(frames[0])| + begun.info.index + |body|;
      InHeadSkips(first, others, Into(next, others) + |body[n..]|);
      var second;
      second, rest := SegmentTaken(next, others, payloads + PayloadsOf(first), body[n..], more);
      done := first + second;
      Joined(first, second, payloads);
      assert first + (second + rest) == done + rest;
    }
  }

  lemma Joined(first: seq<Frame>, second: seq<Frame>, payloads: seq<Payload>)
    requires DataFrames(first) && DataFrames(second)
    ensures payloads + PayloadsOf(first) + PayloadsOf(second) == payloads + PayloadsOf(first + second)
    ensures PrintFrames(first + second) == PrintFrames(first) + PrintFrames(second)
  {
    hide PayloadsOf, PrintFrames, ValidFrame;
    PayloadsJoin(first, second);
    FramesJoin(first, second);
  }

  lemma {:induction false} PayloadsJoin(first: seq<Frame>, second: seq<Frame>)
    ensures PayloadsOf(first + second) == PayloadsOf(first) + PayloadsOf(second)
    decreases |first|
  {
    if first == [] {
      assert first + second == second;
    } else {
      assert (first + second)[1..] == first[1..] + second;
      PayloadsJoin(first[1..], second);
    }
  }

  lemma {:induction false} FramesJoin(first: seq<Frame>, second: seq<Frame>)
    requires DataFrames(first) && DataFrames(second)
    ensures PrintFrames(first + second) == PrintFrames(first) + PrintFrames(second)
    decreases |first|
  {
    if first == [] {
      assert first + second == second;
    } else {
      assert (first + second)[1..] == first[1..] + second;
      FramesJoin(first[1..], second);
    }
  }

  // ---------------------------------------------------------------- whole streams

  /** No segment ends within a head. */
  predicate CutsOutsideHeads(frames: seq<Frame>, into: nat, segments: seq<seq<Byte>>)
    requires DataFrames(frames)
  {
    forall i :: 0 <= i <= |segments| ==> !InHead(frames, into + |Flatten(segments[..i])|)
  }

  predicate Readable(r: Receiver, segments: seq<seq<Byte>>)
    requires ReceiverOk(r)
    decreases |segments|
  {
    segments == [] || (WholeHeads(r, segments[0]) && Readable(OnData(r, segments[0]), segments[1..]))
  }

  function OnSegments(r: Receiver, segments: seq<seq<Byte>>): Receiver
    requires ReceiverOk(r) && Readable(r, segments)
    decreases |segments|
  {
    if segments == [] then r else OnSegments(OnData(r, segments[0]), segments[1..])
  }

  lemma LaterCuts(frames: seq<Frame>, into: nat, segments: seq<seq<Byte>>, done: seq<Frame>, rest: seq<Frame>,
                  after: nat)
    requires DataFrames(frames) && segments != [] && CutsOutsideHeads(frames, into, segments)
    requires frames == done + rest && DataFrames(done) && DataFrames(rest)
    requires into + |segments[0]| == |PrintFrames(done)| + after
    ensures CutsOutsideHeads(rest, after, segments[1..])
  {
    hide InHead, PrintFrames, ValidFrame;
    forall i | 0 <= i <= |segments[1..]|
      ensures !InHead(rest, after + |Flatten(segments[1..][..i])|)
    {
      assert segments[..i + 1][1..] == segments[1..][..i];
      assert |Flatten(segments[..i + 1])| == |segments[0]| + |Flatten(segments[1..][..i])|;
      InHeadSkips(done, rest, after + |Flatten(segments[1..][..i])|);
    }
  }

  lemma {:induction false} SegmentsTaken(r: Receiver, frames: seq<Frame>, payloads: seq<Payload>,
                                         segments: seq<seq<Byte>>)
    requires ReceiverOk(r) && At(r, frames, payloads)
    requires Flatten(segments) == Expected(r, frames) && CutsOutsideHeads(frames, Into(r, frames), segments)
    ensures Readable(r, segments)
    ensures At(OnSegments(r, segments), [], payloads + PayloadsOf(frames))
    decreases |segments|
  {
    hide HandleAll, PrintPayload, PrintHead, PrintFrame, PayloadsOf, ValidFrame, InHead, WholeHeads, OnData;
    if segments == [] {
      NothingExpected(r, frames, payloads);
    } else {
      assert segments[..1] == [segments[0]] && Flatten([segments[0]]) == segments[0] by {
        var none: seq<seq<Byte>> := [];
        assert [segments[0]][1..] == none;
      }
      var done, rest := SegmentTaken(r, frames, payloads, segments[0], Flatten(segments[1..]));
      var after := OnData(r, segments[0]);
      LaterCuts(frames, Into(r, frames), segments, done, rest, Into(after, rest));
      SegmentsTaken(after, rest, payloads + PayloadsOf(done), segments[1..]);
      Joined(done, rest, payloads);
    }
  }

  /** Every sequence of data frames, masked or not and with any form of length, is delivered
      frame by frame as it was sent: the pieces of each payload arrive in order, and the
      phase of the mask goes on from segment to segment. */
  lemma FramesRoundTrip(frames: seq<Frame>, segments: seq<seq<Byte>>)
    requires DataFrames(frames)
    requires Flatten(segments) == PrintFrames(frames) && CutsOutsideHeads(frames, 0, segments)
    ensures Readable(NEW_RECEIVER, segments)
    ensures var end := OnSegments(NEW_RECEIVER, segments);
      && !end.inFrame
      && HandleAll(end.deliveries) == Handler(PayloadsOf(frames), HandleAll(end.deliveries).current, true)
      && HandleAll(end.deliveries).current.bytes == []
  {
    SegmentsTaken(NEW_RECEIVER, frames, [], segments);
    var none: seq<Payload> := [];
    assert none + PayloadsOf(frames) == PayloadsOf(frames);
  }

  function Text(payloads: seq<Payload>): seq<Byte> {
    if payloads == [] then [] else payloads[0].bytes + Text(payloads[1..])
  }

  lemma {:induction false} TextOfFrames(frames: seq<Frame>)
    ensures Text(PayloadsOf(frames)) == Payloads(frames)
    decreases |frames|
  {
    if frames != [] {
      TextOfFrames(frames[1..]);
      assert PayloadsOf(frames)[1..] == PayloadsOf(frames[1..]);
    }
  }

  /** What a message sends are data frames. */
  lemma SentAreDataFrames(text: seq<Byte>, opcode: nat, mask: bool, events: seq<Event>)
    requires text != []
    requires PossibleRun(Sender(NewMessage(text, opcode, mask), [], []), events)
    ensures DataFrames(FramesOf(Run(Sender(NewMessage(text, opcode, mask), [], []), events).frames))
  {
    hide Run, PossibleRun;
    MessageSentInOrder(text, opcode, mask, events);
  }

  /** The network cuts no head of what such a run sends. */
  ghost predicate SentHeadsUncut(text: seq<Byte>, opcode: nat, mask: bool, events: seq<Event>, segments: seq<seq<Byte>>)
    requires text != [] && PossibleRun(Sender(NewMessage(text, opcode, mask), [], []), events)
  {
    SentAreDataFrames(text, opcode, mask, events);
    CutsOutsideHeads(FramesOf(Run(Sender(NewMessage(text, opcode, mask), [], []), events).frames), 0, segments)
  }

  /** From end to end: a message that counts as sent, whatever the windows it was cut for
      and however the network cut it again, is handed over as its own text; only its first
      frame has the opcode, and only its last is final. */
  lemma MessageRoundTrip(text: seq<Byte>, opcode: nat, mask: bool, events: seq<Event>, segments: seq<seq<Byte>>)
    requires text != []
    requires PossibleRun(Sender(NewMessage(text, opcode, mask), [], []), events)
    requires Run(Sender(NewMessage(text, opcode, mask), [], []), events).message.status == Sent
    requires Flatten(segments) == Run(Sender(NewMessage(text, opcode, mask), [], []), events).wire
    requires SentHeadsUncut(text, opcode, mask, events, segments)
    ensures Readable(NEW_RECEIVER, segments)
    ensures var h := HandleAll(OnSegments(NEW_RECEIVER, segments).deliveries);
      && h.ok && Text(h.done) == text && h.done != []
      && forall i :: 0 <= i < |h.done| ==>
           && h.done[i].opcode == (if i == 0 then opcode % 8 else 0)
           && (h.done[i].final <==> i == |h.done| - 1)
  {
    SentAreDataFrames(text, opcode, mask, events);
    SentMeansDelivered(text, opcode, mask, events);
    MessageSentInOrder(text, opcode, mask, events);
    var frames := FramesOf(Run(Sender(NewMessage(text, opcode, mask), [], []), events).frames);
    FramesRoundTrip(frames, segments);
    TextOfFrames(frames);
    PayloadsAt(frames);
  }

  lemma {:induction false} PayloadsAt(frames: seq<Frame>)
    ensures |PayloadsOf(frames)| == |frames|
    ensures forall i :: 0 <= i < |frames| ==> PayloadsOf(frames)[i] == PayloadOf(frames[i])
    decreases |frames|
  {
    if frames != [] {
      PayloadsAt(frames[1..]);
    }
  }

  // ---------------------------------------------------------------- control frames

  predicate IsControl(f: Frame) {
    ValidFrame(f) && 8 <= f.opcode && |f.payload| < 0x1_0000_0000
  }

  /** What the last bytes of a control frame make the client do: a close (8) and a ping (9) are
      answered, and a pong (10) is passed on unless it answers the client's own ping. */
  function Answer(opcode: nat, bytes: seq<Byte>): seq<Delivery> {
    if opcode == 8 || opcode == 9 || (opcode == 10 && bytes != TextOf("ESPAsyncWebServer-PING"))
    then [Control(opcode, bytes)] else []
  }

  function TextOf(text: string): (bytes: seq<Byte>)
    ensures |bytes| == |text|
  {
    seq(|text|, i requires 0 <= i < |text| => text[i] as int % 256)
  }

  lemma OwnPing()
    ensures TextOf("ESPAsyncWebServer-PING") == KEEP_ALIVE
  {
    var text := "ESPAsyncWebServer-PING";
    assert |text| == 22 && |KEEP_ALIVE| == 22;
    forall i | 0 <= i < 22
      ensures TextOf(text)[i] == KEEP_ALIVE[i]
    {
    }
  }

  lemma AnswerIs(info: FrameInfo, bytes: seq<Byte>)
    requires 8 <= info.opcode
    ensures Completed(info, bytes) == Answer(info.opcode, bytes)
  {
    OwnPing();
    hide TextOf;
  }

  function InfoAt(f: Frame, oldKey: Key, index: nat): FrameInfo {
    FrameInfo(f.final, f.opcode, f.masked, |f.payload|, if f.masked then f.key else oldKey, index)
  }

  /** A head and what follows it. */
  lemma HeadRead(r: Receiver, f: Frame, rest: seq<Byte>)
    requires !r.inFrame && ValidFrame(f)
    ensures var data, begun := PrintHead(f) + rest, r.(info := InfoAt(f, r.info.key, 0));
      && (WholeHeads(r, data) <==> WholeHeads(TakePayload(begun, rest), rest[Mine(begun.info, rest)..]))
      && (WholeHeads(r, data) ==>
            OnData(r, data) == OnData(TakePayload(begun, rest), rest[Mine(begun.info, rest)..]))
  {
    hide TakePayload, ParseHead, PrintHead;
    HeadRoundTrip(f, rest, r.info.key);
    HeadNotEmpty(f);
    var data := PrintHead(f) + rest;
    assert data[|PrintHead(f)|..] == rest;
    assert TakeHead(r, data) == (r.(info := InfoAt(f, r.info.key, 0)), rest);
  }

  /** A control frame that comes whole is answered with its payload. */
  lemma ControlAnswered(r: Receiver, f: Frame, rest: seq<Byte>)
    requires !r.inFrame && IsControl(f)
    ensures var data, after := PrintFrame(f) + rest,
                               Receiver(false, InfoAt(f, r.info.key, 0), r.deliveries + Answer(f.opcode, f.payload));
      && (WholeHeads(r, data) <==> WholeHeads(after, rest))
      && (WholeHeads(r, data) ==> OnData(r, data) == OnData(after, rest))
  {
    hide Answer, Completed, Unmasked, WholeHeads, OnData, PrintHead;
    var behind := PrintPayload(f) + rest;
    assert PrintFrame(f) + rest == PrintHead(f) + behind;
    HeadRead(r, f, behind);
    var info := InfoAt(f, r.info.key, 0);
    assert behind[..|f.payload|] == PrintPayload(f)[0..0 + |f.payload|] && behind[|f.payload|..] == rest;
    UnmaskedPiece(f, info, |f.payload|);
    assert f.payload[0..0 + |f.payload|] == f.payload;
    AnswerIs(info, f.payload);
  }

  /** A control frame whose payload is cut by a segment is answered with what comes behind the
      cut, and what is in front of it goes to the handler as if it were data: the answer has
      the whole payload if and only if nothing is in front of the cut. */
  lemma CutControlAnswered(r: Receiver, f: Frame, k: nat)
    requires !r.inFrame && IsControl(f) && k < |f.payload|
    ensures var first, second := PrintHead(f) + PrintPayload(f)[..k], PrintPayload(f)[k..];
      && first + second == PrintFrame(f)
      && WholeHeads(r, first) && WholeHeads(OnData(r, first), second)
      && OnData(OnData(r, first), second).deliveries
         == r.deliveries + [Data(f.final, f.opcode, |f.payload|, 0, f.payload[..k])] + Answer(f.opcode, f.payload[k..])
  {
    hide Answer, WholeHeads, OnData, PrintHead, PrintPayload;
    var front, second := PrintPayload(f)[..k], PrintPayload(f)[k..];
    FrontOfControl(r, f, k);
    RestOfControl(OnData(r, PrintHead(f) + front), f, k);
    assert PrintHead(f) + front + second == PrintHead(f) + PrintPayload(f) by {
      assert front + second == PrintPayload(f);
    }
  }

  lemma FrontOfControl(r: Receiver, f: Frame, k: nat)
    requires !r.inFrame && IsControl(f) && k < |f.payload|
    ensures var first := PrintHead(f) + PrintPayload(f)[..k];
      && WholeHeads(r, first)
      && OnData(r, first) == Receiver(true, InfoAt(f, r.info.key, k),
                                      r.deliveries + [Data(f.final, f.opcode, |f.payload|, 0, f.payload[..k])])
  {
    hide Unmasked, PrintHead, PrintPayload;
    var front := PrintPayload(f)[..k];
    HeadRead(r, f, front);
    var info := InfoAt(f, r.info.key, 0);
    assert front[..k] == PrintPayload(f)[0..0 + k] && front[k..] == [];
    UnmaskedPiece(f, info, k);
    assert f.payload[0..0 + k] == f.payload[..k];
  }

  lemma RestOfControl(r: Receiver, f: Frame, k: nat)
    requires r.inFrame && IsControl(f) && k < |f.payload| && r.info == InfoAt(f, r.info.key, k)
    ensures var second := PrintPayload(f)[k..];
      && WholeHeads(r, second)
      && OnData(r, second).deliveries == r.deliveries + Answer(f.opcode, f.payload[k..])
  {
    hide Answer, Completed, Unmasked, PrintHead, PrintPayload;
    var second, n := PrintPayload(f)[k..], |f.payload| - k;
    assert second[..n] == PrintPayload(f)[k..k + n] && second[n..] == [];
    UnmaskedPiece(f, r.info, n);
    assert f.payload[k..k + n] == f.payload[k..];
    AnswerIs(r.info, f.payload[k..]);
  }
}
