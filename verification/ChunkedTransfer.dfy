/** A body on its way: from the windows of AsyncAbstractResponse to the stream that
    HTTPClient writes (WebResponses.cpp:249-365, HTTPClient.cpp:855-923, 1305-1407; RFC 7230
    section 4.1). */
module ChunkedTransfer {
  import opened Sequences
  import opened ArduinoString
  import opened ResponseSender
  import Http = HttpClient

  // ---------------------------------------------------------------- runs of the sender

  /** An acknowledgement or a poll: the bytes acknowledged, the window, and the source. */
  datatype Event = Event(acked: nat, space: nat, offer: Offer)

  /** A response, every byte the connection has taken, and the pieces of the body read. */
  datatype Run = Run(response: Response, wire: string, pieces: seq<string>)

  function Step(s: Run, e: Event): Run
    requires e.space <= MAX_SPACE
  {
    var (next, output) := Acknowledge(s.response, e.acked, e.space, e.offer);
    Run(next, s.wire + Taken(output, e.space),
        if next.sent == s.response.sent then s.pieces
        else s.pieces + [s.response.unread[..|s.response.unread| - |next.unread|]])
  }

  /** What this event hands to the connection fits the window. */
  predicate Fits(s: Run, e: Event)
    requires e.space <= MAX_SPACE
  {
    |Acknowledge(s.response, e.acked, e.space, e.offer).1| <= e.space
  }

  /** Pieces of a body that fit a chunk. */
  predicate Small(pieces: seq<string>) {
    forall p :: p in pieces ==> 0 < |p| <= 0xFFFF
  }

  function ChunksOf(pieces: seq<string>): string
    requires Small(pieces)
  {
    if pieces == [] then [] else ChunkOf(pieces[0]) + ChunksOf(pieces[1..])
  }

  /** The body as it is written. */
  function Framed(mode: Mode, pieces: seq<string>): string
    requires mode.Chunked? ==> Small(pieces)
  {
    if mode.Chunked? then ChunksOf(pieces) else Flatten(pieces)
  }

  function EndMark(mode: Mode): string {
    if mode.Chunked? then ChunkOf([]) else []
  }

  /** What holds of a response and of everything that was written for it. */
  ghost predicate Conserves(s: Run, head: string, body: string) {
    var r := s.response;
    && (r.mode.Chunked? ==> Small(s.pieces))
    && Flatten(s.pieces) + r.unread == body && r.sent == |Flatten(s.pieces)|
    && r.written == |s.wire|
    && (r.state == Headers ==> s.pieces == [])
    && (r.state in {Headers, Content} ==>
          && s.wire + r.head == head + Framed(r.mode, s.pieces) && (r.head != [] ==> s.pieces == []))
    && (r.state == Failed ==>
          || s.wire + r.head == head + Framed(r.mode, s.pieces)
          || s.wire == head + Framed(r.mode, s.pieces) + EndMark(r.mode))
    && (r.state in {WaitAck, End} ==> s.wire == head + Framed(r.mode, s.pieces) + EndMark(r.mode) && r.head == [])
    && (r.mode.Chunked? && r.state in {WaitAck, End} ==> r.unread == [])
    && (r.mode.FixedLength? && r.state in {WaitAck, End} ==> r.sent == r.mode.length)
    && (r.mode.FixedLength? && r.state == End ==> r.written <= r.acked)
  }

  lemma {:induction false} FlattenAnother(pieces: seq<string>, p: string)
    ensures Flatten(pieces + [p]) == Flatten(pieces) + p
    decreases |pieces|
  {
    if pieces != [] {
      FlattenAnother(pieces[1..], p);
      assert (pieces + [p])[1..] == pieces[1..] + [p];
    } else {
      assert [p][1..] == pieces;
    }
  }

  lemma {:induction false} ChunksAnother(pieces: seq<string>, p: string)
    requires Small(pieces) && 0 < |p| <= 0xFFFF
    ensures Small(pieces + [p]) && ChunksOf(pieces + [p]) == ChunksOf(pieces) + ChunkOf(p)
    decreases |pieces|
  {
    hide ChunkOf;
    if pieces != [] {
      ChunksAnother(pieces[1..], p);
      assert (pieces + [p])[1..] == pieces[1..] + [p];
    } else {
      assert [p][1..] == pieces;
    }
  }

  /** The run after so many bytes of the body were read and written. */
  function AfterRead(s: Run, space: nat, n: nat): Run
    requires n <= |s.response.unread| && (s.response.mode.Chunked? ==> n <= 0xFFFF)
  {
    var (next, output) := SendRead(s.response, space, n);
    Run(next, s.wire + output, if n == 0 then s.pieces else s.pieces + [s.response.unread[..n]])
  }

  lemma EndMoves(s: Run, head: string, body: string, space: nat)
    requires s.response.state == Content && (s.response.mode.Chunked? ==> s.response.unread == [])
    requires Conserves(s, head, body) && |SendRead(s.response, space, 0).1| <= space
    ensures Conserves(AfterRead(s, space, 0), head, body)
  {
    hide ChunkOf, Flatten, Small;
    assert s.response.unread[..0] == [] && s.response.unread[0..] == s.response.unread;
    NothingMoves(s, head);
  }

  lemma PieceMoves(s: Run, head: string, body: string, space: nat, n: nat)
    requires 0 < n <= |s.response.unread| && (s.response.mode.Chunked? ==> n <= 0xFFFF)
    requires s.response.state == Content
    requires Conserves(s, head, body) && |SendRead(s.response, space, n).1| <= space
    ensures Conserves(AfterRead(s, space, n), head, body)
  {
    SomethingMoves(s, head, body, n);
    FlattenAnother(s.pieces, s.response.unread[..n]);
    hide Framed, Flatten, Small, Output;
  }

  /** The bytes of the body move from the source to the connection. */
  lemma BodyMoves(s: Run, head: string, body: string, space: nat, room: nat, offer: Offer)
    requires room <= space <= MAX_SPACE && s.response.state == Content
    requires !offer.Gone? && !Waits(s.response, room, offer)
    requires Conserves(s, head, body) && |SendBody(s.response, space, room, offer).1| <= space
    ensures var (next, output) := SendBody(s.response, space, room, offer);
      Conserves(Run(next, s.wire + output, if next.sent == s.response.sent then s.pieces
                                           else s.pieces + [s.response.unread[..|s.response.unread| - |next.unread|]]),
                head, body)
  {
    hide Output, ReadLength, Conserves, Done;
    var n := ReadLength(s.response.unread, offer, MaxRead(s.response, room));
    ReadSomething(s.response, room, offer);
    if n == 0 {
      EndMoves(s, head, body, space);
    } else {
      PieceMoves(s, head, body, space, n);
    }
  }

  /** A chunk is only empty at the end of the body. */
  lemma ReadSomething(r: Response, room: nat, offer: Offer)
    requires !offer.Gone? && !Waits(r, room, offer)
    ensures r.mode.Chunked? && ReadLength(r.unread, offer, MaxRead(r, room)) == 0 ==> r.unread == []
  {
  }

  lemma NothingMoves(s: Run, head: string)
    requires s.response.mode.Chunked? ==> Small(s.pieces)
    requires s.wire + s.response.head == head + Framed(s.response.mode, s.pieces)
    ensures s.wire + Output(s.response.mode, s.response.head, [])
      == head + Framed(s.response.mode, s.pieces) + EndMark(s.response.mode)
  {
  }

  lemma SomethingMoves(s: Run, head: string, body: string, n: nat)
    requires 0 < n <= |s.response.unread| && (s.response.mode.Chunked? ==> n <= 0xFFFF && Small(s.pieces))
    requires Flatten(s.pieces) + s.response.unread == body
    requires s.wire + s.response.head == head + Framed(s.response.mode, s.pieces)
    ensures var p := s.response.unread[..n];
      && (s.response.mode.Chunked? ==> Small(s.pieces + [p]))
      && s.wire + Output(s.response.mode, s.response.head, p) == head + Framed(s.response.mode, s.pieces + [p])
      && Flatten(s.pieces + [p]) + s.response.unread[n..] == body
  {
    var r, p, rest := s.response, s.response.unread[..n], s.response.unread[n..];
    assert p + rest == r.unread;
    FramedAnother(r.mode, s.pieces, p);
    FlattenAnother(s.pieces, p);
    Moved(s.wire, r.head, head, Framed(r.mode, s.pieces), Frame(r.mode, p), Flatten(s.pieces), p, rest);
    hide ChunkOf, Framed, Flatten, Frame, Small, ChunksOf;
  }

  lemma Moved(wire: string, unsent: string, head: string, framed: string, frame: string, read: string, p: string,
              rest: string)
    requires wire + unsent == head + framed
    ensures wire + (unsent + frame) == head + (framed + frame)
    ensures read + p + rest == read + (p + rest)
  {
    assert wire + (unsent + frame) == wire + unsent + frame;
    assert head + (framed + frame) == head + framed + frame;
  }

  lemma FramedAnother(mode: Mode, pieces: seq<string>, p: string)
    requires mode.Chunked? ==> 0 < |p| <= 0xFFFF && Small(pieces)
    ensures mode.Chunked? ==> Small(pieces + [p])
    ensures Framed(mode, pieces + [p]) == Framed(mode, pieces) + Frame(mode, p)
  {
    hide ChunkOf;
    FlattenAnother(pieces, p);
    if mode.Chunked? {
      ChunksAnother(pieces, p);
    }
  }

  lemma StepConserves(s: Run, e: Event, head: string, body: string)
    requires e.space <= MAX_SPACE && Fits(s, e) && Conserves(s, head, body)
    ensures Conserves(Step(s, e), head, body)
  {
    hide SendBody, Framed, Flatten, EndMark;
    var r := s.response.(acked := s.response.acked + e.acked);
    var acked := s.(response := r);
    assert s.wire + [] == s.wire;
    if e.offer.Gone? {
    } else if r.state == Headers && |r.head| <= e.space {
      BodyOrWait(acked.(response := r.(state := Content)), head, body, e.space, e.space - |r.head|, e.offer);
    } else if r.state == Headers {
      assert r.head == r.head[..e.space] + r.head[e.space..];
      assert s.wire + r.head[..e.space] + r.head[e.space..] == s.wire + r.head;
    } else if r.state == Content {
      BodyOrWait(acked, head, body, e.space, e.space, e.offer);
    }
  }

  lemma BodyOrWait(s: Run, head: string, body: string, space: nat, room: nat, offer: Offer)
    requires room <= space <= MAX_SPACE && s.response.state == Content && !offer.Gone?
    requires Conserves(s, head, body) && |SendBody(s.response, space, room, offer).1| <= space
    ensures var (next, output) := SendBody(s.response, space, room, offer);
      Conserves(Run(next, s.wire + output, if next.sent == s.response.sent then s.pieces
                                           else s.pieces + [s.response.unread[..|s.response.unread| - |next.unread|]]),
                head, body)
  {
    if Waits(s.response, room, offer) {
      assert s.wire + [] == s.wire;
    } else {
      BodyMoves(s, head, body, space, room, offer);
    }
  }

  function Steps(s: Run, events: seq<Event>): Run
    requires forall e :: e in events ==> e.space <= MAX_SPACE
    decreases |events|
  {
    if events == [] then s else Steps(Step(s, events[0]), events[1..])
  }

  predicate AllFit(s: Run, events: seq<Event>)
    requires forall e :: e in events ==> e.space <= MAX_SPACE
    decreases |events|
  {
    events == [] || (Fits(s, events[0]) && AllFit(Step(s, events[0]), events[1..]))
  }

  function Start(mode: Mode, head: string, body: string): Run {
    Run(NewResponse(mode, head, body), [], [])
  }

  lemma {:induction false} StepsConserve(s: Run, events: seq<Event>, head: string, body: string)
    requires forall e :: e in events ==> e.space <= MAX_SPACE
    requires AllFit(s, events) && Conserves(s, head, body)
    ensures Conserves(Steps(s, events), head, body)
    decreases |events|
  {
    hide Conserves, Step, Fits;
    if events != [] {
      assert events[0] in events;
      StepConserves(s, events[0], head, body);
      StepsConserve(Step(s, events[0]), events[1..], head, body);
    }
  }

  // ---------------------------------------------------------------- when everything fits

  /** The bytes of the head that the first window with room for all that is left of it leaves
      unsent, because the source is not ready or the room behind the head is too small for a
      chunk; 0 if there is no such window. */
  function Stranded(mode: Mode, left: nat, events: seq<Event>): (n: nat)
    decreases |events|
  {
    if left == 0 || events == [] || events[0].offer.Gone? then 0
    else if events[0].space < left then Stranded(mode, left - events[0].space, events[1..])
    else if events[0].offer.TryAgain? || (mode.Chunked? && events[0].space <= left + 8) then left
    else 0
  }

  /** What the caller has to see to: the first window that has room for the head sends it.
      The last byte of a head may stay behind in front of an empty chunked body, which leaves
      a window of more than 8 room for it. */
  predicate HeadGoesOut(mode: Mode, head: string, body: string, events: seq<Event>) {
    var n := Stranded(mode, |head|, events);
    n == 0 || (mode.Chunked? && body == [] && n == 1)
  }

  /** No unsent head can stand in front of the body any more. */
  predicate Harmless(r: Response) {
    r.state == Content ==> r.head == [] || (r.mode.Chunked? && |r.head| == 1 && r.unread == [])
  }

  /** A write exceeds the window exactly if an earlier call left the head unsent although it
      had room for it (the window was too small for a chunk behind it, or the source was not
      ready), and now head and body together do not fit. */
  lemma OverrunExactly(s: Run, e: Event)
    requires e.space <= MAX_SPACE
    ensures !Fits(s, e) <==>
      && !e.offer.Gone? && s.response.state == Content && !Waits(s.response, e.space, e.offer)
      && (var n := ReadLength(s.response.unread, e.offer, MaxRead(s.response, e.space));
          e.space < |s.response.head| + n + if s.response.mode.Chunked? then 8 else 0)
  {
  }

  /** How a head is left unsent: exactly by a window that has room for the head and is not
      used. */
  lemma HeadLeftExactly(s: Run, e: Event)
    requires e.space <= MAX_SPACE && s.response.state == Headers && s.response.head != []
    ensures (Step(s, e).response.state == Content && Step(s, e).response.head != []) <==>
      !e.offer.Gone? && |s.response.head| <= e.space && Waits(s.response, e.space - |s.response.head|, e.offer)
  {
  }

  lemma HarmlessStep(s: Run, e: Event)
    requires e.space <= MAX_SPACE && s.response.state != Headers && Harmless(s.response)
    ensures Fits(s, e)
    ensures Step(s, e).response.state != Headers && Harmless(Step(s, e).response)
  {
    hide ChunkHead, Fits;
    OverrunExactly(s, e);
  }

  lemma {:induction false} HarmlessFits(s: Run, events: seq<Event>)
    requires forall e :: e in events ==> e.space <= MAX_SPACE
    requires s.response.state != Headers && Harmless(s.response)
    ensures AllFit(s, events)
    decreases |events|
  {
    hide Step, Fits, Harmless;
    if events != [] {
      assert events[0] in events;
      HarmlessStep(s, events[0]);
      HarmlessFits(Step(s, events[0]), events[1..]);
    }
  }

  /** One event while the head goes out. */
  lemma HeadStep(s: Run, e: Event)
    requires e.space <= MAX_SPACE && s.response.state == Headers
    ensures Fits(s, e)
    ensures var left, next := |s.response.head|, Step(s, e).response;
      if !e.offer.Gone? && e.space < left then
        next.state == Headers && |next.head| == left - e.space && next.mode == s.response.mode
        && next.unread == s.response.unread
      else
        var n := Stranded(s.response.mode, left, [e]);
        && next.state != Headers && next.mode == s.response.mode
        && (n == 0 ==> Harmless(next))
        && (n > 0 ==> next.state == Content && |next.head| == n && next.unread == s.response.unread)
  {
    hide ChunkHead, Fits;
    OverrunExactly(s, e);
    if s.response.head != [] {
      HeadLeftExactly(s, e);
    }
  }

  /** After such events, one more of any kind fits too. */
  lemma {:induction false} HeadGoesOutFits(s: Run, events: seq<Event>, last: seq<Event>)
    requires forall e :: e in events ==> e.space <= MAX_SPACE
    requires |last| <= 1 && forall e :: e in last ==> e.space <= MAX_SPACE
    requires s.response.state == Headers
    requires HeadGoesOut(s.response.mode, s.response.head, s.response.unread, events)
    ensures AllFit(s, events + last)
    decreases |events|
  {
    hide Step, Fits;
    if events == [] {
      assert events + last == last;
      if last != [] {
        assert last[0] in last;
        HeadStep(s, last[0]);
        assert last[1..] == [];
      }
    } else {
      var e, next := events[0], Step(s, events[0]);
      assert e in events;
      HeadStep(s, e);
      assert (events + last)[1..] == events[1..] + last;
      if !e.offer.Gone? && e.space < |s.response.head| {
        HeadGoesOutFits(next, events[1..], last);
      } else {
        HarmlessFits(next, events[1..] + last);
      }
    }
  }

  /** Otherwise some next window is exceeded. */
  lemma {:induction false} StrandedOverruns(s: Run, events: seq<Event>) returns (k: nat, e: Event)
    requires forall e :: e in events ==> e.space <= MAX_SPACE
    requires s.response.state == Headers
    requires !HeadGoesOut(s.response.mode, s.response.head, s.response.unread, events)
    ensures k <= |events| && e.space <= MAX_SPACE && !AllFit(s, events[..k] + [e])
    decreases |events|
  {
    hide Step, Fits;
    var first, next := events[0], Step(s, events[0]);
    assert first in events;
    HeadStep(s, first);
    if first.space < |s.response.head| {
      k, e := StrandedOverruns(next, events[1..]);
      k := k + 1;
      assert events[..k] + [e] == [first] + (events[1..][..k - 1] + [e]);
    } else {
      k := 1;
      e := StrandingWindow(next);
      assert events[..1] + [e] == [first, e];
      assert [first, e][1..] == [e] && [e][0] == e;
    }
  }

  lemma StrandingWindow(s: Run) returns (e: Event)
    requires s.response.state == Content && s.response.head != []
    requires s.response.mode.Chunked? ==> s.response.unread != [] || |s.response.head| > 1
    ensures e.space <= MAX_SPACE && !Fits(s, e)
  {
    hide ChunkHead, Fits;
    e := Event(0, if s.response.mode.Chunked? then 9 else 0, UpTo(1));
    OverrunExactly(s, e);
  }

  lemma {:induction false} StrandedSoFar(mode: Mode, left: nat, events: seq<Event>, k: nat)
    requires k <= |events|
    ensures Stranded(mode, left, events[..k]) in {0, Stranded(mode, left, events)}
    decreases k
  {
    if k > 0 && left > 0 {
      assert events[..k][1..] == events[1..][..k - 1];
      if events[0].space < left {
        StrandedSoFar(mode, left - events[0].space, events[1..], k - 1);
      }
    }
  }

  /** For every response and every sequence of windows and answers: whatever event follows
      any part of them, all writes fit their windows, if and only if the head goes out with
      the first window that has room for it. */
  lemma FitsExactly(mode: Mode, head: string, body: string, events: seq<Event>)
    requires forall e :: e in events ==> e.space <= MAX_SPACE
    ensures (forall k: nat, e: Event :: k <= |events| && e.space <= MAX_SPACE ==>
               AllFit(Start(mode, head, body), events[..k] + [e]))
      <==> HeadGoesOut(mode, head, body, events)
  {
    var start := Start(mode, head, body);
    if HeadGoesOut(mode, head, body, events) {
      forall k: nat, e: Event | k <= |events| && e.space <= MAX_SPACE ensures AllFit(start, events[..k] + [e]) {
        StrandedSoFar(mode, |head|, events, k);
        HeadGoesOutFits(start, events[..k], [e]);
      }
    } else {
      var k, e := StrandedOverruns(start, events);
    }
  }

  /** Over every sequence of windows and answers of the source by which the head goes out:
      the head and the framed body are written once and in order, and a finished chunked
      response has written all of its body and the last chunk. */
  lemma ResponseConserves(mode: Mode, head: string, body: string, events: seq<Event>)
    requires forall e :: e in events ==> e.space <= MAX_SPACE
    requires HeadGoesOut(mode, head, body, events)
    ensures AllFit(Start(mode, head, body), events)
    ensures Conserves(Steps(Start(mode, head, body), events), head, body)
  {
    var start := Start(mode, head, body);
    assert Flatten(start.pieces) + body == body;
    assert start.wire + head == head + Framed(mode, []);
    HeadGoesOutFits(start, events, []);
    assert events + [] == events;
    StepsConserve(start, events, head, body);
  }

  // ---------------------------------------------------------------- what is lost

  /** The bytes that have been written and the head that is left are fewer than the message has
      up to here. */
  ghost predicate Lost(s: Run, head: string) {
    var r := s.response;
    && r.state != Headers && (r.mode.Chunked? ==> Small(s.pieces))
    && (r.state != Failed ==>
          |s.wire| + |r.head|
          < |head| + |Framed(r.mode, s.pieces)| + if r.state == Content then 0 else |EndMark(r.mode)|)
  }

  /** What a write hands over is what it adds to the message, and the unsent head. */
  lemma OutputAdds(s: Run, space: nat, n: nat)
    requires n <= |s.response.unread| && (s.response.mode.Chunked? ==> n <= 0xFFFF && Small(s.pieces))
    ensures var r, output := s.response, SendRead(s.response, space, n).1;
      var pieces := if n == 0 then s.pieces else s.pieces + [r.unread[..n]];
      && (r.mode.Chunked? ==> Small(pieces))
      && |output| + |Framed(r.mode, s.pieces)|
         == |r.head| + |Framed(r.mode, pieces)| + if n == 0 then |EndMark(r.mode)| else 0
  {
    hide ChunkOf, Flatten, Small, ChunksOf;
    var r := s.response;
    if n == 0 {
      assert r.unread[..0] == [];
    } else {
      FramedAnother(r.mode, s.pieces, r.unread[..n]);
    }
  }

  /** A write while bytes are missing, or one that exceeds its window, leaves bytes missing. */
  lemma BodyLost(s: Run, e: Event, head: string)
    requires e.space <= MAX_SPACE && s.response.state == Content && (s.response.mode.Chunked? ==> Small(s.pieces))
    requires |s.wire| + |s.response.head| <= |head| + |Framed(s.response.mode, s.pieces)|
    requires Lost(s, head) || !Fits(s, e)
    ensures Lost(Step(s, e), head)
  {
    hide Output, ReadLength, Done, Framed, EndMark, Small;
    OverrunExactly(s, e);
    if !e.offer.Gone? && !Waits(s.response, e.space, e.offer) {
      var n := ReadLength(s.response.unread, e.offer, MaxRead(s.response, e.space));
      OutputAdds(s, e.space, n);
      DoneWithNothing(s.response.mode, n, s.response.sent + n, SendRead(s.response, e.space, n).1);
      assert s.response.unread[..|s.response.unread| - |s.response.unread[n..]|] == s.response.unread[..n];
    }
  }

  lemma DoneWithNothing(mode: Mode, n: nat, sent: nat, output: string)
    ensures mode.Chunked? ==> (Done(mode, n, sent, output) <==> n == 0)
    ensures !mode.Chunked? ==> EndMark(mode) == []
  {
  }

  lemma LostStays(s: Run, e: Event, head: string)
    requires e.space <= MAX_SPACE && Lost(s, head)
    ensures Lost(Step(s, e), head)
  {
    hide SendBody, Framed, EndMark, Small;
    if s.response.state == Content && !e.offer.Gone? {
      BodyLost(s, e, head);
    } else {
      assert s.wire + [] == s.wire;
    }
  }

  lemma {:induction false} LostForGood(s: Run, events: seq<Event>, head: string)
    requires forall e :: e in events ==> e.space <= MAX_SPACE
    requires Lost(s, head)
    ensures Lost(Steps(s, events), head)
    decreases |events|
  {
    hide Lost, Step;
    if events != [] {
      assert events[0] in events;
      LostStays(s, events[0], head);
      LostForGood(Step(s, events[0]), events[1..], head);
    }
  }

  /** What does not fit the window is lost for good: whatever events follow, the response goes
      on and ends without having written the message, unless its source fails it. */
  lemma OverrunLosesForGood(s: Run, e: Event, events: seq<Event>, head: string, body: string)
    requires Conserves(s, head, body) && e.space <= MAX_SPACE && !Fits(s, e)
    requires forall later :: later in events ==> later.space <= MAX_SPACE
    ensures var end := Steps(Step(s, e), events);
      && end.response.state != Headers
      && (end.response.state != Failed ==>
            !Conserves(end, head, body)
            && (end.response.mode.Chunked? ==> Small(end.pieces))
            && |end.wire| < |head| + |Framed(end.response.mode, end.pieces)| + |EndMark(end.response.mode)|)
  {
    hide Step, Framed, EndMark, Small, Flatten;
    OverrunExactly(s, e);
    BodyLost(s, e, head);
    LostForGood(Step(s, e), events, head);
  }

  // ---------------------------------------------------------------- where it ends

  /** A response that is ended by closing the connection ends before its body exactly if the
      window leaves no room for a byte of it, and either the head has been sent, or it goes
      out now and fills the window. */
  lemma EndsEarlyExactly(s: Run, e: Event)
    requires e.space <= MAX_SPACE && s.response.mode.CloseDelimited? && s.response.unread != []
    requires s.response.state in {Headers, Content}
    requires s.response.sent == 0 || (s.response.state == Content && s.response.head == [])
    ensures Step(s, e).response.state == WaitAck <==>
      && e.offer.UpTo?
      && e.space == (if s.response.state == Headers then |s.response.head| else 0)
  {
  }

  // ---------------------------------------------------------------- reading the chunks

  lemma {:induction false} HexNumberGoesOn(s: string, d: char, value: nat)
    requires forall i :: 0 <= i < |s| ==> HexValue(s[i]) >= 0
    requires HexValue(d) >= 0
    ensures HexNumber(s + [d], value) == 16 * HexNumber(s, value) + HexValue(d)
    decreases |s|
  {
    if s == [] {
      assert HexNumber([d][1..], 16 * value + HexValue(d)) == 16 * value + HexValue(d);
    } else {
      HexNumberGoesOn(s[1..], d, 16 * value + HexValue(s[0]));
      assert (s + [d])[1..] == s[1..] + [d];
    }
  }

  lemma {:induction false} HexReadBack(n: nat)
    ensures forall i :: 0 <= i < |Hex(n)| ==> HexValue(Hex(n)[i]) >= 0
    ensures HexNumber(Hex(n), 0) == n
    decreases n
  {
    if n < 16 {
      assert Hex(n)[1..] == [];
    } else {
      HexReadBack(n / 16);
      HexNumberGoesOn(Hex(n / 16), HexDigit(n % 16), 0);
    }
  }

  lemma {:induction false} TrimPadding(text: string, padding: string)
    requires text != [] && !IsSpace(text[|text| - 1]) && forall i :: 0 <= i < |padding| ==> IsSpace(padding[i])
    ensures TrimRight(text + padding) == text
    decreases |padding|
  {
    if padding == [] {
      assert text + padding == text;
    } else {
      assert (text + padding)[..|text + padding| - 1] == text + padding[..|padding| - 1];
      TrimPadding(text, padding[..|padding| - 1]);
    }
  }

  lemma NoSpaceInHex(n: nat)
    ensures forall i :: 0 <= i < |Hex(n)| ==> !IsSpace(Hex(n)[i]) && Hex(n)[i] != '\0'
    ensures forall i :: 0 <= i < |Hex(n)| ==> Hex(n)[i] != '-' && Hex(n)[i] != '+'
    ensures forall i :: 0 <= i < |Hex(n)| ==> Hex(n)[i] != 'x' && Hex(n)[i] != 'X'
  {
  }

  /** The size of a chunk is read back, whatever blanks are behind it. */
  lemma SizeReadBack(n: nat, padding: string)
    requires n <= 0x7fff_ffff && forall i :: 0 <= i < |padding| ==> IsSpace(padding[i])
    ensures Http.ChunkSize(Hex(n) + padding) == n
  {
    hide Hex, HexNumber, TrimRight, CString;
    NoSpaceInHex(n);
    TrimPadding(Hex(n), padding);
    assert (Hex(n) + padding)[0] == Hex(n)[0];
    assert Trim(Hex(n) + padding) == Hex(n);
    assert CString(Hex(n)) == Hex(n);
    HexReadBack(n);
  }

  /** The line in front of a chunk. */
  lemma HeadLine(n: nat, rest: string)
    requires n <= 0xFFFF
    ensures var input := ChunkHead(n) + rest;
      && Http.Line(input) != [] && Http.ChunkSize(Http.Line(input)) == n && Http.BehindLine(input) == rest
  {
    hide Http.ChunkSize;
    HexDigits(n);
    var padding := Spaces(4 - |Hex(n)|) + "\r";
    var input := ChunkHead(n) + rest;
    assert ChunkHead(n) == Hex(n) + padding + "\n";
    assert forall i :: 0 <= i < 5 ==> input[i] == (Hex(n) + padding)[i] != '\n';
    assert input[5] == '\n';
    assert IndexOf(input, '\n') == 5;
    assert input[..5] == Hex(n) + padding && input[6..] == rest;
    SizeReadBack(n, padding);
  }

  lemma OneChunk(c: Http.Client, data: string, rest: string, total: int, ret: int)
    requires 0 < |data| <= 0xFFFF && c.input == ChunkOf(data) + rest
    ensures Http.Chunks(c, total, ret)
      == Http.Chunks(c.(input := rest, output := c.output + data), total + |data|, ret + |data|)
  {
    hide ChunkHead, Http.ChunkSize, Http.Line, Http.BehindLine;
    var behind := data + ("\r\n" + rest);
    assert c.input == ChunkHead(|data|) + behind;
    HeadLine(|data|, behind);
    assert behind[..|data|] == data && behind[|data|..] == "\r\n" + rest && ("\r\n" + rest)[2..] == rest;
  }

  lemma {:induction false} ChunksRead(c: Http.Client, pieces: seq<string>, rest: string, total: int, ret: int)
    requires Small(pieces) && c.input == ChunksOf(pieces) + rest
    ensures Http.Chunks(c, total, ret)
      == Http.Chunks(c.(input := rest, output := c.output + Flatten(pieces)),
                     total + |Flatten(pieces)|, ret + |Flatten(pieces)|)
    decreases |pieces|
  {
    hide ChunkOf, Http.Chunks;
    if pieces == [] {
      assert c.input == rest && c.output + [] == c.output;
    } else {
      var p := pieces[0];
      assert p in pieces;
      var behind := ChunksOf(pieces[1..]) + rest;
      assert c.input == ChunkOf(p) + behind;
      OneChunk(c, p, behind, total, ret);
      var next := c.(input := behind, output := c.output + p);
      ChunksRead(next, pieces[1..], rest, total + |p|, ret + |p|);
      assert next.output + Flatten(pieces[1..]) == c.output + Flatten(pieces);
    }
  }

  /** Chunks are read back as the body, and the length agrees exactly if the head announced
      no length, or the right one. */
  lemma ChunkedBodyReadBack(c: Http.Client, pieces: seq<string>, more: string)
    requires Small(pieces) && c.input == ChunksOf(pieces) + ChunkOf([]) + more
    ensures var (end, ret) := Http.WriteToStream(c, Http.ChunkedEncoding);
      var body := Flatten(pieces);
      && end.output == c.output + body
      && (ret == |body| <==> c.size <= 0 || c.size == |body|)
      && (ret != |body| ==> ret == Http.ERROR_STREAM_WRITE)
  {
    hide ChunkHead, Http.ChunkSize, Http.Line, Http.BehindLine, Http.DataBlock, ChunksOf, Flatten;
    var last := ChunkHead(0) + ("\r\n" + more);
    assert c.input == ChunksOf(pieces) + last;
    ChunksRead(c, pieces, last, 0, 0);
    HeadLine(0, "\r\n" + more);
  }

  /** From end to end: a chunked response that has been written to its end, through whatever
      windows, comes out of the reader as the body that the source gave. */
  lemma ChunkedRoundTrip(head: string, body: string, events: seq<Event>, more: string)
    requires forall e :: e in events ==> e.space <= MAX_SPACE
    requires HeadGoesOut(Chunked, head, body, events)
    requires Steps(Start(Chunked, head, body), events).response.state in {WaitAck, End}
    ensures var wire := Steps(Start(Chunked, head, body), events).wire;
      && head <= wire
      && var (end, ret) := Http.WriteToStream(Http.Client(wire[|head|..] + more, [], -1), Http.ChunkedEncoding);
         end.output == body && ret == |body|
  {
    hide ChunkOf, Steps, AllFit, HeadGoesOut, Http.WriteToStream;
    ResponseConserves(Chunked, head, body, events);
    var end := Steps(Start(Chunked, head, body), events);
    assert end.response.mode == Chunked by {
      ModeStays(Start(Chunked, head, body), events);
    }
    assert end.wire == head + (ChunksOf(end.pieces) + ChunkOf([]));
    assert Flatten(end.pieces) + [] == Flatten(end.pieces) == body;
    ChunkedBodyReadBack(Http.Client(end.wire[|head|..] + more, [], -1), end.pieces, more);
  }

  lemma {:induction false} ModeStays(s: Run, events: seq<Event>)
    requires forall e :: e in events ==> e.space <= MAX_SPACE
    ensures Steps(s, events).response.mode == s.response.mode
    decreases |events|
  {
    hide Output, ReadLength;
    if events != [] {
      assert events[0] in events;
      ModeStays(Step(s, events[0]), events[1..]);
    }
  }

  // ---------------------------------------------------------------- a connection that is lost

  /** The beginning of a number in hex digits is a number, and not zero. */
  lemma {:induction false} HexBeginning(n: nat, k: nat) returns (m: nat)
    requires 0 < n && 0 < k <= |Hex(n)|
    ensures 0 < m <= n && Hex(n)[..k] == Hex(m)
    decreases n
  {
    if k == |Hex(n)| {
      m := n;
      assert Hex(n)[..k] == Hex(n);
    } else {
      m := HexBeginning(n / 16, k);
      assert Hex(n)[..k] == Hex(n / 16)[..k];
    }
  }

  /** The beginning of the line in front of a chunk is a size that is not zero. */
  lemma LineBeginning(n: nat, input: string)
    requires 0 < n <= 0xFFFF && input != [] && input < ChunkHead(n)
    ensures Http.Line(input) == input && Http.BehindLine(input) == [] && Http.ChunkSize(input) > 0
  {
    hide Http.ChunkSize, Hex;
    HexDigits(n);
    var padding := Spaces(4 - |Hex(n)|) + "\r";
    assert ChunkHead(n) == Hex(n) + padding + "\n";
    var k := if |input| <= |Hex(n)| then |input| else |Hex(n)|;
    var m := HexBeginning(n, k);
    var rest := padding[..|input| - k];
    assert input == Hex(m) + rest by {
      assert input == ChunkHead(n)[..|input|];
    }
    SizeReadBack(m, rest);
    assert '\n' !in input;
  }

  /** A connection that is lost in front of the last chunk is never taken for the end of the
      body, wherever it is cut; the stream has a beginning of the body. */
  lemma LostConnectionFails(c: Http.Client, pieces: seq<string>)
    requires Small(pieces) && c.input <= ChunksOf(pieces)
    ensures var (end, ret) := Http.WriteToStream(c, Http.ChunkedEncoding);
      ret < 0 && c.output <= end.output <= c.output + Flatten(pieces)
  {
    LostChunks(c, pieces, 0, 0);
    hide Http.Chunks, ChunksOf, Flatten;
  }

  lemma {:induction false} LostChunks(c: Http.Client, pieces: seq<string>, total: int, ret: int)
    requires Small(pieces) && c.input <= ChunksOf(pieces)
    ensures var (end, result) := Http.Chunks(c, total, ret);
      result < 0 && c.output <= end.output <= c.output + Flatten(pieces)
    decreases |pieces|
  {
    hide ChunkOf, Http.Chunks, Http.ChunkSize;
    if c.input == [] {
      assert Http.Chunks(c, total, ret) == (c, Http.ERROR_CONNECTION_LOST) by {
        NothingLeft(c, total, ret);
      }
    } else {
      var p, more := pieces[0], ChunksOf(pieces[1..]);
      assert p in pieces;
      if |ChunkOf(p)| <= |c.input| {
        var rest := c.input[|ChunkOf(p)|..];
        assert c.input == ChunkOf(p) + rest && rest <= more by {
          assert c.input == (ChunkOf(p) + more)[..|c.input|];
        }
        OneChunk(c, p, rest, total, ret);
        var next := c.(input := rest, output := c.output + p);
        LostChunks(next, pieces[1..], total + |p|, ret + |p|);
        assert next.output + Flatten(pieces[1..]) == c.output + Flatten(pieces);
        Between(c.output, p, Http.Chunks(next, total + |p|, ret + |p|).0.output);
      } else {
        assert c.input == ChunkOf(p)[..|c.input|] by {
          assert c.input == (ChunkOf(p) + more)[..|c.input|];
        }
        LostInChunk(c, p, total, ret);
        Longer(c.output, p, Flatten(pieces[1..]), Http.Chunks(c, total, ret).0.output);
      }
    }
  }

  /** A chunk that is not followed by the end of its line is an error; the chunk has been given
      to the stream. */
  lemma WrongChunkEnd(c: Http.Client, data: string, bad: string, total: int, ret: int)
    requires 0 < |data| <= 0xFFFF && c.input == ChunkHead(|data|) + (data + bad) && !("\r\n" <= bad)
    ensures Http.Chunks(c, total, ret)
      == (c.(input := if |bad| < 2 then [] else bad[2..], output := c.output + data), Http.ERROR_READ_TIMEOUT)
  {
    hide ChunkHead, Http.ChunkSize, Http.Line, Http.BehindLine;
    HeadLine(|data|, data + bad);
    assert (data + bad)[..|data|] == data && (data + bad)[|data|..] == bad;
  }

  lemma NothingLeft(c: Http.Client, total: int, ret: int)
    requires c.input == []
    ensures Http.Chunks(c, total, ret) == (c, Http.ERROR_CONNECTION_LOST)
  {
  }

  lemma Between(a: string, b: string, c: string)
    requires a + b <= c
    ensures a <= c
  {
    assert (a + b)[..|a|] == a;
  }

  lemma Longer(a: string, b: string, more: string, c: string)
    requires c <= a + b
    ensures c <= a + (b + more)
  {
    assert a + (b + more) == a + b + more;
  }

  lemma LostInChunk(c: Http.Client, p: string, total: int, ret: int)
    requires 0 < |p| <= 0xFFFF && c.input != [] && c.input < ChunkOf(p)
    ensures var (end, result) := Http.Chunks(c, total, ret);
      result < 0 && c.output <= end.output <= c.output + p
  {
    hide ChunkHead, Http.ChunkSize, Http.Line, Http.BehindLine;
    if |c.input| < 6 {
      assert c.input == ChunkOf(p)[..|c.input|] == ChunkHead(|p|)[..|c.input|];
      LineBeginning(|p|, c.input);
    } else {
      var behind := c.input[6..];
      assert c.input == ChunkHead(|p|) + behind by {
        assert c.input == ChunkOf(p)[..|c.input|];
      }
      HeadLine(|p|, behind);
      assert behind < p + "\r\n" by {
        assert p + "\r\n" == ChunkOf(p)[6..];
      }
      if |p| <= |behind| {
        assert behind[..|p|] == p;
      } else {
        assert behind == p[..|behind|];
      }
    }
  }

  // ---------------------------------------------------------------- bodies that are not chunked

  /** What is read of a response that has been written, with the size that its head announced,
      or -1. */
  function ReadOf(wire: string, head: string, more: string, size: int): (Http.Client, int)
    requires head <= wire
  {
    Http.WriteToStream(Http.Client(wire[|head|..] + more, [], size), Http.Identity)
  }

  /** From end to end: of a finished response of announced length, the reader gets so many
      bytes, the first ones of the body, whatever follows on the connection. */
  lemma FixedLengthRoundTrip(length: nat, head: string, body: string, events: seq<Event>, more: string)
    requires forall e :: e in events ==> e.space <= MAX_SPACE
    requires HeadGoesOut(FixedLength(length), head, body, events)
    requires Steps(Start(FixedLength(length), head, body), events).response.state in {WaitAck, End}
    ensures var wire := Steps(Start(FixedLength(length), head, body), events).wire;
      && length <= |body| && wire == head + body[..length]
      && var (end, ret) := ReadOf(wire, head, more, length);
         && end.output == body[..length]
         && (ret == length <==> length > 0 || more != []) && (ret != length ==> ret == Http.ERROR_NOT_CONNECTED)
  {
    hide Steps, AllFit, HeadGoesOut, Flatten;
    var start := Start(FixedLength(length), head, body);
    ResponseConserves(FixedLength(length), head, body, events);
    ModeStays(start, events);
    var end := Steps(start, events);
    assert end.wire == head + Flatten(end.pieces) + [] == head + Flatten(end.pieces);
    assert body[..length] == Flatten(end.pieces);
    assert end.wire[|head|..] == body[..length];
    assert (body[..length] + more)[..length] == body[..length];
  }

  /** From end to end: of a finished response that is ended by closing the connection, the
      reader gets what was written of the body; that is all of it if every window was larger
      than the head. */
  lemma CloseDelimitedRoundTrip(head: string, body: string, events: seq<Event>)
    requires forall e :: e in events ==> e.space <= MAX_SPACE
    requires HeadGoesOut(CloseDelimited, head, body, events)
    requires Steps(Start(CloseDelimited, head, body), events).response.state in {WaitAck, End}
    ensures var end := Steps(Start(CloseDelimited, head, body), events);
      && head <= end.wire && end.wire + end.response.unread == head + body
      && ((forall e :: e in events ==> e.space > |head|) ==> end.response.unread == [])
      && var (read, ret) := ReadOf(end.wire, head, [], -1);
         && read.output + end.response.unread == body
         && (if end.response.unread == body then ret == Http.ERROR_NOT_CONNECTED else ret == |read.output|)
  {
    hide Steps, AllFit, HeadGoesOut, Flatten;
    var start := Start(CloseDelimited, head, body);
    ResponseConserves(CloseDelimited, head, body, events);
    ModeStays(start, events);
    var end := Steps(start, events);
    assert end.wire == head + Flatten(end.pieces) + [] == head + Flatten(end.pieces);
    assert end.wire[|head|..] + [] == Flatten(end.pieces);
    assert head + Flatten(end.pieces) + end.response.unread == head + body;
    if forall e :: e in events ==> e.space > |head| {
      NotEarly(start, events, |head|);
    }
  }

  ghost predicate Whole(r: Response) {
    && r.mode == CloseDelimited && (r.state in {WaitAck, End} ==> r.unread == [])
  }

  lemma {:induction false} NotEarly(s: Run, events: seq<Event>, n: nat)
    requires forall e :: e in events ==> n < e.space <= MAX_SPACE
    requires Whole(s.response) && |s.response.head| <= n
    ensures Whole(Steps(s, events).response)
    decreases |events|
  {
    hide Step;
    if events != [] {
      assert events[0] in events;
      StepNotEarly(s, events[0], n);
      NotEarly(Step(s, events[0]), events[1..], n);
    }
  }

  lemma StepNotEarly(s: Run, e: Event, n: nat)
    requires n < e.space <= MAX_SPACE && Whole(s.response) && |s.response.head| <= n
    ensures Whole(Step(s, e).response) && |Step(s, e).response.head| <= n
  {
  }

  // ---------------------------------------------------------------- every response ends

  /** The source answers with something, and the window has room for the head and a chunk. */
  predicate Open(e: Event, head: string) {
    |head| + 8 < e.space && e.offer.UpTo?
  }

  /** How many bytes a response will have sent when it is finished. */
  function Goal(mode: Mode, body: string): nat {
    if mode.FixedLength? then mode.length else |body|
  }

  ghost predicate OnItsWay(r: Response, head: string, body: string) {
    && |r.head| <= |head| && (r.sent > 0 ==> r.head == []) && r.sent + |r.unread| == |body|
    && r.state in {Headers, Content}
    && (r.mode.FixedLength? ==> r.sent <= r.mode.length <= |body|)
  }

  lemma OpenStep(s: Run, e: Event, head: string, body: string)
    requires OnItsWay(s.response, head, body) && Open(e, head) && e.space <= MAX_SPACE
    ensures var next := Step(s, e).response;
      && next.mode == s.response.mode
      && (if Goal(next.mode, body) == s.response.sent then next.state == WaitAck
          else next.state == WaitAck || (OnItsWay(next, head, body) && next.sent > s.response.sent))
  {
    hide ChunkOf;
  }

  /** As many open windows as bytes, and one more, finish every response that announces no more
      than its body has. */
  lemma {:induction false} OpenWindowsFinish(s: Run, events: seq<Event>, head: string, body: string)
    requires forall e :: e in events ==> Open(e, head) && e.space <= MAX_SPACE
    requires OnItsWay(s.response, head, body)
    requires |events| > Goal(s.response.mode, body) - s.response.sent
    ensures Steps(s, events).response.state in {WaitAck, End}
    decreases |events|
  {
    hide Step;
    var e := events[0];
    assert e in events;
    OpenStep(s, e, head, body);
    var next := Step(s, e);
    if next.response.state == WaitAck {
      WaitingStays(next, events[1..]);
    } else {
      OpenWindowsFinish(next, events[1..], head, body);
    }
  }

  lemma {:induction false} WaitingStays(s: Run, events: seq<Event>)
    requires forall e :: e in events ==> e.space <= MAX_SPACE && !e.offer.Gone?
    requires s.response.state in {WaitAck, End}
    ensures Steps(s, events).response.state in {WaitAck, End}
    decreases |events|
  {
    if events != [] {
      assert events[0] in events;
      WaitingStays(Step(s, events[0]), events[1..]);
    }
  }

  /** The acknowledgement of everything that was written. */
  predicate LastAck(r: Response, e: Event) {
    e.space <= MAX_SPACE && !e.offer.Gone? && r.acked + e.acked >= r.written
  }

  lemma LastAckEnds(s: Run, e: Event)
    requires s.response.state == WaitAck && e.space <= MAX_SPACE && !e.offer.Gone?
    ensures Step(s, e).response.state == End <==> !s.response.mode.FixedLength? || LastAck(s.response, e)
  {
  }

  /** A response that announces more than its body has never ends. */
  lemma {:induction false} ShortBodyNeverEnds(s: Run, events: seq<Event>, body: string)
    requires forall e :: e in events ==> e.space <= MAX_SPACE
    requires s.response.mode.FixedLength? && s.response.mode.length > |body|
    requires s.response.sent + |s.response.unread| == |body| && s.response.state !in {WaitAck, End}
    ensures Steps(s, events).response.state !in {WaitAck, End}
    decreases |events|
  {
    if events != [] {
      assert events[0] in events;
      ShortBodyGoesOn(s, events[0], body);
      ShortBodyNeverEnds(Step(s, events[0]), events[1..], body);
    }
  }

  lemma ShortBodyGoesOn(s: Run, e: Event, body: string)
    requires e.space <= MAX_SPACE
    requires s.response.mode.FixedLength? && s.response.mode.length > |body|
    requires s.response.sent + |s.response.unread| == |body| && s.response.state !in {WaitAck, End}
    ensures var next := Step(s, e).response;
      && next.mode == s.response.mode && next.sent + |next.unread| == |body| && next.state !in {WaitAck, End}
  {
  }

  /** With enough open windows and then the acknowledgement of everything written a response ends,
      if and only if it announces no more than its body has. */
  lemma EndsExactly(mode: Mode, head: string, body: string, events: seq<Event>, last: Event)
    requires |events| > |body| && forall e :: e in events ==> Open(e, head) && e.space <= MAX_SPACE
    requires LastAck(Steps(Start(mode, head, body), events).response, last)
    ensures Step(Steps(Start(mode, head, body), events), last).response.state == End
      <==> !mode.FixedLength? || mode.length <= |body|
  {
    hide Steps;
    var end := Steps(Start(mode, head, body), events);
    if mode.FixedLength? && mode.length > |body| {
      ShortBodyNeverEnds(Start(mode, head, body), events, body);
      NotEndedAtOnce(end, last);
    } else {
      OpenWindowsFinish(Start(mode, head, body), events, head, body);
      if end.response.state == WaitAck {
        LastAckEnds(end, last);
      }
    }
  }

  lemma NotEndedAtOnce(s: Run, e: Event)
    requires e.space <= MAX_SPACE && s.response.state !in {WaitAck, End}
    ensures Step(s, e).response.state != End
  {
  }
}
