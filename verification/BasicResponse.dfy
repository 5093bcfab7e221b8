/** AsyncBasicResponse: a head and a short text, sent in as many pieces as the windows of the
    connection make of them (WebResponses.cpp:167-240). */
module BasicResponse {

  datatype State = Headers | Content | WaitAck | End

  datatype Response = Response(
    state: State, content: string, contentLength: nat, sent: nat, written: nat, acked: nat)

  /** What a call did: the new response, and the bytes it wrote. */
  datatype Outcome = Outcome(response: Response, wrote: string)

  function NewResponse(content: string): Response {
    Response(Headers, content, |content|, 0, 0, 0)
  }

  /** _respond, with the assembled head, for a window of so many bytes. */
  function Respond(r: Response, head: string, space: nat): Outcome
    requires r.contentLength == |r.content|
  {
    if r.contentLength == 0 && space >= |head| then
      Outcome(r.(state := WaitAck, written := r.written + |head|), head)
    else if r.contentLength != 0 && space >= |head| + r.contentLength then
      Outcome(r.(state := WaitAck, written := r.written + |head + r.content|), head + r.content)
    else if 0 < space < |head| then
      Outcome(r.(state := Content, content := head[space..] + r.content,
                 contentLength := r.contentLength + |head| - space, written := r.written + space),
              head[..space])
    else if |head| < space < |head| + r.contentLength then
      var shift := space - |head|;
      Outcome(r.(state := Content, content := r.content[shift..], sent := r.sent + shift, written := r.written + space),
              head + r.content[..shift])
    else
      Outcome(r.(state := Content, content := head + r.content, contentLength := r.contentLength + |head|), [])
  }

  /** The lengths agree with the text that is left. */
  predicate Consistent(r: Response) {
    r.state == Content ==> r.sent <= r.contentLength && r.contentLength - r.sent == |r.content|
  }

  function Acknowledge(r: Response, len: nat, space: nat): Outcome
    requires Consistent(r)
  {
    var r := r.(acked := r.acked + len);
    if r.state == Content then
      var available := r.contentLength - r.sent;
      if space > available then
        Outcome(r.(state := WaitAck, content := [], written := r.written + available), r.content)
      else
        Outcome(r.(content := r.content[space..], sent := r.sent + space, written := r.written + space),
                r.content[..space])
    else if r.state == WaitAck && r.acked >= r.written then Outcome(r.(state := End), [])
    else Outcome(r, [])
  }

  class AsyncBasicResponse {
    var state: State
    var content: string
    var contentLength: nat
    var sentLength: nat
    var writtenLength: nat
    var ackedLength: nat

    function Current(): Response
      reads this
    {
      Response(state, content, contentLength, sentLength, writtenLength, ackedLength)
    }

    constructor (content: string)
      ensures Current() == NewResponse(content)
    {
      state, this.content, contentLength := Headers, content, |content|;
      sentLength, writtenLength, ackedLength := 0, 0, 0;
    }

    method StartResponse(head: string, space: nat) returns (wrote: string)
      requires contentLength == |content|
      modifies this
      ensures Outcome(Current(), wrote) == Respond(old(Current()), head, space)
    {
      var out, outLen := head, |head|;
      wrote := [];
      if contentLength == 0 && space >= outLen {
        wrote := out;
        state := WaitAck;
      } else if contentLength != 0 && space >= outLen + contentLength {
        out := out + content;
        wrote := out;
        state := WaitAck;
      } else if space != 0 && space < outLen {
        wrote := out[..space];
        content := out[space..] + content;
        contentLength := contentLength + (outLen - space);
        state := Content;
      } else if space > outLen && space < outLen + contentLength {
        var shift := space - outLen;
        sentLength := sentLength + shift;
        wrote := out + content[..shift];
        content := content[shift..];
        state := Content;
      } else {
        content := out + content;
        contentLength := contentLength + outLen;
        state := Content;
      }
      writtenLength := writtenLength + |wrote|;
    }

    method Ack(len: nat, space: nat) returns (wrote: string)
      requires Consistent(Current())
      modifies this
      ensures Outcome(Current(), wrote) == Acknowledge(old(Current()), len, space)
    {
      wrote := [];
      ackedLength := ackedLength + len;
      if state == Content {
        var available := contentLength - sentLength;
        if space > available {
          wrote := content[..available];
          content := [];
          state := WaitAck;
        } else {
          wrote := content[..space];
          content := content[space..];
          sentLength := sentLength + space;
        }
        writtenLength := writtenLength + |wrote|;
      } else if state == WaitAck {
        if ackedLength >= writtenLength {
          state := End;
        }
      }
    }
  }

  // ---------------------------------------------------------------- runs

  datatype Event = Event(acked: nat, space: nat)

  /** A response and everything it has written. */
  datatype Run = Run(response: Response, wire: string)

  predicate Conserves(s: Run, message: string) {
    var r := s.response;
    && Consistent(r) && r.written == |s.wire|
    && r.state != Headers
    && (r.state == Content ==> s.wire + r.content == message)
    && (r.state == WaitAck || r.state == End ==> s.wire == message)
    && (r.state == End ==> r.written <= r.acked)
  }

  function Started(head: string, content: string, space: nat): Run {
    var o := Respond(NewResponse(content), head, space);
    Run(o.response, o.wrote)
  }

  function Steps(s: Run, events: seq<Event>): Run
    requires Consistent(s.response)
    decreases |events|
  {
    if events == [] then s
    else
      var o := Acknowledge(s.response, events[0].acked, events[0].space);
      Steps(Run(o.response, s.wire + o.wrote), events[1..])
  }

  /** All five cases of the first window leave what is unwritten in the content. */
  lemma StartConserves(head: string, content: string, space: nat)
    ensures Conserves(Started(head, content, space), head + content)
    ensures |Started(head, content, space).wire| <= space
  {
  }

  /** The first window takes what it has room for, except that one of exactly the head in front
      of a text is not used; all is written at once if and only if it fits. */
  lemma FirstWindow(head: string, content: string, space: nat)
    ensures var first, message := Started(head, content, space), head + content;
      && first.wire == (if space == |head| && content != [] then []
                        else if space < |message| then message[..space] else message)
      && (first.response.state == WaitAck <==> |message| <= space)
  {
    var message := head + content;
    assert message[..0] == [] && (space < |head| ==> message[..space] == head[..space]);
    assert |head| < space < |message| ==> message[..space] == head + content[..space - |head|];
    assert content == [] ==> message == head;
  }

  lemma AckConserves(s: Run, e: Event, message: string)
    requires Conserves(s, message)
    ensures var o := Acknowledge(s.response, e.acked, e.space);
      Conserves(Run(o.response, s.wire + o.wrote), message) && |o.wrote| <= e.space
  {
  }

  lemma {:induction false} StepsConserve(s: Run, events: seq<Event>, message: string)
    requires Conserves(s, message)
    ensures Conserves(Steps(s, events), message)
    decreases |events|
  {
    if events != [] {
      AckConserves(s, events[0], message);
      var o := Acknowledge(s.response, events[0].acked, events[0].space);
      StepsConserve(Run(o.response, s.wire + o.wrote), events[1..], message);
    }
  }

  /** Through any windows and acknowledgements, what is written is always a beginning of head
      and text; when the response waits for the last acknowledgement all of it has been
      written once, and when it ends all of it has been acknowledged. */
  lemma ResponseConserves(head: string, content: string, space: nat, events: seq<Event>)
    ensures var end := Steps(Started(head, content, space), events);
      && Conserves(end, head + content) && end.wire <= head + content
      && (end.response.state in {WaitAck, End} ==> end.wire == head + content)
  {
    StartConserves(head, content, space);
    StepsConserve(Started(head, content, space), events, head + content);
  }

  /** Content goes on until a window is larger than the rest: one that just fits writes the
      last byte but needs another acknowledgement, with any window, to notice. */
  lemma LastWindow(s: Run, e: Event, message: string)
    requires Conserves(s, message) && s.response.state == Content
    ensures var o := Acknowledge(s.response, e.acked, e.space);
      && (o.response.state == WaitAck <==> e.space > |s.response.content|)
      && (s.wire + o.wrote == message <==> e.space >= |s.response.content|)
      && (e.space > 0 && s.response.content != [] ==> |o.response.content| < |s.response.content|)
  {
  }

  /** A response that waits ends with the acknowledgement of its last byte. */
  lemma LastAckEnds(r: Response, len: nat, space: nat)
    requires r.state == WaitAck
    ensures Acknowledge(r, len, space).response.state == End <==> r.acked + len >= r.written
    ensures Acknowledge(r, len, space).wrote == []
  {
  }

  /** Every open window brings the end closer: after more of them than bytes are left,
      everything has been written. */
  lemma {:induction false} WindowsFinish(s: Run, events: seq<Event>, message: string)
    requires Conserves(s, message) && forall e :: e in events ==> e.space > 0
    requires s.response.state == Content ==> |events| > |s.response.content|
    ensures Steps(s, events).response.state in {WaitAck, End} && Steps(s, events).wire == message
    decreases |events|
  {
    if events != [] {
      var e := events[0];
      assert e in events;
      AckConserves(s, e, message);
      if s.response.state == Content {
        LastWindow(s, e, message);
      }
      var o := Acknowledge(s.response, e.acked, e.space);
      WindowsFinish(Run(o.response, s.wire + o.wrote), events[1..], message);
    }
  }
}
