/** AsyncAbstractResponse: a head and a body of unknown length, sent in pieces that fit the
    send window of the connection (WebResponses.cpp:249-365; chunks as in RFC 7230 section
    4.1). */
module ResponseSender {
  import opened Sequences

  /** Chunked, ended by closing the connection, or with a length that the head announces. */
  datatype Mode = Chunked | CloseDelimited | FixedLength(length: nat)

  datatype State = Headers | Content | WaitAck | End | Failed

  /** What the source of the body answers: RESPONSE_TRY_AGAIN, or up to so many bytes; it
      answers nothing only at the end of the body.  A source that is gone fails the response. */
  datatype Offer = TryAgain | UpTo(n: Positive) | Gone

  type Positive = n: nat | n > 0 witness 1

  /** More would need five hex digits for the size of a chunk. */
  const MAX_SPACE := 0xFFFF + 8

  datatype Response = Response(
    mode: Mode, state: State, head: string, unread: string, sent: nat, written: nat, acked: nat)

  // ---------------------------------------------------------------- chunks

  function HexDigit(v: nat): (c: char)
    requires v < 16
    ensures c != ' ' && c != '\r' && c != '\n'
  {
    if v < 10 then ('0' as int + v) as char else ('a' as int + v - 10) as char
  }

  /** "%x" */
  function Hex(n: nat): (s: string)
    ensures s != [] && forall i :: 0 <= i < |s| ==> s[i] != ' ' && s[i] != '\r' && s[i] != '\n'
  {
    if n < 16 then [HexDigit(n)] else Hex(n / 16) + [HexDigit(n % 16)]
  }

  lemma HexDigits(n: nat)
    requires n <= 0xFFFF
    ensures |Hex(n)| <= 4
  {
    assert n / 16 < 0x1000 && n / 16 / 16 < 0x100 && n / 16 / 16 / 16 < 0x10;
    assert |Hex(n / 16 / 16 / 16)| == 1;
    assert |Hex(n / 16 / 16)| <= 2;
    assert |Hex(n / 16)| <= 3;
  }

  function Spaces(n: nat): (s: string)
    ensures |s| == n && forall i :: 0 <= i < n ==> s[i] == ' '
  {
    seq(n, i => ' ')
  }

  /** The size of a chunk, with spaces up to four digits. */
  function ChunkHead(n: nat): (h: string)
    requires n <= 0xFFFF
    ensures |h| == 6
  {
    HexDigits(n);
    Hex(n) + Spaces(4 - |Hex(n)|) + "\r\n"
  }

  function ChunkOf(data: string): (c: string)
    requires |data| <= 0xFFFF
    ensures |c| == |data| + 8
  {
    ChunkHead(|data|) + data + "\r\n"
  }

  // ---------------------------------------------------------------- one acknowledgement

  /** The bytes that the source gives for a buffer of so many. */
  function ReadLength(unread: string, offer: Offer, max: nat): (n: nat)
    ensures n <= max && n <= |unread|
  {
    if !offer.UpTo? then 0 else Min(offer.n, Min(max, |unread|))
  }

  /** The most that is read: room is the window, less the head if it goes out with the first
      bytes of the body. */
  function MaxRead(r: Response, room: nat): (max: nat)
    ensures max <= room && (r.mode.Chunked? && room > 8 ==> max == room - 8)
  {
    match r.mode
    case Chunked => if room <= 8 then 0 else room - 8
    case CloseDelimited => room
    case FixedLength(length) => if r.sent <= length then Min(length - r.sent, room) else room
  }

  /** Nothing is sent: the window is too small for a chunk, or the source is not ready. */
  predicate Waits(r: Response, room: nat, offer: Offer) {
    (r.mode.Chunked? && room <= 8) || offer.TryAgain?
  }

  function Frame(mode: Mode, data: string): string
    requires mode.Chunked? ==> |data| <= 0xFFFF
  {
    if mode.Chunked? then ChunkOf(data) else data
  }

  /** What is handed to the connection for the bytes read. */
  function Output(mode: Mode, head: string, data: string): string
    requires mode.Chunked? ==> |data| <= 0xFFFF
  {
    head + Frame(mode, data)
  }

  /** The connection takes what fits. */
  function Taken(output: string, space: nat): (t: string)
    ensures t <= output && |t| <= space
  {
    if |output| <= space then output else output[..space]
  }

  /** The test behind a write; a response without announced length has _contentLength 0. */
  predicate Done(mode: Mode, n: nat, sent: nat, output: string) {
    match mode
    case Chunked => n == 0
    case CloseDelimited => output == [] || sent == 0
    case FixedLength(length) => sent == length
  }

  function SendBody(r: Response, space: nat, room: nat, offer: Offer): (Response, string)
    requires room <= space <= MAX_SPACE
  {
    if Waits(r, room, offer) then (r, []) else SendRead(r, space, ReadLength(r.unread, offer, MaxRead(r, room)))
  }

  /** So many bytes of the body go out behind what is left of the head. */
  function SendRead(r: Response, space: nat, n: nat): (Response, string)
    requires n <= |r.unread| && (r.mode.Chunked? ==> n <= 0xFFFF)
  {
    var output := Output(r.mode, r.head, r.unread[..n]);
    (r.(state := if Done(r.mode, n, r.sent + n, output) then WaitAck else r.state, head := [],
        unread := r.unread[n..], sent := r.sent + n, written := r.written + |Taken(output, space)|),
     output)
  }

  /** _ack: the new state, and what is handed to the connection.  The state is Content from
      the first call on that has room for the head, even if nothing is sent by it. */
  function Acknowledge(r: Response, len: nat, space: nat, offer: Offer): (Response, string)
    requires space <= MAX_SPACE
  {
    if offer.Gone? then (r.(state := Failed), [])
    else
      var r := r.(acked := r.acked + len);
      match r.state
      case Headers =>
        if |r.head| <= space then SendBody(r.(state := Content), space, space - |r.head|, offer)
        else (r.(head := r.head[space..], written := r.written + space), r.head[..space])
      case Content => SendBody(r, space, space, offer)
      case WaitAck =>
        (if !r.mode.FixedLength? || r.acked >= r.written then r.(state := End) else r, [])
      case _ => (r, [])
  }

  class AsyncAbstractResponse {
    const mode: Mode
    var state: State
    var head: string
    /** What the source has not given yet. */
    var unread: string
    var sentLength: nat
    var writtenLength: nat
    var ackedLength: nat

    function Current(): Response
      reads this
    {
      Response(mode, state, head, unread, sentLength, writtenLength, ackedLength)
    }

    constructor (mode: Mode, head: string, body: string)
      ensures Current() == NewResponse(mode, head, body)
    {
      this.mode, this.state, this.head, unread := mode, Headers, head, body;
      sentLength, writtenLength, ackedLength := 0, 0, 0;
    }

    method Ack(len: nat, space: nat, offer: Offer) returns (output: string)
      requires space <= MAX_SPACE
      modifies this
      ensures (Current(), output) == Acknowledge(old(Current()), len, space, offer)
    {
      output := [];
      if offer.Gone? {
        state := Failed;
        return;
      }
      ackedLength := ackedLength + len;
      var room := space;
      if state == Headers {
        if space >= |head| {
          state := Content;
          room := space - |head|;
        } else {
          output := head[..space];
          head := head[space..];
          writtenLength := writtenLength + |output|;
          return;
        }
      }
      if state == Content {
        output := WriteBody(space, room, offer);
      } else if state == WaitAck {
        if !mode.FixedLength? || ackedLength >= writtenLength {
          state := End;
        }
      }
    }

    method WriteBody(space: nat, room: nat, offer: Offer) returns (output: string)
      requires state == Content && room <= space <= MAX_SPACE
      modifies this`state, this`head, this`unread, this`sentLength, this`writtenLength
      ensures (Current(), output) == SendBody(old(Current()), space, room, offer)
    {
      hide SendRead, ReadLength;
      output := [];
      var outLen := room;
      if mode.FixedLength? && sentLength <= mode.length {
        outLen := if mode.length - sentLength > room then room else mode.length - sentLength;
      }
      if mode.Chunked? && room <= 8 {
        return;
      }
      if offer.TryAgain? {
        return;
      }
      var n := ReadLength(unread, offer, if mode.Chunked? then outLen - 8 else outLen);
      output := WriteRead(space, outLen, n);
    }

    method WriteRead(space: nat, outLen: nat, n: nat) returns (output: string)
      requires n <= |unread| && (if mode.Chunked? then n + 8 <= outLen <= MAX_SPACE else n <= outLen)
      modifies this`state, this`head, this`unread, this`sentLength, this`writtenLength
      ensures (Current(), output) == SendRead(old(Current()), space, n)
    {
      hide Frame, Taken;
      output := FilledBuffer(outLen, n);
      unread := unread[n..];
      head := [];
      writtenLength := writtenLength + |Taken(output, space)|;
      sentLength := sentLength + n;
      if (mode.Chunked? && n == 0) || (mode.CloseDelimited? && |output| == 0)
         || (mode.CloseDelimited? && sentLength == 0) || (mode.FixedLength? && sentLength == mode.length) {
        state := WaitAck;
      }
    }

    /** The buffer: the head, the size of the chunk in front of the bytes read, and the end of
        the chunk behind them.  Every byte is written within the block that was allocated. */
    method FilledBuffer(outLen: nat, n: nat) returns (output: string)
      requires n <= |unread| && (if mode.Chunked? then n + 8 <= outLen <= MAX_SPACE else n <= outLen)
      ensures output == Output(mode, head, unread[..n])
    {
      hide ChunkOf, ChunkHead;
      var headLen := |head|;
      var buf := new char[outLen + headLen];
      Copy(buf, 0, head);
      ghost var withHead := buf[..headLen];
      assert withHead == head;
      if mode.Chunked? {
        Copy(buf, headLen + 6, unread[..n]);
        assert buf[..headLen] == buf[..headLen + 6][..headLen] == withHead;
        FinishChunk(buf, headLen, unread[..n]);
        output := buf[..headLen + n + 8];
      } else {
        Copy(buf, headLen, unread[..n]);
        output := buf[..headLen + n];
      }
      assert output == buf[..headLen] + buf[headLen..|output|];
    }

    /** Around the bytes of a chunk, its size and its end. */
    method FinishChunk(buf: array<char>, headLen: nat, data: string)
      requires headLen + |data| + 8 <= buf.Length && |data| <= 0xFFFF
      requires buf[headLen + 6..headLen + 6 + |data|] == data
      modifies buf
      ensures buf[..headLen] == old(buf[..headLen]) && buf[headLen..headLen + |data| + 8] == ChunkOf(data)
    {
      hide ChunkHead;
      var end := headLen + 6 + |data|;
      PrintChunkHead(buf, headLen, |data|);
      assert buf[headLen + 6..end] == buf[headLen + 6..][..|data|] == data;
      buf[end], buf[end + 1] := '\r', '\n';
      assert buf[headLen..end + 2] == buf[headLen..headLen + 6] + buf[headLen + 6..end] + buf[end..end + 2];
    }

    /** memcpy */
    method Copy(buf: array<char>, at: nat, text: string)
      requires at + |text| <= buf.Length
      modifies buf
      ensures buf[at..at + |text|] == text
      ensures buf[..at] == old(buf[..at]) && buf[at + |text|..] == old(buf[at + |text|..])
    {
      for i := 0 to |text|
        invariant buf[at..at + i] == text[..i]
        invariant buf[..at] == old(buf[..at]) && buf[at + |text|..] == old(buf[at + |text|..])
      {
        buf[at + i] := text[i];
      }
    }

    method PrintChunkHead(buf: array<char>, headLen: nat, n: nat)
      requires headLen + 6 <= buf.Length && n <= 0xFFFF
      modifies buf
      ensures buf[headLen..headLen + 6] == ChunkHead(n)
      ensures buf[..headLen] == old(buf[..headLen]) && buf[headLen + 6..] == old(buf[headLen + 6..])
    {
      var digits := Hex(n);
      HexDigits(n);
      forall i | 0 <= i < |digits| {
        buf[headLen + i] := digits[i];
      }
      var at := headLen + |digits|;
      while at < headLen + 4
        invariant headLen + |digits| <= at <= headLen + 4
        invariant forall i :: headLen + |digits| <= i < at ==> buf[i] == ' '
        invariant buf[headLen..headLen + |digits|] == digits
        invariant buf[..headLen] == old(buf[..headLen]) && buf[headLen + 6..] == old(buf[headLen + 6..])
      {
        buf[at] := ' ';
        at := at + 1;
      }
      buf[at], buf[at + 1] := '\r', '\n';
      assert buf[headLen..headLen + 6] == digits + Spaces(4 - |digits|) + "\r\n";
    }
  }

  function NewResponse(mode: Mode, head: string, body: string): Response {
    Response(mode, Headers, head, body, 0, 0, 0)
  }
}
