/** Bodies that are not multipart: handed to the handler segment by segment, or read as a form
    because their first segment looks like one (WebRequest.cpp:124-172). */
module PlainBodies {
  import opened Sequences
  import opened ArduinoString
  import opened WebRequest
  import opened Segmentation
  import opened SegmentationLimits
  import opened FormData
  import opened MultipartBody
  import opened WholeRequests
  import opened KnownHeaders
  import opened RequestHead

  // ---------------------------------------------------------------- a body as it comes

  /** Every segment is a call of its own, with its place in the body and the announced length. */
  ghost predicate AsTheyCame(chunks: seq<BodyChunk>, segments: seq<Segment>, at: nat, total: nat) {
    && |chunks| == |segments|
    && forall i :: 0 <= i < |chunks| ==> chunks[i] == BodyChunk(segments[i], at + |Flatten(segments[..i])|, total)
  }

  lemma CameMore(first: Segment, segments: seq<Segment>, chunks: seq<BodyChunk>, at: nat, total: nat)
    requires AsTheyCame(chunks, segments, at + |first|, total)
    ensures AsTheyCame([BodyChunk(first, at, total)] + chunks, [first] + segments, at, total)
  {
    var all := [first] + segments;
    forall i | 0 < i < |all|
      ensures |Flatten(all[..i])| == |first| + |Flatten(segments[..i - 1])|
    {
      assert all[..i][1..] == segments[..i - 1];
    }
  }

  lemma RawSegment(route: Router, r: Request, data: Segment)
    requires r.state.ReqBody? && !r.head.isMultipart && !r.isPlainPost && r.handler != NoHandler
    requires r.parsedLength != 0 || BodyKindOf(r.head.contentType) == Other
    ensures OnData(route, r, data)
      == EndOfBody(r.(bodies := r.bodies + [BodyChunk(data, r.parsedLength, r.contentLength)],
                      parsedLength := r.parsedLength + |data|))
  {
    hide EndOfBody;
    assert SniffPost(r, BodyKindOf(r.head.contentType), data) == r;
  }

  lemma {:induction false} RawSegments(route: Router, r: Request, segments: seq<Segment>)
    requires r.state.ReqBody? && !r.head.isMultipart && !r.isPlainPost && r.handler != NoHandler
    requires r.parsedLength != 0 || BodyKindOf(r.head.contentType) == Other
    requires r.parsedLength < r.contentLength == r.parsedLength + |Flatten(segments)|
    ensures var end := OnSegments(route, r, segments);
      && end == r.(state := ReqEnd, handled := r.handled + 1, parsedLength := r.contentLength, bodies := end.bodies)
      && r.bodies <= end.bodies
      && AsTheyCame(end.bodies[|r.bodies|..], segments, r.parsedLength, r.contentLength)
    decreases |segments|
  {
    hide AsTheyCame, BodyKindOf, OnData;
    var first, rest := segments[0], segments[1..];
    var chunk := BodyChunk(first, r.parsedLength, r.contentLength);
    var next := r.(bodies := r.bodies + [chunk], parsedLength := r.parsedLength + |first|);
    RawSegment(route, r, first);
    assert segments == [first] + rest;
    if Flatten(rest) == [] {
      EmptyFlatten(rest);
      NothingCame(next.parsedLength, r.contentLength);
      CameMore(first, [], [], r.parsedLength, r.contentLength);
      assert next.bodies[|r.bodies|..] == [chunk] + [];
    } else {
      RawSegments(route, next, rest);
      var end := OnSegments(route, next, rest);
      CameMore(first, rest, end.bodies[|next.bodies|..], r.parsedLength, r.contentLength);
      assert end.bodies[|r.bodies|..] == [chunk] + end.bodies[|next.bodies|..];
    }
  }

  lemma NothingCame(at: nat, total: nat)
    ensures AsTheyCame([], [], at, total)
  {
  }

  /** A body of a type that the server does not read goes to the handler as it comes, segment
      by segment, and the request is handled once it is complete. */
  lemma RawBody(route: Router, r: Request, segments: seq<Segment>)
    requires AtBody(r) && !r.head.isMultipart && r.handler != NoHandler
    requires BodyKindOf(r.head.contentType) == Other && |Flatten(segments)| == r.contentLength
    ensures var end := OnSegments(route, r, segments);
      && end.state.ReqEnd? && end.handled == r.handled + 1 && end.params == r.params && end.item == r.item
      && AsTheyCame(end.bodies, segments, 0, |Flatten(segments)|)
  {
    hide BodyKindOf, AsTheyCame;
    RawSegments(route, r, segments);
    var end := OnSegments(route, r, segments);
    assert end.bodies[0..] == end.bodies;
  }

  /** The chunks follow each other and are the body. */
  ghost predicate InOrder(chunks: seq<BodyChunk>, body: string, total: nat) {
    exists segments: seq<Segment> :: Flatten(segments) == body && AsTheyCame(chunks, segments, 0, total)
  }

  /** A content type that the server leaves to the handler. */
  predicate ForHandler(value: string, front: string) {
    BeforeSemicolon(value, front) && front != "text/plain" && !("application/x-www-form-urlencoded" <= front)
    && !("multipart/" <= value)
  }

  lemma RawHeadersDecide(r: Request, others: seq<Header>, value: string, front: string, n: nat)
    requires ForHandler(value, front) && |value| < 0x1_0000_0000 && n <= 0x7fff_ffff
    requires !r.head.isMultipart && forall h :: h in others ==> !Is(h, MultipartType)
    ensures var e := HeadersRead(r, others + [Header("Content-Type", value), LengthHeader(n)]);
      !e.head.isMultipart && BodyKindOf(e.head.contentType) == Other && e.contentLength == n
  {
    hide LengthHeader, HeadersRead, BehindEqual, Unquoted, Is, BeforeSemicolon;
    var a, b := Header("Content-Type", value), LengthHeader(n);
    var e := HeadersRead(r, others + [a, b]);
    HeadersKnown(r, others + [a, b]);
    RawKinds(value, n);
    LastAtEnd(others, a, b, BodyType);
    LastAtEnd(others, a, b, MultipartType);
    LastAtEnd(others, a, b, BodyLength);
    OnlyFront(value, e.head.contentType, front);
    LengthBack(n);
  }

  lemma RawKinds(value: string, n: nat)
    requires !("multipart/" <= value)
    ensures var a, b := Header("Content-Type", value), LengthHeader(n);
      && Is(a, BodyType) && !Is(b, BodyType) && !Is(a, MultipartType) && !Is(b, MultipartType)
      && Is(b, BodyLength) && b.value == Decimal(n)
  {
    hide Decimal;
    assert |"Content-Length"| != |"Content-Type"|;
  }

  /** The whole journey of such a message: its text, head and body cut into segments anywhere,
      gives the handler the body in order, and is handled once. */
  lemma RawMessage(route: Router, m: Message, others: seq<Header>, value: string, front: string, body: string,
                   segments: seq<Segment>)
    requires ValidMessage(m) && ForHandler(value, front) && |value| < 0x1_0000_0000
    requires 0 < |body| <= 0x7fff_ffff
    requires m.headers == others + [Header("Content-Type", value), LengthHeader(|body|)]
    requires forall h :: h in others ==> !Is(h, MultipartType)
    requires Flatten(segments) == PrintMessage(m) + body && route(Read(m)).handler != NoHandler
    ensures var end := OnSegments(route, NEW_REQUEST, segments);
      && end.state.ReqEnd? && end.handled == 1 && end.params == route(Read(m)).params
      && InOrder(end.bodies, body, |body|)
  {
    hide PrintMessage, OnSegments, Bytes, HeadOfRequest, EndOfHead, HeadersRead, LengthHeader, Is, Says, SaysLength,
      BodyKindOf, ForHandler, AsTheyCame;
    HeadRoundTrip(route, m);
    RawHeadersDecide(StartOf(m), others, value, front, |body|);
    HeadersKnown(StartOf(m), m.headers);
    RoutedExactly(route, Read(m));
    FreshRead(m);
    var rest := HeadThenBody(route, NEW_REQUEST, PrintMessage(m), body, segments);
    RawBody(route, EndOfHead(route, Read(m)), rest);
    assert InOrder(OnSegments(route, NEW_REQUEST, segments).bodies, body, |body|);
  }

  lemma FreshRead(m: Message)
    ensures var r := Read(m); r.parsedLength == 0 && !r.isPlainPost && r.bodies == [] && r.item == NEW_ITEM
  {
    HeadersKnown(StartOf(m), m.headers);
  }

  // ---------------------------------------------------------------- a form found by its look

  /** What the server takes for a form: a name of the allowed characters, '=', and at least one
      character more. */
  lemma LooksExactly(data: string)
    ensures LooksLikeForm(data) <==>
      exists n :: 0 < n && n + 1 < |data| && data[n] == '='
                  && forall i :: 0 <= i < n ==> data[i] !in {'\0', '{', '[', '&', '='}
  {
    var k := ParamChars(data);
    if n :| 0 < n && n + 1 < |data| && data[n] == '='
            && forall i :: 0 <= i < n ==> data[i] !in {'\0', '{', '[', '&', '='} {
      assert n >= k && n <= k;
    }
  }

  /** What the content type says, by its text. */
  lemma KindsOfBodies(contentType: string)
    ensures BodyKindOf(contentType) == UrlEncoded <==> "application/x-www-form-urlencoded" <= contentType
    ensures BodyKindOf(contentType) == TextPlain <==> contentType == "text/plain"
  {
    assert "application/x-www-form-urlencoded"[0] != "text/plain"[0];
  }

  lemma {:induction false} FormSegments(route: Router, r: Request, segments: seq<Segment>)
    requires r.state.ReqBody? && !r.head.isMultipart && r.isPlainPost && r.handler == Parsing
    requires r.parsedLength < r.contentLength == r.parsedLength + |Flatten(segments)|
    ensures var end, form := OnSegments(route, r, segments), FeedPlain(FormOf(r), Flatten(segments));
      end == WithForm(r, form).(state := ReqEnd, handled := r.handled + 1)
    decreases |segments|
  {
    hide FeedPlain, BodyKindOf, SniffPost;
    var first, rest := segments[0], segments[1..];
    FeedPlainAdvances(FormOf(r), first);
    FeedPlainJoin(FormOf(r), first, Flatten(rest));
    StaysForm(r, first);
    var next := WithForm(r, FeedPlain(FormOf(r), first));
    assert FormOf(next) == FeedPlain(FormOf(r), first);
    if Flatten(rest) == [] {
      EmptyFlatten(rest);
      assert first + [] == first;
    } else {
      FormSegments(route, next, rest);
    }
  }

  lemma StaysForm(r: Request, data: Segment)
    requires r.isPlainPost
    ensures SniffPost(r, BodyKindOf(r.head.contentType), data) == r
  {
  }

  /** A posted form of type text/plain is read as a form if its first segment looks like one,
      however the rest is cut. */
  lemma SniffedForm(route: Router, r: Request, fields: seq<FormData.Field>, enc: Encoder, segments: seq<Segment>)
    requires Leaves(enc) && fields != [] && forall x :: x in fields ==> IsField(x) && FormName(x.name, enc)
    requires AtBody(r) && r.handler == Parsing && r.temp == []
    requires !r.head.isMultipart && r.head.contentType == "text/plain"
    requires r.contentLength == |PrintForm(fields, enc)| && Flatten(segments) == PrintForm(fields, enc)
    requires LooksLikeForm(segments[0])
    ensures var end := OnSegments(route, r, segments);
      end.state.ReqEnd? && end.handled == r.handled + 1 && end.params == r.params + Listed(fields, true)
  {
    hide FormName, PrintForm, FeedPlain, LooksLikeForm;
    KindsOfBodies(r.head.contentType);
    var form := r.(isPlainPost := true);
    FormSegments(route, form, segments);
    PostRoundTrip(FormOf(r), fields, enc);
    assert SniffPost(r, TextPlain, segments[0]) == form == SniffPost(form, TextPlain, segments[0]);
    assert OnData(route, r, segments[0]) == OnData(route, form, segments[0]);
  }

  /** A NUL ends a pair as '&' does. */
  lemma NulEndsPair(f: Form, a: string, b: string)
    ensures FeedPlain(f, a + ['\0'] + b) == FeedPlain(f, a + ['&'] + b)
  {
    FeedPlainJoin(f, a + ['\0'], b);
    FeedPlainJoin(f, a + ['&'], b);
    FeedPlainJoin(f, a, ['\0']);
    FeedPlainJoin(f, a, ['&']);
    var g := FeedPlain(f, a);
    assert FeedPlain(g, ['\0']) == FeedPlain(g, ['&']);
  }

  /** A text that starts with a brace or bracket, or has no '=', or starts with it, is a
      parameter named "body". */
  lemma NotAPair(text: string)
    requires text != [] && (text[0] in {'{', '[', '='} || '=' !in text)
    ensures PlainParam(text) == Param("body", UrlDecode(text), true, false, 0)
  {
    BodyDecoded();
    hide UrlDecode;
    assert StartsWith(text, "{") <==> text[0] == '{';
    assert StartsWith(text, "[") <==> text[0] == '[';
  }

  lemma BodyDecoded()
    ensures UrlDecode("body") == "body"
  {
    assert "body"[1..] == "ody" && "ody"[1..] == "dy" && "dy"[1..] == "y" && "y"[1..] == [];
  }

  // ---------------------------------------------------------------- handlers that do not parse

  /** The body is not handed over either. */
  predicate NoChunks(r: Request) {
    r.head.isMultipart || r.isPlainPost || r.handler == NoHandler
    || (r.parsedLength == 0 && "application/x-www-form-urlencoded" <= r.head.contentType)
  }

  /** A handler that does not want parameters gets none, whatever the body is, and nothing of a
      multipart body or a form; the request is handled once its body is complete. */
  lemma {:induction false} UnparsedBody(route: Router, r: Request, segments: seq<Segment>)
    requires r.state.ReqBody? && r.handler != Parsing
    requires r.parsedLength < r.contentLength == r.parsedLength + |Flatten(segments)|
    ensures var end := OnSegments(route, r, segments);
      && end.state.ReqEnd? && end.handled == r.handled + 1 && end.params == r.params && end.item == r.item
      && (NoChunks(r) ==> end.bodies == r.bodies)
    decreases |segments|
  {
    hide OnData, NoChunks;
    var first, rest := segments[0], segments[1..];
    var next := UnparsedSegment(route, r, first);
    if Flatten(rest) == [] {
      EmptyFlatten(rest);
    } else {
      UnparsedBody(route, next, rest);
    }
  }

  lemma UnparsedSegment(route: Router, r: Request, data: Segment) returns (next: Request)
    requires r.state.ReqBody? && r.handler != Parsing
    ensures OnData(route, r, data) == EndOfBody(next) && next.parsedLength == r.parsedLength + |data|
    ensures next == r.(parsedLength := next.parsedLength, isPlainPost := next.isPlainPost, bodies := next.bodies)
    ensures NoChunks(r) ==> NoChunks(next) && next.bodies == r.bodies
  {
    hide EndOfBody, FeedBody, NoChunks;
    next := FeedBody(r, data);
    UnparsedBytes(r, data);
  }

  lemma UnparsedBytes(r: Request, data: Segment)
    requires r.handler != Parsing
    ensures var next := FeedBody(r, data);
      && next == r.(parsedLength := r.parsedLength + |data|, isPlainPost := next.isPlainPost, bodies := next.bodies)
      && (NoChunks(r) ==> NoChunks(next) && next.bodies == r.bodies)
  {
    hide FeedPlain, FeedMultipart, LooksLikeForm, BodyKindOf;
    KindsOfBodies(r.head.contentType);
  }

  // ---------------------------------------------------------------- a wrong opening

  /** A multipart body that does not start with its delimiter gives no field and no file. */
  lemma WrongOpening(m: Multipart, body: string)
    requires m.parsedLength == 0 && |body| >= |m.boundary| + 4
    requires !("--" + m.boundary + "\r\n" <= body)
    ensures var end := FeedMultipart(m, body);
      end.item.state.ParseError? && end.params == m.params && end.item.uploads == m.item.uploads
  {
    var k := FirstDifference("--" + m.boundary + "\r\n", body);
    hide FeedMultipart;
    OpeningRead(m, body, k);
  }

  lemma {:induction false} FirstDifference(a: string, b: string) returns (k: nat)
    requires !(a <= b) && |a| <= |b|
    ensures k < |a| && a[..k] == b[..k] && a[k] != b[k]
    decreases |a|
  {
    if a[0] != b[0] {
      k := 0;
    } else {
      assert !(a[1..] <= b[1..]) by {
        assert a == [a[0]] + a[1..] && b == [b[0]] + b[1..];
      }
      k := FirstDifference(a[1..], b[1..]);
      k := k + 1;
      assert a[..k] == [a[0]] + a[1..][..k - 1] && b[..k] == [b[0]] + b[1..][..k - 1];
    }
  }

  /** The opening of a body, up to the first byte that is wrong. */
  lemma OpeningRead(m: Multipart, body: string, k: nat)
    requires m.parsedLength == 0 && k < |m.boundary| + 4 <= |body|
    requires var opening := "--" + m.boundary + "\r\n"; opening[..k] == body[..k] && opening[k] != body[k]
    ensures var end := FeedMultipart(m, body);
      end.item.state.ParseError? && end.params == m.params && end.item.uploads == m.item.uploads
  {
    var opening := "--" + m.boundary + "\r\n";
    var at := OpeningByte(m, body, 0, k);
    FailedStays(at, body[k + 1..]);
  }

  /** The state at the first wrong byte. */
  lemma {:induction false} OpeningByte(m: Multipart, body: string, i: nat, k: nat) returns (at: Multipart)
    requires i <= k < |m.boundary| + 4 <= |body| && m.parsedLength == i && (i > 0 ==> m.item.state.ExpectBoundary?)
    requires var opening := "--" + m.boundary + "\r\n"; opening[..k] == body[..k] && opening[k] != body[k]
    ensures FeedMultipart(m, body[i..]) == FeedMultipart(at, body[k + 1..])
    ensures at.item.state.ParseError? && at.parsedLength > 0
    ensures at.params == m.params && at.item.uploads == m.item.uploads
    decreases k - i
  {
    hide FeedMultipart;
    var opening := "--" + m.boundary + "\r\n";
    var step := MultipartStep(m, body[i], |body[i..]| == 1);
    assert body[i..][0] == body[i] && body[i..][1..] == body[i + 1..];
    FedFirst(m, body[i..]);
    OpeningStep(m, body[i], |body[i..]| == 1);
    if i == k {
      at := step;
    } else {
      assert opening[..k][i] == body[..k][i];
      at := OpeningByte(step, body, i + 1, k);
    }
  }

  lemma FedFirst(m: Multipart, data: string)
    requires data != []
    ensures FeedMultipart(m, data) == FeedMultipart(MultipartStep(m, data[0], |data| == 1), data[1..])
  {
  }

  lemma OpeningStep(m: Multipart, data: char, last: bool)
    requires m.parsedLength < |m.boundary| + 4 && (m.parsedLength > 0 ==> m.item.state.ExpectBoundary?)
    ensures var opening, next := "--" + m.boundary + "\r\n", MultipartStep(m, data, last);
      && next.parsedLength == m.parsedLength + 1 && next.boundary == m.boundary
      && next.params == m.params && next.item.uploads == m.item.uploads
      && (if data != opening[m.parsedLength] then next.item.state.ParseError?
          else if m.parsedLength == |m.boundary| + 3 then next.item.state.ParseHeaders?
          else next.item.state.ExpectBoundary?)
  {
  }

  /** Behind an error nothing is read. */
  lemma {:induction false} FailedStays(m: Multipart, data: string)
    requires m.item.state.ParseError? && m.parsedLength > 0
    ensures var end := FeedMultipart(m, data);
      end.item == m.item && end.params == m.params
    decreases |data|
  {
    if data != [] {
      FailedStays(MultipartStep(m, data[0], |data| == 1), data[1..]);
    }
  }
}
