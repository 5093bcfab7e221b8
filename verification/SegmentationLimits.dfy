/** Where segmentation independence ends, and which requests are regular. */
module SegmentationLimits {
  import opened Sequences
  import opened ArduinoString
  import opened WebRequest
  import opened Segmentation

  // ---------------------------------------------------------------- regular requests

  /** A body of at most the announced length, not multipart and not text/plain, is regular. */
  lemma {:induction false} RegularBody(route: Router, r: Request, body: string)
    requires RequestOk(r) && r.state.ReqBody? && !r.head.isMultipart
    requires BodyKindOf(r.head.contentType) != TextPlain
    requires r.parsedLength + |body| <= r.contentLength
    ensures Regular(route, r, body)
    decreases |body|
  {
    if body != [] {
      FormKeeps(r, BodyKindOf(r.head.contentType), [body[0]]);
      if |body| > 1 {
        RegularBody(route, FeedBody(r, [body[0]]), body[1..]);
      }
    }
  }

  // ---------------------------------------------------------------- the end of a multipart body

  /** The length at which the parser ends a body: the announced one, unless a closing
      delimiter of a multipart body comes first, which moves the end to 4 bytes behind. */
  function SettledLength(r: Request, body: string): nat {
    if r.head.isMultipart && r.handler == Parsing
    then FeedMultipart(MultipartOf(r), body[..Min(|body|, Minus(r.contentLength, r.parsedLength))]).contentLength
    else r.contentLength
  }

  /** Only the closing delimiter moves the end, and only once. */
  lemma StepMovesEnd(m: Multipart, data: char, last: bool)
    ensures var next := MultipartStep(m, data, last);
      next.contentLength == m.contentLength
      || (next.contentLength == m.parsedLength + 4 && next.item.state == ParsingFinished)
    ensures m.parsedLength > 0 && m.item.state == ParsingFinished ==>
      MultipartStep(m, data, last) == m.(parsedLength := m.parsedLength + 1)
  {
  }

  lemma {:induction false} FinishedStays(m: Multipart, data: string)
    requires m.parsedLength > 0 && m.item.state == ParsingFinished
    ensures FeedMultipart(m, data).contentLength == m.contentLength
    decreases |data|
  {
    hide MultipartStep;
    if data != [] {
      StepMovesEnd(m, data[0], |data| == 1);
      FinishedStays(MultipartStep(m, data[0], |data| == 1), data[1..]);
    }
  }

  /** One byte of a body that the multipart parser reads. */
  lemma ParsedByte(route: Router, r: Request, b: char)
    requires RequestOk(r) && r.state.ReqBody? && r.head.isMultipart && r.handler == Parsing
    ensures var m := MultipartStep(MultipartOf(r), b, true);
      var one := WithMultipart(r, m);
      && MultipartOf(one) == m && RequestOk(one) && one.state.ReqBody? && one.head == r.head
      && one.handler == r.handler && one.parsedLength == r.parsedLength + 1
      && OnData(route, r, [b]) == (if one.parsedLength == one.contentLength then Handle(one) else one)
  {
    hide MultipartStep;
    var m := MultipartOf(r);
    assert FeedMultipart(m, [b]) == MultipartStep(m, b, true) by {
      assert [b][1..] == [];
    }
    StepAdvances(m, b, true);
    FeedBodyKeeps(r, [b]);
    assert FeedBody(r, [b]) == WithMultipart(r, MultipartStep(m, b, true));
    assert OnData(route, r, [b]) == OnBody(r, [b]);
  }

  lemma FeedFirst(m: Multipart, b: char, more: string)
    requires MultipartOk(m)
    ensures FeedMultipart(m, [b] + more).contentLength == FeedMultipart(MultipartStep(m, b, true), more).contentLength
  {
    hide MultipartStep;
    var last := more == [];
    assert ([b] + more)[1..] == more;
    SameMultipartStep(m, m, b, last, true);
    SameFeed(MultipartStep(m, b, last), MultipartStep(m, b, true), more);
  }

  lemma FirstBytes(b: char, rest: string, n: nat)
    requires 1 <= n <= 1 + |rest|
    ensures ([b] + rest)[..n] == [b] + rest[..n - 1]
  {
  }

  /** What the next byte leaves of the settled length. */
  lemma SettledAfter(r: Request, b: char, rest: string)
    requires RequestOk(r) && r.head.isMultipart && r.handler == Parsing && r.parsedLength < r.contentLength
    ensures var one := WithMultipart(r, MultipartStep(MultipartOf(r), b, true));
      && one.parsedLength <= one.contentLength
      && SettledLength(r, [b] + rest) == SettledLength(one, rest)
  {
    hide MultipartStep, FeedMultipart, MultipartOk;
    var m, n := MultipartOf(r), Min(1 + |rest|, r.contentLength - r.parsedLength);
    var next := MultipartStep(m, b, true);
    StepMovesEnd(m, b, true);
    StepAdvances(m, b, true);
    FirstBytes(b, rest, n);
    FeedFirst(m, b, rest[..n - 1]);
    assert SettledLength(r, [b] + rest) == FeedMultipart(next, rest[..n - 1]).contentLength;
    var one := WithMultipart(r, next);
    assert MultipartOf(one) == next;
    if next.contentLength != m.contentLength {
      FinishedStays(next, rest[..n - 1]);
      FinishedStays(next, rest[..Min(|rest|, 3)]);
    }
  }

  /** A multipart body is regular exactly if it does not go beyond the settled length. */
  lemma {:induction false} RegularMultipart(route: Router, r: Request, body: string)
    requires RequestOk(r) && r.state.ReqBody? && r.head.isMultipart && r.parsedLength < r.contentLength
    ensures Regular(route, r, body) <==> r.parsedLength + |body| <= SettledLength(r, body)
    decreases |body|
  {
    hide MultipartStep, SettledLength;
    if body == [] {
      EmptySettled(r);
    } else {
      var b, rest := body[0], body[1..];
      assert body == [b] + rest;
      var one := OneByte(route, r, b, rest);
      if one.parsedLength == one.contentLength {
        CompleteSettled(one, rest);
        if rest != [] {
          assert !RegularByte(Handle(one), rest[0]);
        }
      } else {
        RegularMultipart(route, one, rest);
      }
    }
  }

  lemma EmptySettled(r: Request)
    requires r.parsedLength <= r.contentLength
    ensures SettledLength(r, []) == r.contentLength
  {
  }

  lemma CompleteSettled(r: Request, rest: string)
    requires r.parsedLength == r.contentLength
    ensures SettledLength(r, rest) == r.contentLength
  {
    assert rest[..0] == [];
  }

  lemma OneByte(route: Router, r: Request, b: char, rest: string) returns (one: Request)
    requires RequestOk(r) && r.state.ReqBody? && r.head.isMultipart && r.parsedLength < r.contentLength
    ensures RequestOk(one) && one.state.ReqBody? && one.head == r.head
    ensures one.parsedLength == r.parsedLength + 1 <= one.contentLength
    ensures OnData(route, r, [b]) == if one.parsedLength == one.contentLength then Handle(one) else one
    ensures SettledLength(r, [b] + rest) == SettledLength(one, rest)
  {
    if r.handler == Parsing {
      hide MultipartStep, SettledLength, OnData, WithMultipart;
      ParsedByte(route, r, b);
      SettledAfter(r, b, rest);
      one := WithMultipart(r, MultipartStep(MultipartOf(r), b, true));
    } else {
      one := r.(parsedLength := r.parsedLength + 1);
    }
  }

  /** Byte by byte, an irregular multipart body ends before its last byte. */
  lemma {:induction false} EndsBefore(route: Router, r: Request, body: string)
    requires RequestOk(r) && r.state.ReqBody? && r.head.isMultipart && r.parsedLength < r.contentLength
    requires r.parsedLength + |body| > SettledLength(r, body)
    ensures Bytes(route, r, body).parsedLength < r.parsedLength + |body|
    decreases |body|
  {
    hide SettledLength, OnData;
    if body == [] {
      EmptySettled(r);
    } else {
      var b, rest := body[0], body[1..];
      assert body == [b] + rest;
      var one := OneByte(route, r, b, rest);
      if one.parsedLength == one.contentLength {
        CompleteSettled(one, rest);
        Ignored(route, Handle(one), rest);
      } else {
        EndsBefore(route, one, rest);
      }
    }
  }

  lemma BytesKeepOk(route: Router, r: Request, data: string)
    requires RequestOk(r)
    ensures RequestOk(Bytes(route, r, data))
  {
    SameBytes(route, r, r, data);
  }

  // ---------------------------------------------------------------- bodies, exactly

  /** The state at the start of a body. */
  predicate AtBody(r: Request) {
    && r.state.ReqBody? && r.contentLength != 0 && r.parsedLength == 0
    && !r.isPlainPost && r.bodies == [] && r.item == NEW_ITEM
  }

  /** The cut of a body into single bytes. */
  function Singles(data: string): seq<Segment> {
    if data == [] then [] else [[data[0]]] + Singles(data[1..])
  }

  lemma {:induction false} SinglesFlatten(data: string)
    ensures Flatten(Singles(data)) == data
    decreases |data|
  {
    if data != [] {
      SinglesFlatten(data[1..]);
      assert Singles(data)[1..] == Singles(data[1..]);
    }
  }

  lemma {:induction false} SinglesRun(route: Router, r: Request, data: string)
    ensures OnSegments(route, r, Singles(data)) == Bytes(route, r, data)
    decreases |data|
  {
    if data != [] {
      SinglesRun(route, OnData(route, r, [data[0]]), data[1..]);
      assert Singles(data)[1..] == Singles(data[1..]);
    }
  }

  /** Byte by byte, a body ends with the byte that completes its length. */
  lemma {:induction false} SinglesEnd(route: Router, r: Request, body: string)
    requires RequestOk(r) && r.state.ReqBody? && !r.head.isMultipart
    requires r.parsedLength < r.contentLength <= r.parsedLength + |body|
    ensures Bytes(route, r, body).state.ReqEnd?
    decreases |body|
  {
    var one := FeedBody(r, [body[0]]);
    FormKeeps(r, BodyKindOf(r.head.contentType), [body[0]]);
    if one.parsedLength == r.contentLength {
      Ignored(route, Handle(one), body[1..]);
    } else {
      SinglesEnd(route, one, body[1..]);
    }
  }

  lemma {:induction false} ParamCharsOfPrefix(data: string, more: string)
    ensures LooksLikeForm(data) ==> LooksLikeForm(data + more)
    ensures ParamChars(data) < |data| ==> ParamChars(data + more) == ParamChars(data)
    decreases |data|
  {
    if data != [] {
      assert (data + more)[1..] == data[1..] + more;
      ParamCharsOfPrefix(data[1..], more);
    }
  }

  /** A segment of the body goes to the handler as it is. */
  function Passed(r: Request, data: string): Request {
    r.(bodies := if r.handler == NoHandler then r.bodies
                 else r.bodies + [BodyChunk(data, r.parsedLength, r.contentLength)],
       parsedLength := r.parsedLength + |data|)
  }

  /** The next segment will not turn the body into a form. */
  predicate StaysRaw(r: Request, data: string) {
    && !r.head.isMultipart && !r.isPlainPost
    && var kind := BodyKindOf(r.head.contentType);
    r.parsedLength != 0 || kind == Other || (kind == TextPlain && !LooksLikeForm(data))
  }

  lemma PassedOn(r: Request, first: Segment, rest: string)
    requires StaysRaw(r, first + rest)
    ensures FeedBody(r, first) == Passed(r, first)
  {
    ParamCharsOfPrefix(first, rest);
    assert SniffPost(r, BodyKindOf(r.head.contentType), first) == r;
  }

  /** What of a body gets to the handler. */
  function Given(handler: Handler, data: string): string {
    if handler == NoHandler then [] else data
  }

  /** What is observed after a raw body came in. */
  ghost function Expected(r: Request, all: string): Observed {
    Observed(FieldsAt(r, r.parsedLength + |all|), Observe(r).uploads, Joined(r.bodies) + Given(r.handler, all))
  }

  ghost function FieldsAt(r: Request, parsedLength: nat): Request {
    Observe(EndOfBody(r.(parsedLength := parsedLength))).fields
  }

  lemma PassedFields(r: Request, first: string, n: nat)
    ensures FieldsAt(Passed(r, first), n) == FieldsAt(r, n)
    ensures Observe(Passed(r, first)).uploads == Observe(r).uploads
  {
    hide Collect, Joined;
  }

  lemma PassedBodies(r: Request, first: string, rest: string)
    ensures Joined(Passed(r, first).bodies) + Given(r.handler, rest)
      == Joined(r.bodies) + Given(r.handler, first + rest)
  {
    if r.handler != NoHandler {
      var chunk := BodyChunk(first, r.parsedLength, r.contentLength);
      assert (r.bodies + [chunk])[..|r.bodies|] == r.bodies;
    }
  }

  lemma ExpectedAfter(r: Request, first: string, rest: string)
    ensures Expected(Passed(r, first), rest) == Expected(r, first + rest)
  {
    hide Observe, FieldsAt, Joined, Given;
    PassedFields(r, first, r.parsedLength + |first + rest|);
    PassedBodies(r, first, rest);
  }

  lemma NothingMore(r: Request)
    ensures Observe(EndOfBody(r)) == Expected(r, [])
  {
    hide Collect, Joined;
    assert Joined(r.bodies) + Given(r.handler, []) == Joined(r.bodies);
  }

  /** The first of several segments is passed on, and the rest stays raw. */
  lemma PassedFirst(route: Router, r: Request, first: Segment, rest: string)
    requires RequestOk(r) && r.state.ReqBody? && StaysRaw(r, first + rest)
    ensures var f := Passed(r, first);
      && OnData(route, r, first) == EndOfBody(f)
      && RequestOk(f) && f.state.ReqBody? && f.contentLength == r.contentLength
      && f.parsedLength == r.parsedLength + |first| && StaysRaw(f, rest)
  {
    hide FeedBody, RequestOk, LooksLikeForm;
    PassedOn(r, first, rest);
    FeedBodyKeeps(r, first);
  }

  /** A body handed over as it comes: the segments only show in the sizes of the chunks. */
  lemma {:induction false} HandedOver(route: Router, r: Request, segments: seq<Segment>)
    requires RequestOk(r) && r.state.ReqBody? && r.parsedLength < r.contentLength
    requires r.parsedLength + |Flatten(segments)| <= r.contentLength
    requires StaysRaw(r, Flatten(segments))
    ensures Observe(OnSegments(route, r, segments)) == Expected(r, Flatten(segments))
    decreases |segments|
  {
    hide Observe, Expected, OnData, Passed, StaysRaw, RequestOk;
    if segments == [] {
      NothingMore(r);
    } else {
      var first, rest := segments[0], Flatten(segments[1..]);
      PassedFirst(route, r, first, rest);
      var f := Passed(r, first);
      ExpectedAfter(r, first, rest);
      if f.parsedLength == r.contentLength {
        EmptyFlatten(segments[1..]);
        NothingMore(f);
      } else {
        HandedOver(route, f, segments[1..]);
      }
    }
  }

  lemma EmptyFlatten(segments: seq<Segment>)
    ensures Flatten(segments) == [] ==> segments == []
  {
  }

  /** A text/plain body that looks like a form when it comes in one piece. */
  predicate Sniffed(r: Request, body: string) {
    !r.head.isMultipart && BodyKindOf(r.head.contentType) == TextPlain && LooksLikeForm(body)
  }

  /** For every body: the outcome is independent of the cut exactly if the body does not go
      beyond the length on which the parser settles, and is not a text/plain body that looks
      like a form when it comes in one piece. */
  lemma BodyCutsAgreeExactly(route: Router, r: Request, body: string)
    requires AtBody(r)
    ensures (forall a: seq<Segment>, b: seq<Segment> :: Flatten(a) == body && Flatten(b) == body ==>
              Observe(OnSegments(route, r, a)) == Observe(OnSegments(route, r, b)))
       <==> |body| <= SettledLength(r, body) && !Sniffed(r, body)
  {
    hide SettledLength;
    if |body| > SettledLength(r, body) {
      var a, b := OverrunDisagrees(route, r, body);
    } else if Sniffed(r, body) {
      var a, b := SniffDisagrees(route, r, body);
    } else {
      forall a: seq<Segment>, b: seq<Segment> | Flatten(a) == body && Flatten(b) == body
        ensures Observe(OnSegments(route, r, a)) == Observe(OnSegments(route, r, b))
      {
        CutsAgree(route, r, body, a, b);
      }
    }
  }

  lemma CutsAgree(route: Router, r: Request, body: string, a: seq<Segment>, b: seq<Segment>)
    requires AtBody(r) && |body| <= SettledLength(r, body) && !Sniffed(r, body)
    requires Flatten(a) == body && Flatten(b) == body
    ensures Observe(OnSegments(route, r, a)) == Observe(OnSegments(route, r, b))
  {
    if r.head.isMultipart || BodyKindOf(r.head.contentType) == UrlEncoded {
      if r.head.isMultipart {
        RegularMultipart(route, r, body);
      } else {
        RegularBody(route, r, body);
      }
      SegmentsAsBytes(route, r, a);
      SegmentsAsBytes(route, r, b);
    } else {
      HandedOver(route, r, a);
      HandedOver(route, r, b);
    }
  }

  lemma OneSegment(route: Router, r: Request, body: Segment)
    ensures Flatten([body]) == body && OnSegments(route, r, [body]) == OnData(route, r, body)
  {
  }

  lemma OverrunDisagrees(route: Router, r: Request, body: string) returns (a: seq<Segment>, b: seq<Segment>)
    requires AtBody(r) && |body| > SettledLength(r, body)
    ensures Flatten(a) == body && Flatten(b) == body
    ensures Observe(OnSegments(route, r, a)) != Observe(OnSegments(route, r, b))
  {
    a, b := [body], Singles(body);
    OneSegment(route, r, body);
    SinglesFlatten(body);
    SinglesRun(route, r, body);
    FeedBodyKeeps(r, body);
    if r.head.isMultipart {
      EndsBefore(route, r, body);
      assert Observe(OnData(route, r, body)).fields.parsedLength == |body|;
    } else {
      FormKeeps(r, BodyKindOf(r.head.contentType), body);
      SinglesEnd(route, r, body);
    }
  }

  lemma FormIsLong(body: string)
    requires LooksLikeForm(body)
    ensures |body| > 2
  {
  }

  /** In one piece the body is taken for a form. */
  lemma SniffedWhole(route: Router, r: Request, body: Segment)
    requires AtBody(r) && Sniffed(r, body)
    ensures OnData(route, r, body).isPlainPost
  {
  }

  /** Behind a first segment of one byte it is not. */
  lemma NotSniffedLater(route: Router, r: Request, b: char, rest: Segment)
    requires AtBody(r) && !r.head.isMultipart && BodyKindOf(r.head.contentType) == TextPlain
    ensures !OnData(route, OnData(route, r, [b]), rest).isPlainPost
  {
    assert !LooksLikeForm([b]);
  }

  lemma SniffDisagrees(route: Router, r: Request, body: string) returns (a: seq<Segment>, b: seq<Segment>)
    requires AtBody(r) && Sniffed(r, body)
    ensures Flatten(a) == body && Flatten(b) == body
    ensures Observe(OnSegments(route, r, a)) != Observe(OnSegments(route, r, b))
  {
    hide LooksLikeForm, OnData, Observe, BodyKindOf, OnSegments;
    FormIsLong(body);
    OneSegment(route, r, body);
    SniffedWhole(route, r, body);
    NotSniffedLater(route, r, body[0], body[1..]);
    TwoSegments(route, r, [body[0]], body[1..]);
    assert [body[0]] + body[1..] == body;
    a, b := [body], [[body[0]], body[1..]];
    DifferentForms(OnSegments(route, r, a), OnSegments(route, r, b));
  }

  lemma DifferentForms(r1: Request, r2: Request)
    requires r1.isPlainPost != r2.isPlainPost
    ensures Observe(r1) != Observe(r2)
  {
    assert Observe(r1).fields.isPlainPost == r1.isPlainPost && Observe(r2).fields.isPlainPost == r2.isPlainPost;
  }

  lemma TwoSegments(route: Router, r: Request, first: Segment, rest: Segment)
    ensures Flatten([first, rest]) == first + rest
    ensures OnSegments(route, r, [first, rest]) == OnData(route, OnData(route, r, first), rest)
  {
    assert [first, rest][1..] == [rest];
    OneSegment(route, OnData(route, r, first), rest);
  }

  // ---------------------------------------------------------------- NUL in the head

  lemma {:induction false} CStringCuts(text: string)
    ensures '\0' in text ==> |CString(text)| < |text|
  {
    if text != [] && text[0] != '\0' {
      assert text == [text[0]] + text[1..];
      CStringCuts(text[1..]);
    }
  }

  lemma Appended(temp: string, data: string)
    requires data != []
    ensures var n := |data| - 1;
      temp + CString(data[..n]) + [data[n]] == temp + data <==> '\0' !in data[..n]
  {
    var n := |data| - 1;
    CStringCuts(data[..n]);
    assert data == data[..n] + [data[n]];
    assert temp + data[..n] + [data[n]] == temp + data;
  }

  /** What a segment without line end adds to the line. */
  lemma HeadSegment(route: Router, r: Request, data: Segment)
    requires InHead(r) && '\n' !in data
    ensures var n := |data| - 1;
      && OnData(route, r, data) == r.(temp := r.temp + CString(data[..n]) + [data[n]])
      && ('\0' !in data[..n] <==> OnData(route, r, data) == r.(temp := r.temp + data))
  {
    hide CString;
    Appended(r.temp, data);
  }

  /** Byte by byte every character is taken, a NUL as well. */
  lemma {:induction false} LineBytes(route: Router, r: Request, line: string)
    requires InHead(r) && '\n' !in line
    ensures Bytes(route, r, line) == r.(temp := r.temp + line)
    decreases |line|
  {
    if line == [] {
      assert r.temp + [] == r.temp;
    } else {
      HeadSegment(route, r, [line[0]]);
      LineBytes(route, r.(temp := r.temp + [line[0]]), line[1..]);
      assert r.temp + [line[0]] + line[1..] == r.temp + line;
    }
  }

  predicate NulFreeButLast(line: string) {
    line == [] || '\0' !in line[..|line| - 1]
  }

  lemma NulFreeParts(first: string, rest: string)
    requires first != [] && NulFreeButLast(first + rest)
    ensures NulFreeButLast(first) && NulFreeButLast(rest)
  {
    var before := (first + rest)[..|first + rest| - 1];
    forall i | 0 <= i < |first| - 1 ensures first[i] != '\0' {
      assert before[i] == first[i];
    }
    forall i | 0 <= i < |rest| - 1 ensures rest[i] != '\0' {
      assert before[|first| + i] == rest[i];
    }
  }

  lemma {:induction false} LineSegments(route: Router, r: Request, segments: seq<Segment>)
    requires InHead(r) && '\n' !in Flatten(segments) && NulFreeButLast(Flatten(segments))
    ensures OnSegments(route, r, segments) == r.(temp := r.temp + Flatten(segments))
    decreases |segments|
  {
    hide OnData;
    if segments == [] {
      assert r.temp + [] == r.temp;
    } else {
      var first, rest := segments[0], Flatten(segments[1..]);
      NulFreeParts(first, rest);
      HeadSegment(route, r, first);
      LineSegments(route, r.(temp := r.temp + first), segments[1..]);
      assert r.temp + first + rest == r.temp + (first + rest);
    }
  }

  /** A NUL in a segment hides the characters behind it from the line, except for the last one
      of the segment.  For a part of the head without line end, all cuts give the same state
      if and only if it has no NUL in front of its last character. */
  lemma NulInHeadDependsOnTheCut(route: Router, r: Request, line: string)
    requires InHead(r) && '\n' !in line
    ensures (forall a: seq<Segment>, b: seq<Segment> :: Flatten(a) == line && Flatten(b) == line ==>
              OnSegments(route, r, a) == OnSegments(route, r, b))
       <==> NulFreeButLast(line)
  {
    if NulFreeButLast(line) {
      forall a: seq<Segment>, b: seq<Segment> | Flatten(a) == line && Flatten(b) == line
        ensures OnSegments(route, r, a) == OnSegments(route, r, b)
      {
        LineSegments(route, r, a);
        LineSegments(route, r, b);
      }
    } else {
      OneSegment(route, r, line);
      HeadSegment(route, r, line);
      SinglesFlatten(line);
      SinglesRun(route, r, line);
      LineBytes(route, r, line);
      var a, b := [line], Singles(line);
    }
  }

  /** What the segments of a line with its end add to the line: the last one ends with the
      newline, in front of which a NUL hides every character behind it. */
  function Collected(segments: seq<Segment>): string {
    if segments == [] then []
    else
      var data := segments[0];
      var n := |data| - 1;
      CString(data[..n]) + (if segments[1..] == [] then [] else [data[n]] + Collected(segments[1..]))
  }

  lemma EndOfLine(data: Segment, line: string)
    requires data == line + ['\n'] && '\n' !in line
    ensures IndexOf(data, '\n') == |line| && data[..|line|] == line
  {
    var k := IndexOf(data, '\n');
    assert data[|line|] == '\n' && forall i :: 0 <= i < |line| ==> data[i] == line[i];
  }

  /** The first segment of a line with its end. */
  lemma FirstOfLine(line: string, first: string, rest: string)
    requires first != [] && first + rest == line + ['\n']
    ensures rest == [] ==> first == line + ['\n'] && first[..|first| - 1] == line
    ensures rest != [] ==> |first| <= |line| && first == line[..|first|] && rest == line[|first|..] + ['\n']
  {
    var data := line + ['\n'];
    assert first == data[..|first|] && rest == data[|first|..];
    if rest != [] {
      assert data[..|first|] == line[..|first|];
      assert data[|first|..] == line[|first|..] + ['\n'];
    } else {
      assert first + [] == first;
    }
  }

  /** The text that the parser gets for the line. */
  lemma {:induction false} LineCollects(route: Router, r: Request, line: string, segments: seq<Segment>)
    requires InHead(r) && '\n' !in line && Flatten(segments) == line + ['\n']
    ensures OnSegments(route, r, segments) == ParseLine(route, r.(temp := Trim(r.temp + Collected(segments))))
    decreases |segments|
  {
    hide OnData, ParseLine, Trim, CString;
    var first, rest := segments[0], Flatten(segments[1..]);
    var n := |first| - 1;
    FirstOfLine(line, first, rest);
    EmptyFlatten(segments[1..]);
    if segments[1..] == [] {
      WholeLine(route, r, line, first);
      assert Collected(segments) == CString(line) + [] == CString(line);
      assert OnSegments(route, r, segments) == OnData(route, r, first);
    } else {
      HeadSegment(route, r, first);
      var next := r.(temp := r.temp + CString(first[..n]) + [first[n]]);
      LineCollects(route, next, line[|first|..], segments[1..]);
      Regroup(r.temp, CString(first[..n]), [first[n]], Collected(segments[1..]));
    }
  }

  lemma WholeLine(route: Router, r: Request, line: string, data: Segment)
    requires InHead(r) && '\n' !in line && data == line + ['\n']
    ensures OnData(route, r, data) == ParseLine(route, r.(temp := Trim(r.temp + CString(line))))
  {
    hide ParseLine, Trim, CString;
    EndOfLine(data, line);
  }

  lemma Regroup(a: string, b: string, c: string, d: string)
    ensures a + b + c + d == a + (b + (c + d))
  {
  }

  lemma NulFreeFirst(line: string, first: string)
    requires '\0' !in line && first != []
    ensures first == line + ['\n'] ==> CString(first[..|first| - 1]) + [] == line
    ensures |first| <= |line| && first == line[..|first|] ==>
      CString(first[..|first| - 1]) + ([first[|first| - 1]] + line[|first|..]) == line
  {
    var n := |first| - 1;
    if first == line + ['\n'] {
      assert first[..n] == line && line + [] == line;
    }
    if |first| <= |line| && first == line[..|first|] {
      assert first[..n] == line[..n] && CString(line[..n]) == line[..n];
      assert line == line[..n] + ([line[n]] + line[|first|..]);
    }
  }

  /** Without NUL every cut collects the line. */
  lemma {:induction false} NulFreeCollects(line: string, segments: seq<Segment>)
    requires '\0' !in line && Flatten(segments) == line + ['\n']
    ensures Collected(segments) == line
    decreases |segments|
  {
    hide CString;
    var first, rest := segments[0], Flatten(segments[1..]);
    FirstOfLine(line, first, rest);
    EmptyFlatten(segments[1..]);
    NulFreeFirst(line, first);
    if segments[1..] != [] {
      NulFreeCollects(line[|first|..], segments[1..]);
    }
  }

  /** Byte by byte a NUL is collected like every other character. */
  lemma {:induction false} SinglesCollect(line: string)
    ensures Collected(Singles(line + ['\n'])) == line
    decreases |line|
  {
    var data := line + ['\n'];
    assert CString([]) == [] && data[0..1][..0] == [];
    assert Singles(data)[1..] == Singles(data[1..]);
    if line == [] {
      assert data[1..] == [];
    } else {
      assert data[1..] == line[1..] + ['\n'];
      SinglesCollect(line[1..]);
      assert line == [] + ([line[0]] + line[1..]);
    }
  }

  lemma OneLine(data: Segment)
    ensures Flatten([data]) == data && Collected([data]) == CString(data[..|data| - 1])
  {
    assert [data][1..] == [];
  }

  /** All cuts of a line with its end give the parser the same text if and only if the line has
      no NUL. */
  lemma NulInLineDependsOnTheCut(line: string)
    ensures (forall a: seq<Segment>, b: seq<Segment> ::
               Flatten(a) == line + ['\n'] && Flatten(b) == line + ['\n'] ==> Collected(a) == Collected(b))
      <==> '\0' !in line
  {
    if '\0' !in line {
      forall a: seq<Segment>, b: seq<Segment> | Flatten(a) == line + ['\n'] && Flatten(b) == line + ['\n']
        ensures Collected(a) == Collected(b)
      {
        NulFreeCollects(line, a);
        NulFreeCollects(line, b);
      }
    } else {
      var data := line + ['\n'];
      var a: seq<Segment>, b: seq<Segment> := [data], Singles(data);
      assert data[..|line|] == line;
      CStringCuts(line);
      SinglesCollect(line);
      SinglesFlatten(data);
      OneLine(data);
      assert |Collected(a)| < |Collected(b)|;
    }
  }
}
