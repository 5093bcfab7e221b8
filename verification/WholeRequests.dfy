/** Requests from their first byte to their last: the head and the body may share segments
    (WebRequest.cpp:101-179). */
module WholeRequests {
  import opened Sequences
  import opened ArduinoString
  import opened WebRequest
  import opened Segmentation
  import opened SegmentationLimits
  import opened FormData
  import opened MultipartBody

  /** The head is a text without NUL that is complete with its last byte. */
  ghost predicate HeadOfRequest(route: Router, r: Request, head: string) {
    && head != [] && '\0' !in head
    && (forall k :: 0 <= k < |head| ==> InHead(Bytes(route, r, head[..k])))
    && !InHead(Bytes(route, r, head))
  }

  // ---------------------------------------------------------------- segments of the head

  /** The bytes of a line are collected. */
  lemma LineCollected(route: Router, r: Request, data: Segment)
    requires InHead(r) && '\n' !in data && '\0' !in data
    ensures OnData(route, r, data) == Bytes(route, r, data) == r.(temp := r.temp + data)
  {
    HeadBytes(route, r, data);
    var n := |data| - 1;
    assert CString(data[..n]) == data[..n];
    assert r.temp + data[..n] + [data[n]] == r.temp + data;
  }

  /** One segment: the lines in front of a position within it have the effect of their
      bytes, and the rest is treated as a segment of its own. */
  lemma {:induction false} HeadThenRest(route: Router, r: Request, data: Segment, k: nat)
    requires InHead(r) && 0 < k <= |data| && '\0' !in data[..k]
    requires forall j :: 0 <= j < k ==> InHead(Bytes(route, r, data[..j]))
    requires k < |data| ==> !InHead(Bytes(route, r, data[..k]))
    ensures OnData(route, r, data)
      == if k == |data| then Bytes(route, r, data) else OnData(route, Bytes(route, r, data[..k]), data[k..])
    decreases |data|
  {
    hide OnData, Bytes, IndexOf;
    var i := IndexOf(data, '\n');
    if i < 0 || k <= i {
      LineCollected(route, r, data[..k]);
      assert k == |data| && data[..k] == data;
    } else {
      LineRead(route, r, data, i);
      var r2 := Bytes(route, r, data[..i + 1]);
      var rest := data[i + 1..];
      if rest == [] {
        assert data[..i + 1] == data;
      } else if i + 1 < k {
        var m := k - (i + 1);
        PrefixesBehind(route, r, data, i + 1, k);
        assert data[..k] == data[..i + 1] + rest[..m] && rest[m..] == data[k..];
        BytesJoin(route, r, data[..i + 1], rest[..m]);
        assert InHead(Bytes(route, r, data[..i + 1]));
        HeadThenRest(route, r2, rest, m);
        assert k == |data| ==> rest[..m] == rest && data[..k] == data;
      }
    }
  }

  /** A line and its end. */
  lemma LineRead(route: Router, r: Request, data: Segment, i: nat)
    requires InHead(r) && i < |data| && i == IndexOf(data, '\n') && '\0' !in data[..i]
    ensures OnData(route, r, data)
      == if i + 1 == |data| then Bytes(route, r, data[..i + 1])
         else OnData(route, Bytes(route, r, data[..i + 1]), data[i + 1..])
  {
    hide ParseLine, Trim, OnBody;
    var line := data[..i];
    assert data[..i + 1] == line + ['\n'];
    BytesJoin(route, r, line, ['\n']);
    HeadBytes(route, r, line);
    LineEnd(route, r.(temp := r.temp + line));
  }

  lemma PrefixesBehind(route: Router, r: Request, data: string, from: nat, k: nat)
    requires from < k <= |data|
    requires forall j :: 0 <= j < k ==> InHead(Bytes(route, r, data[..j]))
    ensures forall j :: 0 <= j < k - from ==> InHead(Bytes(route, Bytes(route, r, data[..from]), data[from..][..j]))
  {
    forall j | 0 <= j < k - from
      ensures InHead(Bytes(route, Bytes(route, r, data[..from]), data[from..][..j]))
    {
      assert data[..from + j] == data[..from] + data[from..][..j];
      BytesJoin(route, r, data[..from], data[from..][..j]);
      assert InHead(Bytes(route, r, data[..from + j]));
    }
  }

  /** However head and body are cut, the body arrives as some cut of the body behind the
      complete head. */
  lemma {:induction false} HeadThenBody(route: Router, r: Request, head: string, body: string, segments: seq<Segment>)
    returns (rest: seq<Segment>)
    requires HeadOfRequest(route, r, head) && InHead(r)
    requires Flatten(segments) == head + body
    ensures Flatten(rest) == body
    ensures OnSegments(route, r, segments) == OnSegments(route, Bytes(route, r, head), rest)
    decreases |segments|
  {
    hide OnData, Bytes;
    assert segments != [];
    var first, later := segments[0], Flatten(segments[1..]);
    var all := head + body;
    assert first + later == all;
    if |first| < |head| {
      assert first == all[..|first|] == head[..|first|] && later == all[|first|..] == head[|first|..] + body;
      assert forall j :: 0 <= j < |first| ==> first[..j] == head[..j];
      assert first[..|first|] == first;
      HeadThenRest(route, r, first, |first|);
      var next := Bytes(route, r, first);
      var left := head[|first|..];
      assert head == first + left;
      BytesJoin(route, r, first, left);
      PrefixesBehind(route, r, head, |first|, |head|);
      assert InHead(Bytes(route, r, head[..|first|]));
      rest := HeadThenBody(route, next, left, body, segments[1..]);
    } else {
      var n := |head|;
      assert first[..n] == all[..n] == head && first[n..] + later == all[n..] == body;
      assert forall j :: 0 <= j < n ==> first[..j] == head[..j];
      HeadThenRest(route, r, first, n);
      if |first| == n {
        rest := segments[1..];
        assert first[n..] == [];
      } else {
        var second: Segment := first[n..];
        rest := [second] + segments[1..];
        assert rest[1..] == segments[1..];
      }
    }
  }

  lemma FreshInHead(r: Request)
    requires RequestOk(r) && InHead(r)
    ensures r.parsedLength == 0 && r.item == NEW_ITEM && r.bodies == [] && !r.isPlainPost
  {
  }

  lemma LineDone(route: Router, r: Request, line: string)
    requires InHead(r) && r.parsedLength == 0 && r.item == NEW_ITEM && r.bodies == [] && !r.isPlainPost
    ensures var e := ParseLine(route, r.(temp := line));
      e.state.ReqBody? ==>
        e.parsedLength == 0 && e.contentLength != 0 && e.item == NEW_ITEM && e.bodies == [] && !e.isPlainPost
        && e.temp == []
  {
    hide KnownHeader, HeaderOf, ContentLengthOf, GetParams, RequestLineOf, UrlDecode;
  }

  /** Behind the head nothing of the body has been read. */
  lemma EndOfHeadIsFresh(route: Router, r: Request, head: string)
    requires RequestOk(r) && HeadOfRequest(route, r, head)
    ensures var e := Bytes(route, r, head);
      e.state.ReqBody? ==>
        e.parsedLength == 0 && e.contentLength != 0 && e.item == NEW_ITEM && e.bodies == [] && !e.isPlainPost
        && e.temp == []
  {
    hide RequestOk, Trim, OnBody, ParseLine;
    var n := |head| - 1;
    assert head == head[..n] + [head[n]];
    BytesJoin(route, r, head[..n], [head[n]]);
    BytesKeepOk(route, r, head[..n]);
    var before := Bytes(route, r, head[..n]);
    assert InHead(before);
    assert Bytes(route, before, [head[n]]) == OnData(route, before, [head[n]]);
    FreshInHead(before);
    if head[n] == '\n' {
      LineEnd(route, before);
      LineDone(route, before, Trim(before.temp));
    }
  }

  // ---------------------------------------------------------------- requests

  /** A whole multipart request, in any segments, also ones that hold the end of the head and
      the start of the body: the fields and files are those that were printed. */
  lemma MultipartRequest(route: Router, head: string, parts: seq<Part>, segments: seq<Segment>)
    requires HeadOfRequest(route, NEW_REQUEST, head)
    requires var r := Bytes(route, NEW_REQUEST, head);
      && r.state.ReqBody? && r.head.isMultipart && r.handler == Parsing && GoodBoundary(r.head.boundary)
      && parts != [] && (forall p :: p in parts ==> Printable(r.head.boundary, p))
      && Flatten(segments) == head + PrintBody(r.head.boundary, parts)
      && r.contentLength == |PrintBody(r.head.boundary, parts)|
    ensures var r, end := Bytes(route, NEW_REQUEST, head), OnSegments(route, NEW_REQUEST, segments);
      && end.state.ReqEnd? && end.handled == r.handled + 1 && end.head == r.head
      && end.params == r.params + DeliveredAll(parts)
      && UploadsOf(parts, end.item.uploads)
  {
    hide Printable, PrintBody, GoodBoundary, UploadsOf, DeliveredAll;
    var r := Bytes(route, NEW_REQUEST, head);
    EndOfHeadIsFresh(route, NEW_REQUEST, head);
    var rest := HeadThenBody(route, NEW_REQUEST, head, PrintBody(r.head.boundary, parts), segments);
    MultipartRequestHoweverCut(route, r, parts, rest);
    var end := OnSegments(route, r, rest);
    assert end.item.uploads[0..] == end.item.uploads;
  }

  /** The same for a posted form. */
  lemma FormRequest(route: Router, head: string, fields: seq<FormData.Field>, enc: Encoder, segments: seq<Segment>)
    requires HeadOfRequest(route, NEW_REQUEST, head)
    requires Leaves(enc) && fields != [] && forall x :: x in fields ==> IsField(x) && FormName(x.name, enc)
    requires var r := Bytes(route, NEW_REQUEST, head);
      && r.state.ReqBody? && !r.head.isMultipart && r.handler == Parsing && BodyKindOf(r.head.contentType) == UrlEncoded
      && r.contentLength == |PrintForm(fields, enc)|
    requires Flatten(segments) == head + PrintForm(fields, enc)
    ensures var r, end := Bytes(route, NEW_REQUEST, head), OnSegments(route, NEW_REQUEST, segments);
      && end.state.ReqEnd? && end.handled == r.handled + 1
      && end.params == r.params + Listed(fields, true)
  {
    hide PrintForm, Listed, FormName;
    var r := Bytes(route, NEW_REQUEST, head);
    EndOfHeadIsFresh(route, NEW_REQUEST, head);
    var rest := HeadThenBody(route, NEW_REQUEST, head, PrintForm(fields, enc), segments);
    PostedFormHoweverCut(route, r, fields, enc, rest);
  }

  // ---------------------------------------------------------------- which requests depend on the cut

  /** Behind the end of a request nothing changes. */
  lemma {:induction false} NothingBehindEnd(route: Router, r: Request, segments: seq<Segment>)
    requires r.state.ReqEnd? || r.state.ReqFail?
    ensures OnSegments(route, r, segments) == r
    decreases |segments|
  {
    if segments != [] {
      NothingBehindEnd(route, r, segments[1..]);
    }
  }

  lemma HeadFirst(route: Router, r: Request, head: string, rest: seq<Segment>) returns (all: seq<Segment>)
    requires HeadOfRequest(route, r, head) && InHead(r)
    ensures Flatten(all) == head + Flatten(rest)
    ensures OnSegments(route, r, all) == OnSegments(route, Bytes(route, r, head), rest)
  {
    hide OnData, Bytes;
    assert head[..|head|] == head;
    HeadThenRest(route, r, head, |head|);
    all := [head] + rest;
    assert all[1..] == rest;
  }

  /** The cuts of what is behind a complete head agree. */
  predicate CutsAgreeBehind(r: Request, body: string) {
    r.state.ReqBody? ==> |body| <= SettledLength(r, body) && !Sniffed(r, body)
  }

  lemma SameBehindHead(route: Router, r: Request, body: string, a: seq<Segment>, b: seq<Segment>)
    requires r.state.ReqBody? ==> AtBody(r)
    requires !InHead(r) && CutsAgreeBehind(r, body) && Flatten(a) == body && Flatten(b) == body
    ensures Observe(OnSegments(route, r, a)) == Observe(OnSegments(route, r, b))
  {
    if r.state.ReqBody? {
      CutsAgree(route, r, body, a, b);
    } else {
      NothingBehindEnd(route, r, a);
      NothingBehindEnd(route, r, b);
    }
  }

  lemma DifferentBehindHead(route: Router, r: Request, body: string) returns (a: seq<Segment>, b: seq<Segment>)
    requires AtBody(r) && !CutsAgreeBehind(r, body)
    ensures Flatten(a) == body && Flatten(b) == body
    ensures Observe(OnSegments(route, r, a)) != Observe(OnSegments(route, r, b))
  {
    if |body| > SettledLength(r, body) {
      a, b := OverrunDisagrees(route, r, body);
    } else {
      a, b := SniffDisagrees(route, r, body);
    }
  }

  lemma BehindHead(route: Router, head: string)
    requires HeadOfRequest(route, NEW_REQUEST, head)
    ensures var r := Bytes(route, NEW_REQUEST, head);
      !InHead(r) && (r.state.ReqBody? ==> AtBody(r))
  {
    EndOfHeadIsFresh(route, NEW_REQUEST, head);
  }

  /** For every complete head without NUL and everything behind it: all cuts of the request
      agree if and only if what is behind the head does not go beyond the length on which the
      parser settles, and is not a text/plain body that looks like a form; behind a request
      without a body anything may follow. */
  lemma RequestCutsAgreeExactly(route: Router, head: string, body: string)
    requires HeadOfRequest(route, NEW_REQUEST, head)
    ensures var r := Bytes(route, NEW_REQUEST, head);
      (forall a: seq<Segment>, b: seq<Segment> :: Flatten(a) == head + body && Flatten(b) == head + body ==>
         Observe(OnSegments(route, NEW_REQUEST, a)) == Observe(OnSegments(route, NEW_REQUEST, b)))
      <==> CutsAgreeBehind(r, body)
  {
    hide HeadOfRequest, AtBody, Observe, Bytes, OnSegments;
    var r := Bytes(route, NEW_REQUEST, head);
    BehindHead(route, head);
    if CutsAgreeBehind(r, body) {
      forall a: seq<Segment>, b: seq<Segment> | Flatten(a) == head + body && Flatten(b) == head + body
        ensures Observe(OnSegments(route, NEW_REQUEST, a)) == Observe(OnSegments(route, NEW_REQUEST, b))
      {
        var restA := HeadThenBody(route, NEW_REQUEST, head, body, a);
        var restB := HeadThenBody(route, NEW_REQUEST, head, body, b);
        SameBehindHead(route, r, body, restA, restB);
      }
    } else {
      var a, b := DifferentBehindHead(route, r, body);
      var allA := HeadFirst(route, NEW_REQUEST, head, a);
      var allB := HeadFirst(route, NEW_REQUEST, head, b);
    }
  }

  // ---------------------------------------------------------------- behind the closing delimiter

  /** The parser has moved the end of the body to 4 bytes behind the byte at position k. */
  predicate EndMovedAt(m: Multipart, k: nat) {
    m.contentLength == k + 4 && m.item.state == ParsingFinished && k < m.parsedLength
  }

  lemma {:induction false} EndMovedOnce(m: Multipart, data: string, last: seq<bool>)
    requires |last| == |data|
    ensures var b := Feed(m, data, last);
      b.contentLength == m.contentLength
      || exists k :: m.parsedLength <= k < m.parsedLength + |data| && EndMovedAt(b, k)
    decreases |data|
  {
    hide MultipartStep;
    if data != [] {
      var next := MultipartStep(m, data[0], last[0]);
      StepMovesEnd(m, data[0], last[0]);
      StepAdvances(m, data[0], last[0]);
      if next.contentLength != m.contentLength {
        FinishedIgnores(next, data[1..], last[1..]);
        assert EndMovedAt(Feed(m, data, last), m.parsedLength);
      } else {
        EndMovedOnce(next, data[1..], last[1..]);
      }
    }
  }

  /** The length on which the parser settles for a printed body with something behind it, of
      which so many bytes were announced. */
  lemma PrintedSettles(r: Request, parts: seq<Part>, epilogue: string)
    requires AtBody(r) && r.head.isMultipart && r.handler == Parsing && GoodBoundary(r.head.boundary)
    requires parts != [] && forall p :: p in parts ==> Printable(r.head.boundary, p)
    ensures var printed := PrintBody(r.head.boundary, parts);
      SettledLength(r, printed + epilogue) == if |printed| <= r.contentLength + 3 then |printed| else r.contentLength
  {
    hide PrintBody, Printable, GoodBoundary, MultipartStep, DeliveredAll, UploadsOf;
    var m, printed := MultipartOf(r), PrintBody(r.head.boundary, parts);
    var n := Min(|printed + epilogue|, r.contentLength);
    var read := (printed + epilogue)[..n];
    FeedSegment(m, read);
    var flags := SegmentFlags(n);
    if n >= |printed| {
      var more := epilogue[..n - |printed|];
      assert read == printed + more;
      FeedJoin(m, printed, more, flags);
      MultipartRoundTrip(m, parts, flags[..|printed|]);
      FinishedIgnores(Feed(m, printed, flags[..|printed|]), more, flags[|printed|..]);
    } else {
      var left := printed[n..];
      assert read == printed[..n] && printed == read + left;
      var all := flags + seq(|left|, i => false);
      assert all[..n] == flags && |all[n..]| == |left|;
      FeedJoin(m, read, left, all);
      MultipartRoundTrip(m, parts, all);
      StoppedInside(m, read, left, flags, all[n..], |printed|);
    }
  }

  /** A reader that was stopped inside the body has moved the end exactly if the first dash of
      the closing delimiter was among what it read. */
  lemma StoppedInside(m: Multipart, read: string, left: string, flags: seq<bool>, more: seq<bool>, total: nat)
    requires |flags| == |read| == m.contentLength && |more| == |left| && m.parsedLength == 0
    requires total == |read| + |left| && left != []
    requires var b := Feed(Feed(m, read, flags), left, more);
      b.contentLength == total
    ensures Feed(m, read, flags).contentLength == if total <= |read| + 3 then total else |read|
  {
    hide MultipartStep;
    var a := Feed(m, read, flags);
    FeedLength(m, read, flags);
    EndMovedOnce(m, read, flags);
    EndMovedOnce(a, left, more);
    if a.contentLength != m.contentLength {
      var k :| 0 <= k < |read| && EndMovedAt(a, k);
      FinishedIgnores(a, left, more);
    }
  }

  /** For every printed multipart body, everything behind it and every announced length: all
      cuts agree if and only if nothing is behind it, and no more than its last 3 bytes are
      missing in the announced length. */
  lemma EpilogueCutsAgreeExactly(route: Router, r: Request, parts: seq<Part>, epilogue: string)
    requires AtBody(r) && r.head.isMultipart && r.handler == Parsing && GoodBoundary(r.head.boundary)
    requires parts != [] && forall p :: p in parts ==> Printable(r.head.boundary, p)
    ensures var printed := PrintBody(r.head.boundary, parts);
      (forall a: seq<Segment>, b: seq<Segment> ::
         Flatten(a) == printed + epilogue && Flatten(b) == printed + epilogue ==>
         Observe(OnSegments(route, r, a)) == Observe(OnSegments(route, r, b)))
      <==> epilogue == [] && |printed| <= r.contentLength + 3
  {
    hide PrintBody, Printable, GoodBoundary, SettledLength, Observe;
    PrintedSettles(r, parts, epilogue);
    BodyCutsAgreeExactly(route, r, PrintBody(r.head.boundary, parts) + epilogue);
  }
}
