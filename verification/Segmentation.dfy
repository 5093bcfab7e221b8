/** The result of a request does not depend on how TCP cuts it into segments. */
module Segmentation {
  import opened Sequences
  import opened ArduinoString
  import opened WebRequest

  // ---------------------------------------------------------------- what is observed

  /** The upload chunks put together: the files that got their final chunk, and the data
      received for the one that did not yet. */
  datatype Collected = Collected(files: seq<(string, string)>, current: string)

  ghost function Collect(uploads: seq<Upload>): Collected {
    if uploads == [] then Collected([], [])
    else
      var n := |uploads| - 1;
      var c, u := Collect(uploads[..n]), uploads[n];
      if u.final then Collected(c.files + [(u.filename, c.current + u.data)], [])
      else Collected(c.files, c.current + u.data)
  }

  ghost function Joined(chunks: seq<BodyChunk>): string {
    if chunks == [] then [] else Joined(chunks[..|chunks| - 1]) + chunks[|chunks| - 1].data
  }

  /** Everything about a request except the sizes of the chunks in which uploads and body
      were handed over: all its fields, the uploaded data per file, and the body data. */
  datatype Observed = Observed(fields: Request, uploads: Collected, body: string)

  ghost function ObserveItem(it: Item): (Item, Collected) {
    var c := Collect(it.uploads);
    (it.(buffer := [], uploads := []), Collected(c.files, c.current + it.buffer))
  }

  ghost function Observe(r: Request): Observed {
    var (item, uploads) := ObserveItem(r.item);
    Observed(r.(item := item, bodies := []), uploads, Joined(r.bodies))
  }

  /** The upload buffer only holds bytes of the file that is being read. */
  predicate ItemOk(it: Item) {
    && |it.buffer| < UPLOAD_BUFFER && |it.buffer| <= it.size
    && (!it.isFile ==> it.buffer == [])
    && (!Reading(it.state) ==> it.buffer == [])
  }

  /** The states in which content is read or held back. */
  predicate Reading(state: MultiState) {
    state.WaitForReturn1? || state.ExpectFeed1? || state.ExpectDash1? || state.ExpectDash2? || state.BoundaryOrData?
  }

  // ---------------------------------------------------------------- one multipart byte

  lemma WriteByteObserved(it: Item, data: char, last: bool)
    requires Reading(it.state) && ItemOk(it)
    ensures var w := WriteByte(it, data, last);
      && ItemOk(w) && Reading(w.state)
      && var (item, uploads) := ObserveItem(it);
      ObserveItem(w) ==
        if it.isFile then (item.(size := it.size + 1), Collected(uploads.files, uploads.current + [data]))
        else (item.(size := it.size + 1, value := it.value + [data]), uploads)
  {
    var w := WriteByte(it, data, last);
    var c := Collect(it.uploads);
    if it.isFile {
      assert c.current + (it.buffer + [data]) == (c.current + it.buffer) + [data];
      if w.uploads != it.uploads {
        assert c.current + (it.buffer + [data]) + [] == (c.current + it.buffer) + [data];
      }
    }
  }

  lemma SameWriteByte(it1: Item, it2: Item, data: char, last1: bool, last2: bool)
    requires Reading(it1.state) && ItemOk(it1) && ItemOk(it2) && ObserveItem(it1) == ObserveItem(it2)
    ensures var w1, w2 := WriteByte(it1, data, last1), WriteByte(it2, data, last2);
      ItemOk(w1) && ItemOk(w2) && Reading(w1.state) && ObserveItem(w1) == ObserveItem(w2)
  {
    WriteByteObserved(it1, data, last1);
    WriteByteObserved(it2, data, last2);
  }

  lemma {:induction false} SameWriteBack(it1: Item, it2: Item, data: string, last1: bool, last2: bool)
    requires Reading(it1.state) && ItemOk(it1) && ItemOk(it2) && ObserveItem(it1) == ObserveItem(it2)
    ensures var w1, w2 := WriteBack(it1, data, last1), WriteBack(it2, data, last2);
      ItemOk(w1) && ItemOk(w2) && Reading(w1.state) && ObserveItem(w1) == ObserveItem(w2)
    decreases |data|
  {
    if data != [] {
      SameWriteByte(it1, it2, data[0], last1, last2);
      SameWriteBack(WriteByte(it1, data[0], last1), WriteByte(it2, data[0], last2), data[1..], last1, last2);
    }
  }

  lemma SameResume(it1: Item, it2: Item, held: string, data: char, last1: bool, last2: bool)
    requires ItemOk(it1) && ItemOk(it2) && ObserveItem(it1) == ObserveItem(it2)
    ensures var w1, w2 := Resume(it1, held, data, last1), Resume(it2, held, data, last2);
      ItemOk(w1) && ItemOk(w2) && ObserveItem(w1) == ObserveItem(w2)
  {
    var b1, b2 := it1.(state := WaitForReturn1), it2.(state := WaitForReturn1);
    SameWriteBack(b1, b2, held, last1, last2);
    var w1, w2 := WriteBack(b1, held, last1), WriteBack(b2, held, last2);
    StateKept(b1, held, last1);
    StateKept(b2, held, last2);
    SameWriteByte(w1, w2, data, last1, last2);
  }

  /** Writing content does not change the state of the matcher. */
  lemma {:induction false} StateKept(it: Item, data: string, last: bool)
    ensures WriteBack(it, data, last).state == it.state
    decreases |data|
  {
    if data != [] {
      StateKept(WriteByte(it, data[0], last), data[1..], last);
    }
  }

  predicate MultipartOk(m: Multipart) {
    ItemOk(m.item) && (m.parsedLength == 0 ==> m.item.buffer == [])
  }

  /** Parsers that look the same except for the sizes of the chunks they handed over. */
  ghost predicate SameMultipart(m1: Multipart, m2: Multipart) {
    && MultipartOk(m1) && MultipartOk(m2)
    && m1.boundary == m2.boundary && m1.contentLength == m2.contentLength && m1.parsedLength == m2.parsedLength
    && m1.temp == m2.temp && m1.params == m2.params
    && ObserveItem(m1.item) == ObserveItem(m2.item)
  }

  /** Two items with the same fields, each with its own buffer and uploads as before. */
  ghost predicate SameNames(it1: Item, it2: Item, d1: Item, d2: Item) {
    && d1.(buffer := [], uploads := []) == d2.(buffer := [], uploads := [])
    && d1.buffer == it1.buffer && d2.buffer == it2.buffer
    && d1.uploads == it1.uploads && d2.uploads == it2.uploads
    && d1.state == it1.state && d1.size == it1.size
  }

  lemma FieldOfItem(it1: Item, it2: Item, name: string, value: string)
    requires it1.(buffer := [], uploads := []) == it2.(buffer := [], uploads := [])
    ensures SameNames(it1, it2, DispositionField(it1, name, value), DispositionField(it2, name, value))
  {
  }

  lemma FromIsShorter(text: string, left: nat)
    requires 0 < left && text != []
    ensures |From(text, left)| < |text|
  {
  }

  lemma {:induction false} DispositionOfItem(it1: Item, it2: Item, temp: string)
    requires it1.(buffer := [], uploads := []) == it2.(buffer := [], uploads := [])
    ensures SameNames(it1, it2, Disposition(it1, temp), Disposition(it2, temp))
    decreases |temp|
  {
    hide IndexOf, Substring, From, DispositionField;
    var semi, equal := IndexOf(temp, ';'), IndexOf(temp, '=');
    var name := Substring(temp, 0, Unsigned(equal));
    if semi > 0 {
      var value := Substring(temp, equal + 2, semi - 1);
      FieldOfItem(it1, it2, name, value);
      FromIsShorter(temp, semi + 2);
      DispositionOfItem(DispositionField(it1, name, value), DispositionField(it2, name, value), From(temp, semi + 2));
    } else {
      FieldOfItem(it1, it2, name, Substring(temp, equal + 2, Unsigned(|temp| - 1)));
    }
  }

  lemma SamePartHeader(it1: Item, it2: Item, temp: string)
    requires it1.buffer == it2.buffer == []
    requires ObserveItem(it1) == ObserveItem(it2)
    ensures var p1, p2 := PartHeader(it1, temp), PartHeader(it2, temp);
      ObserveItem(p1) == ObserveItem(p2) && p1.buffer == p2.buffer == []
  {
    hide Disposition, EqualsIgnoreCase, From, IndexOf, Collect;
    DispositionOfItem(it1, it2, From(temp, IndexOf(temp, ';') + 2));
  }

  lemma SameEndPartLine(m1: Multipart, m2: Multipart)
    requires SameMultipart(m1, m2) && m1.item.state == ParseHeaders
    ensures SameMultipart(EndPartLine(m1), EndPartLine(m2))
  {
    if m1.temp != [] {
      SamePartHeader(m1.item, m2.item, m1.temp);
    }
  }

  /** The matcher moves on without touching what has been collected. */
  lemma SameMove(it1: Item, it2: Item, state: MultiState, position: nat, isFile: bool)
    requires ItemOk(it1) && ItemOk(it2) && ObserveItem(it1) == ObserveItem(it2)
    requires Reading(state) || it1.buffer == it2.buffer == []
    requires isFile == it1.isFile || it1.buffer == it2.buffer == []
    ensures var w1, w2 := it1.(state := state, boundaryPosition := position, isFile := isFile),
                          it2.(state := state, boundaryPosition := position, isFile := isFile);
      ItemOk(w1) && ItemOk(w2) && ObserveItem(w1) == ObserveItem(w2)
  {
  }

  lemma SameEndPart(m1: Multipart, m2: Multipart)
    requires SameMultipart(m1, m2) && Reading(m1.item.state)
    ensures SameMultipart(EndPart(m1), EndPart(m2))
  {
    var it1, it2 := m1.item, m2.item;
    if it1.isFile && it1.size != 0 {
      var u1 := Upload(it1.filename, Minus(it1.size, |it1.buffer|), it1.buffer, true);
      var u2 := Upload(it2.filename, Minus(it2.size, |it2.buffer|), it2.buffer, true);
      assert (it1.uploads + [u1])[..|it1.uploads|] == it1.uploads;
      assert (it2.uploads + [u2])[..|it2.uploads|] == it2.uploads;
    }
  }

  lemma SameAdvance(m1: Multipart, m2: Multipart, data: char)
    requires SameMultipart(m1, m2) && m1.parsedLength != 0 && InContent(m1.item.state)
    ensures SameMultipart(Advance(m1, data), Advance(m2, data))
  {
    var it1, it2 := m1.item, m2.item;
    hide Collect, EndPart;
    if it1.state == BoundaryOrData && it1.boundaryPosition == |m1.boundary| - 1 {
      SameEndPart(m1, m2);
    } else if it1.state != WaitForReturn1 {
      var to := Advance(m1, data).item;
      SameMove(it1, it2, to.state, to.boundaryPosition, to.isFile);
    }
  }

  lemma SameByteInContent(m1: Multipart, m2: Multipart, data: char, last1: bool, last2: bool)
    requires SameMultipart(m1, m2) && m1.parsedLength != 0 && InContent(m1.item.state)
    ensures SameMultipart(MultipartByte(m1, data, last1), MultipartByte(m2, data, last2))
  {
    var it1, it2, held := m1.item, m2.item, Held(m1.item, m1.boundary);
    assert it1.state == it2.state && it1.boundaryPosition == it2.boundaryPosition;
    if Continues(it1, m1.boundary, data) {
      assert MultipartByte(m1, data, last1) == Advance(m1, data);
      assert MultipartByte(m2, data, last2) == Advance(m2, data);
      SameAdvance(m1, m2, data);
    } else {
      assert MultipartByte(m1, data, last1) == m1.(item := Resume(it1, held, data, last1));
      assert MultipartByte(m2, data, last2) == m2.(item := Resume(it2, held, data, last2));
      SameResume(it1, it2, held, data, last1, last2);
    }
  }

  lemma SameFirstBoundary(m1: Multipart, m2: Multipart, data: char)
    requires SameMultipart(m1, m2) && m1.parsedLength != 0 && m1.item.state == ExpectBoundary
    ensures SameMultipart(FirstBoundary(m1, data), FirstBoundary(m2, data))
  {
    hide Collect;
  }

  lemma SameByteOutside(m1: Multipart, m2: Multipart, data: char, last1: bool, last2: bool)
    requires SameMultipart(m1, m2) && m1.parsedLength != 0 && !InContent(m1.item.state)
    ensures SameMultipart(MultipartByte(m1, data, last1), MultipartByte(m2, data, last2))
  {
    hide Collect, FirstBoundary, EndPartLine;
    assert m1.item.state == m2.item.state;
    if m1.item.state == ExpectBoundary {
      SameFirstBoundary(m1, m2, data);
    } else if m1.item.state == ParseHeaders && data == '\n' {
      SameEndPartLine(m1, m2);
    }
  }

  /** The last flag of a byte only decides how uploads are cut into chunks. */
  lemma SameMultipartStep(m1: Multipart, m2: Multipart, data: char, last1: bool, last2: bool)
    requires SameMultipart(m1, m2)
    ensures SameMultipart(MultipartStep(m1, data, last1), MultipartStep(m2, data, last2))
  {
    if m1.parsedLength != 0 {
      if InContent(m1.item.state) {
        SameByteInContent(m1, m2, data, last1, last2);
      } else {
        SameByteOutside(m1, m2, data, last1, last2);
      }
    }
  }

  lemma {:induction false} SameFeed(m1: Multipart, m2: Multipart, data: string)
    requires SameMultipart(m1, m2)
    ensures SameMultipart(FeedMultipart(m1, data), FeedMultipart(m2, data))
    decreases |data|
  {
    if data != [] {
      var last := |data| == 1;
      SameMultipartStep(m1, m2, data[0], last, last);
      SameFeed(MultipartStep(m1, data[0], last), MultipartStep(m2, data[0], last), data[1..]);
    }
  }

  lemma {:induction false} FeedAdvances(m: Multipart, data: string)
    ensures FeedMultipart(m, data).parsedLength == m.parsedLength + |data|
    ensures FeedMultipart(m, data).boundary == m.boundary
    decreases |data|
  {
    if data != [] {
      StepAdvances(m, data[0], |data| == 1);
      FeedAdvances(MultipartStep(m, data[0], |data| == 1), data[1..]);
    }
  }

  lemma StepAdvances(m: Multipart, data: char, last: bool)
    ensures MultipartStep(m, data, last).parsedLength == m.parsedLength + 1
    ensures MultipartStep(m, data, last).boundary == m.boundary
  {
  }

  // ---------------------------------------------------------------- whole requests

  ghost predicate RequestOk(r: Request) {
    && MultipartOk(MultipartOf(r))
    && (r.state.ReqStart? || r.state.ReqHeaders? ==>
          r.item == NEW_ITEM && r.bodies == [] && r.parsedLength == 0 && !r.isPlainPost)
  }

  /** Requests that look the same except for the sizes of the chunks they handed over. */
  ghost predicate Same(r1: Request, r2: Request) {
    RequestOk(r1) && RequestOk(r2) && Observe(r1) == Observe(r2)
  }

  /** One byte at a time. */
  function Bytes(route: Router, r: Request, data: string): Request
    decreases |data|
  {
    if data == [] then r else Bytes(route, OnData(route, r, [data[0]]), data[1..])
  }

  /** The body was complete with the byte before. */
  predicate BodyComplete(r: Request) {
    r.state.ReqEnd? && r.contentLength != 0
  }

  /** A byte that is treated alike wherever the segments are cut: no NUL in the head, no
      body whose first segment decides how it is read, nothing after the end of the body. */
  predicate RegularByte(r: Request, data: char) {
    && (r.state.ReqStart? || r.state.ReqHeaders? ==> data != '\0')
    && (r.state.ReqBody? ==> r.head.isMultipart || BodyKindOf(r.head.contentType) != TextPlain)
    && !BodyComplete(r)
  }

  predicate Regular(route: Router, r: Request, data: string)
    decreases |data|
  {
    data == [] || (RegularByte(r, data[0]) && Regular(route, OnData(route, r, [data[0]]), data[1..]))
  }

  lemma {:induction false} BytesJoin(route: Router, r: Request, a: string, b: string)
    ensures Bytes(route, r, a + b) == Bytes(route, Bytes(route, r, a), b)
    ensures Regular(route, r, a + b) <==> Regular(route, r, a) && Regular(route, Bytes(route, r, a), b)
    decreases |a|
  {
    if a == [] {
      assert a + b == b;
    } else {
      assert (a + b)[1..] == a[1..] + b;
      BytesJoin(route, OnData(route, r, [a[0]]), a[1..], b);
    }
  }

  // ---------------------------------------------------------------- segments of a body

  lemma {:induction false} FeedPlainAdvances(f: Form, data: string)
    ensures FeedPlain(f, data).parsedLength == f.parsedLength + |data|
    ensures FeedPlain(f, data).contentLength == f.contentLength
    decreases |data|
  {
    if data != [] {
      FeedPlainAdvances(PlainPostChar(f.(parsedLength := f.parsedLength + 1), data[0]), data[1..]);
    }
  }

  lemma MultipartSplit(m: Multipart, b: char, rest: Segment)
    requires MultipartOk(m)
    ensures FeedMultipart(m, [b]) == MultipartStep(m, b, true)
    ensures SameMultipart(FeedMultipart(m, [b] + rest), FeedMultipart(FeedMultipart(m, [b]), rest))
    ensures MultipartOk(FeedMultipart(m, [b]))
  {
    assert ([b] + rest)[1..] == rest;
    SameMultipartStep(m, m, b, false, true);
    SameFeed(MultipartStep(m, b, false), MultipartStep(m, b, true), rest);
  }

  lemma FormSplitPlain(r: Request, kind: BodyKind, b: char, rest: Segment)
    requires kind != TextPlain && (SniffPost(r, kind, [b]).isPlainPost || r.handler == NoHandler)
    ensures FeedPlainBody(r, kind, [b] + rest) == FeedPlainBody(FeedPlainBody(r, kind, [b]), kind, rest)
  {
    var s := SniffPost(r, kind, [b]);
    if s.isPlainPost && s.handler == Parsing {
      FeedPlainAdvances(FormOf(s), [b]);
    }
  }

  lemma JoinedMore(chunks: seq<BodyChunk>, chunk: BodyChunk)
    ensures Joined(chunks + [chunk]) == Joined(chunks) + chunk.data
  {
    assert (chunks + [chunk])[..|chunks|] == chunks;
  }

  lemma FormSplitBodies(r: Request, kind: BodyKind, b: char, rest: Segment)
    requires kind != TextPlain && !SniffPost(r, kind, [b]).isPlainPost && r.handler != NoHandler
    ensures var one, two := FeedPlainBody(r, kind, [b] + rest), FeedPlainBody(FeedPlainBody(r, kind, [b]), kind, rest);
      one.(bodies := []) == two.(bodies := []) && Joined(one.bodies) == Joined(two.bodies)
  {
    hide Joined, LooksLikeForm;
    var n, total := r.parsedLength, r.contentLength;
    var first := r.bodies + [BodyChunk([b], n, total)];
    JoinedMore(r.bodies, BodyChunk([b] + rest, n, total));
    JoinedMore(r.bodies, BodyChunk([b], n, total));
    JoinedMore(first, BodyChunk(rest, n + 1, total));
    assert Joined(r.bodies) + [b] + rest == Joined(r.bodies) + ([b] + rest);
  }

  lemma SameBodies(one: Request, two: Request)
    requires RequestOk(one) && one.state.ReqBody?
    requires one.(bodies := []) == two.(bodies := []) && Joined(one.bodies) == Joined(two.bodies)
    ensures Same(one, two)
  {
  }

  lemma FormKeeps(r: Request, kind: BodyKind, data: Segment)
    requires RequestOk(r) && r.state.ReqBody?
    ensures var f := FeedPlainBody(r, kind, data);
      && RequestOk(f) && f.state.ReqBody? && f.head == r.head && f.contentLength == r.contentLength
      && f.parsedLength == r.parsedLength + |data| && f.item == r.item
  {
    hide LooksLikeForm, FeedPlain;
    FeedPlainAdvances(FormOf(r), data);
    assert FormOf(SniffPost(r, kind, data)) == FormOf(r);
  }

  lemma MultipartKeeps(r: Request, data: Segment)
    requires RequestOk(r) && r.state.ReqBody? && r.head.isMultipart
    ensures var f := FeedBody(r, data);
      RequestOk(f) && f.state.ReqBody? && f.head == r.head && f.parsedLength == r.parsedLength + |data|
  {
    if r.handler == Parsing {
      SameFeed(MultipartOf(r), MultipartOf(r), data);
      FeedAdvances(MultipartOf(r), data);
    }
  }

  lemma FeedBodyKeeps(r: Request, data: Segment)
    requires RequestOk(r) && r.state.ReqBody?
    ensures var f := FeedBody(r, data);
      RequestOk(f) && f.state.ReqBody? && f.head == r.head && f.parsedLength == r.parsedLength + |data|
  {
    if r.head.isMultipart {
      MultipartKeeps(r, data);
    } else {
      FormKeeps(r, BodyKindOf(r.head.contentType), data);
    }
  }

  lemma SameMultipartRequests(r: Request, m1: Multipart, m2: Multipart)
    requires RequestOk(r) && r.state.ReqBody? && SameMultipart(m1, m2)
    ensures Same(WithMultipart(r, m1), WithMultipart(r, m2))
  {
  }

  /** A body segment may as well come as its first byte and the rest. */
  lemma FeedBodySplit(r: Request, b: char, rest: Segment)
    requires RequestOk(r) && r.state.ReqBody?
    requires r.head.isMultipart || BodyKindOf(r.head.contentType) != TextPlain
    ensures Same(FeedBody(r, [b] + rest), FeedBody(FeedBody(r, [b]), rest))
  {
    hide FeedPlainBody, Same, RequestOk, FeedMultipart;
    if r.head.isMultipart {
      MultipartBodySplit(r, b, rest);
    } else {
      FormBodySplit(r, BodyKindOf(r.head.contentType), b, rest);
      FormKeeps(r, BodyKindOf(r.head.contentType), [b]);
    }
  }

  lemma MultipartBodySplit(r: Request, b: char, rest: Segment)
    requires RequestOk(r) && r.state.ReqBody? && r.head.isMultipart
    ensures Same(FeedBody(r, [b] + rest), FeedBody(FeedBody(r, [b]), rest))
  {
    MultipartKeeps(r, [b]);
    MultipartKeeps(r, [b] + rest);
    hide FeedMultipart, Observe;
    if r.handler == Parsing {
      var m := MultipartOf(r);
      MultipartSplit(m, b, rest);
      FeedAdvances(m, [b]);
      var m1 := FeedMultipart(m, [b]);
      assert MultipartOf(WithMultipart(r, m1)) == m1;
      SameMultipartRequests(r, FeedMultipart(m, [b] + rest), FeedMultipart(m1, rest));
    }
  }

  lemma FormBodySplit(r: Request, kind: BodyKind, b: char, rest: Segment)
    requires RequestOk(r) && r.state.ReqBody? && kind != TextPlain
    ensures Same(FeedPlainBody(r, kind, [b] + rest), FeedPlainBody(FeedPlainBody(r, kind, [b]), kind, rest))
  {
    hide FeedPlainBody, LooksLikeForm, Observe, RequestOk;
    FormKeeps(r, kind, [b] + rest);
    if SniffPost(r, kind, [b]).isPlainPost || r.handler == NoHandler {
      FormSplitPlain(r, kind, b, rest);
    } else {
      FormSplitBodies(r, kind, b, rest);
      SameBodies(FeedPlainBody(r, kind, [b] + rest), FeedPlainBody(FeedPlainBody(r, kind, [b]), kind, rest));
    }
  }

  /** The last check of _onData only looks at two counters. */
  lemma SameEnd(f1: Request, f2: Request)
    requires Same(f1, f2) && f1.state.ReqBody?
    ensures Same(EndOfBody(f1), EndOfBody(f2))
  {
  }

  /** A segment of the body has the effect of its bytes. */
  lemma {:induction false} BodySegment(route: Router, r: Request, data: Segment)
    requires RequestOk(r) && r.state.ReqBody? && Regular(route, r, data)
    ensures Same(OnBody(r, data), Bytes(route, r, data))
    decreases |data|
  {
    var b, rest := data[0], data[1..];
    FeedBodyKeeps(r, [b]);
    var f := FeedBody(r, [b]);
    SameEnd(f, f);
    assert OnData(route, r, [b]) == OnBody(r, [b]);
    if rest == [] {
      assert data == [b];
    } else {
      assert data == [b] + rest;
      NotYetComplete(route, r, b, rest);
      FeedBodySplit(r, b, rest);
      FeedBodyKeeps(r, data);
      SameEnd(FeedBody(r, data), FeedBody(f, rest));
      BodySegment(route, f, rest);
    }
  }

  /** Nothing regular follows the end of the body. */
  lemma NotYetComplete(route: Router, r: Request, b: char, rest: Segment)
    requires RequestOk(r) && r.state.ReqBody? && Regular(route, r, [b] + rest)
    ensures OnBody(r, [b]) == FeedBody(r, [b])
    ensures Regular(route, FeedBody(r, [b]), rest)
    ensures r.head.isMultipart || BodyKindOf(r.head.contentType) != TextPlain
  {
    assert ([b] + rest)[1..] == rest;
    FeedBodyKeeps(r, [b]);
    assert RegularByte(OnBody(r, [b]), rest[0]);
  }

  // ---------------------------------------------------------------- segments of the head

  predicate InHead(r: Request) {
    r.state.ReqStart? || r.state.ReqHeaders?
  }

  lemma {:induction false} HeadBytes(route: Router, r: Request, data: string)
    requires InHead(r) && '\n' !in data && '\0' !in data
    ensures Bytes(route, r, data) == r.(temp := r.temp + data)
    decreases |data|
  {
    if data == [] {
      assert r.temp + data == r.temp;
    } else {
      var one := OnData(route, r, [data[0]]);
      assert one == r.(temp := r.temp + [data[0]]);
      HeadBytes(route, one, data[1..]);
      assert r.temp + [data[0]] + data[1..] == r.temp + data;
    }
  }

  lemma LineEnd(route: Router, r: Request)
    requires InHead(r)
    ensures OnData(route, r, "\n") == ParseLine(route, r.(temp := Trim(r.temp)))
  {
    assert r.temp + CString([]) == r.temp;
  }

  lemma {:induction false} Ignored(route: Router, r: Request, data: string)
    requires r.state.ReqEnd? || r.state.ReqFail?
    ensures Bytes(route, r, data) == r
    decreases |data|
  {
    if data != [] {
      Ignored(route, r, data[1..]);
    }
  }

  lemma ParseLineOk(route: Router, r: Request)
    requires RequestOk(r) && InHead(r)
    ensures RequestOk(ParseLine(route, r))
    ensures !BodyComplete(ParseLine(route, r))
  {
  }

  /** No byte of a regular head is NUL. */
  lemma {:induction false} RegularHead(route: Router, r: Request, line: string)
    requires InHead(r) && '\n' !in line && Regular(route, r, line)
    ensures '\0' !in line
    decreases |line|
  {
    if line != [] {
      var one := OnData(route, r, [line[0]]);
      assert one == r.(temp := r.temp + [line[0]]);
      RegularHead(route, one, line[1..]);
      assert line == [line[0]] + line[1..];
    }
  }

  /** A segment has the effect of its bytes. */
  lemma {:induction false} SegmentAsBytes(route: Router, r: Request, data: Segment)
    requires RequestOk(r) && Regular(route, r, data)
    ensures Same(OnData(route, r, data), Bytes(route, r, data))
    decreases |data|
  {
    hide OnBody, ParseLine, Trim, RegularByte;
    if r.state.ReqBody? {
      BodySegment(route, r, data);
    } else if !InHead(r) {
      Ignored(route, r, data);
    } else {
      var i := IndexOf(data, '\n');
      if i < 0 {
        WholeSegmentInHead(route, r, data);
      } else {
        var line, rest := data[..i], data[i + 1..];
        assert data == line + (['\n'] + rest);
        BytesJoin(route, r, line, ['\n'] + rest);
        RegularHead(route, r, line);
        HeadBytes(route, r, line);
        var r1 := r.(temp := r.temp + line);
        BytesJoin(route, r1, ['\n'], rest);
        LineEnd(route, r1);
        var r2 := ParseLine(route, r1.(temp := Trim(r1.temp)));
        ParseLineOk(route, r1.(temp := Trim(r1.temp)));
        assert Bytes(route, r1, ['\n']) == r2;
        if rest != [] {
          SegmentAsBytes(route, r2, rest);
        }
      }
    }
  }

  lemma WholeSegmentInHead(route: Router, r: Request, data: Segment)
    requires RequestOk(r) && InHead(r) && Regular(route, r, data) && IndexOf(data, '\n') < 0
    ensures OnData(route, r, data) == Bytes(route, r, data) && RequestOk(OnData(route, r, data))
  {
    RegularHead(route, r, data);
    HeadBytes(route, r, data);
    var n := |data| - 1;
    assert r.temp + data[..n] + [data[n]] == r.temp + data;
  }

  // ---------------------------------------------------------------- all segments

  lemma SameRequests(r1: Request, r2: Request)
    requires Same(r1, r2)
    ensures InHead(r1) ==> r1 == r2
    ensures r1.state == r2.state && r1.head == r2.head && r1.handler == r2.handler
    ensures FormOf(r1) == FormOf(r2) && r1.isPlainPost == r2.isPlainPost
    ensures SameMultipart(MultipartOf(r1), MultipartOf(r2))
    ensures BodyComplete(r1) == BodyComplete(r2)
  {
  }

  lemma SameSniffed(r1: Request, r2: Request, kind: BodyKind, data: Segment)
    requires Same(r1, r2) && r1.state.ReqBody?
    ensures Same(SniffPost(r1, kind, data), SniffPost(r2, kind, data))
  {
    hide Collect, Joined, ObserveItem, LooksLikeForm;
  }

  lemma SameForms(r1: Request, r2: Request, f: Form)
    requires Same(r1, r2) && r1.state.ReqBody? && f.parsedLength > 0
    ensures Same(WithForm(r1, f), WithForm(r2, f))
  {
    hide Collect, Joined, ObserveItem;
  }

  lemma SamePassed(r1: Request, r2: Request, data: Segment)
    requires Same(r1, r2) && r1.state.ReqBody? && !r1.isPlainPost
    ensures Same(FeedSniffed(r1, data), FeedSniffed(r2, data))
  {
    hide Collect, Joined, ObserveItem;
    if r1.handler != NoHandler {
      JoinedMore(r1.bodies, BodyChunk(data, r1.parsedLength, r1.contentLength));
      JoinedMore(r2.bodies, BodyChunk(data, r2.parsedLength, r2.contentLength));
    }
  }

  lemma SameCounted(r1: Request, r2: Request, n: nat)
    requires Same(r1, r2) && r1.state.ReqBody? && n > 0
    ensures Same(r1.(parsedLength := r1.parsedLength + n), r2.(parsedLength := r2.parsedLength + n))
  {
    hide Collect, Joined, ObserveItem;
  }

  lemma SameFeedForm(r1: Request, r2: Request, kind: BodyKind, data: Segment)
    requires Same(r1, r2) && r1.state.ReqBody?
    ensures Same(FeedPlainBody(r1, kind, data), FeedPlainBody(r2, kind, data))
  {
    hide SniffPost, Observe, RequestOk, FeedSniffed;
    SameSniffed(r1, r2, kind, data);
    SniffKeepsState(r1, kind, data);
    SameFeedSniffed(SniffPost(r1, kind, data), SniffPost(r2, kind, data), data);
  }

  lemma SniffKeepsState(r: Request, kind: BodyKind, data: Segment)
    ensures SniffPost(r, kind, data).state == r.state
  {
  }

  lemma SameFeedSniffed(s1: Request, s2: Request, data: Segment)
    requires Same(s1, s2) && s1.state.ReqBody?
    ensures Same(FeedSniffed(s1, data), FeedSniffed(s2, data))
  {
    SameRequests(s1, s2);
    FeedPlainAdvances(FormOf(s1), data);
    hide Same, FeedPlain, FormOf, WithForm;
    if !s1.isPlainPost {
      SamePassed(s1, s2, data);
    } else if s1.handler == Parsing {
      SameForms(s1, s2, FeedPlain(FormOf(s1), data));
    } else {
      SameCounted(s1, s2, |data|);
    }
  }

  lemma SameFeedMultipart(r1: Request, r2: Request, data: Segment)
    requires Same(r1, r2) && r1.state.ReqBody?
    ensures Same(WithMultipart(r1, FeedMultipart(MultipartOf(r1), data)),
                 WithMultipart(r2, FeedMultipart(MultipartOf(r2), data)))
  {
    SameRequests(r1, r2);
    SameFeed(MultipartOf(r1), MultipartOf(r2), data);
    FeedAdvances(MultipartOf(r1), data);
  }

  lemma SameByte(route: Router, r1: Request, r2: Request, b: char)
    requires Same(r1, r2)
    ensures Same(OnData(route, r1, [b]), OnData(route, r2, [b]))
  {
    hide OnBody, ParseLine, Trim, RequestOk, Observe;
    SameRequests(r1, r2);
    if r1.state.ReqBody? {
      SameBodyByte(r1, r2, b);
    } else if InHead(r1) && b == '\n' {
      var line := r1.(temp := Trim(r1.temp));
      LineEnd(route, r1);
      SameLine(route, r1, line);
    } else if InHead(r1) {
      SameCharacter(route, r1, b);
    }
  }

  lemma SameBodyByte(r1: Request, r2: Request, b: char)
    requires Same(r1, r2) && r1.state.ReqBody?
    ensures Same(OnBody(r1, [b]), OnBody(r2, [b]))
  {
    hide FeedPlainBody, FeedMultipart, Observe, RequestOk;
    SameRequests(r1, r2);
    if !r1.head.isMultipart {
      SameFeedForm(r1, r2, BodyKindOf(r1.head.contentType), [b]);
    } else if r1.handler == Parsing {
      SameFeedMultipart(r1, r2, [b]);
    } else {
      SameCounted(r1, r2, 1);
    }
    FeedBodyKeeps(r1, [b]);
    assert Same(FeedBody(r1, [b]), FeedBody(r2, [b]));
    SameEnd(FeedBody(r1, [b]), FeedBody(r2, [b]));
  }

  lemma SameLine(route: Router, r: Request, line: Request)
    requires RequestOk(r) && InHead(r) && line == r.(temp := line.temp)
    ensures Same(ParseLine(route, line), ParseLine(route, line))
  {
    hide ParseLine;
    ParseLineOk(route, line);
  }

  lemma SameCharacter(route: Router, r: Request, b: char)
    requires RequestOk(r) && InHead(r) && b != '\n'
    ensures Same(OnData(route, r, [b]), OnData(route, r, [b]))
  {
    hide Observe;
  }

  lemma {:induction false} SameBytes(route: Router, r1: Request, r2: Request, data: string)
    requires Same(r1, r2)
    ensures Same(Bytes(route, r1, data), Bytes(route, r2, data))
    ensures Regular(route, r1, data) == Regular(route, r2, data)
    decreases |data|
  {
    if data != [] {
      SameByte(route, r1, r2, data[0]);
      SameBytes(route, OnData(route, r1, [data[0]]), OnData(route, r2, [data[0]]), data[1..]);
      SameRequests(r1, r2);
    }
  }

  /** A connection has the effect of its bytes. */
  lemma {:induction false} SegmentsAsBytes(route: Router, r: Request, segments: seq<Segment>)
    requires RequestOk(r) && Regular(route, r, Flatten(segments))
    ensures Same(OnSegments(route, r, segments), Bytes(route, r, Flatten(segments)))
    decreases |segments|
  {
    if segments != [] {
      var first, rest := segments[0], Flatten(segments[1..]);
      BytesJoin(route, r, first, rest);
      SegmentAsBytes(route, r, first);
      var r1, r2 := OnData(route, r, first), Bytes(route, r, first);
      SameBytes(route, r1, r2, rest);
      SegmentsAsBytes(route, r1, segments[1..]);
    }
  }

  /** Any two ways of cutting a regular request into segments have the same outcome. */
  lemma SegmentationIndependence(route: Router, segmentsA: seq<Segment>, segmentsB: seq<Segment>)
    requires Flatten(segmentsA) == Flatten(segmentsB)
    requires Regular(route, NEW_REQUEST, Flatten(segmentsA))
    ensures Observe(OnSegments(route, NEW_REQUEST, segmentsA)) == Observe(OnSegments(route, NEW_REQUEST, segmentsB))
  {
    SegmentsAsBytes(route, NEW_REQUEST, segmentsA);
    SegmentsAsBytes(route, NEW_REQUEST, segmentsB);
  }
}
