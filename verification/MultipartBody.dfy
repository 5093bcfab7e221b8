/** Multipart bodies (RFC 2046 section 5.1.1, RFC 7578): what is printed is what the
    parser delivers, byte for byte, however the body is cut into segments. */
module MultipartBody {
  import opened Sequences
  import opened ArduinoString
  import opened WebRequest
  import opened Segmentation

  // ---------------------------------------------------------------- printing

  datatype Part =
    | Field(name: string, value: string)
    | File(name: string, filename: string, kind: string, data: string)

  /** The delimiter between parts. */
  function Delimiter(boundary: string): (d: string)
    ensures |d| == 4 + |boundary|
  {
    "\r\n--" + boundary
  }

  /** key="value" */
  function Quoted(key: string, value: string): string {
    key + "=\"" + value + "\""
  }

  function Names(p: Part): string {
    match p
    case Field(name, _) => Quoted("name", name)
    case File(name, filename, _, _) => Quoted("name", name) + "; " + Quoted("filename", filename)
  }

  function DispositionLine(p: Part): string {
    "Content-Disposition: form-data; " + Names(p)
  }

  function HeadOf(p: Part): string {
    match p
    case Field(_, _) => DispositionLine(p) + "\r\n" + "\r\n"
    case File(_, _, kind, _) => DispositionLine(p) + "\r\n" + ("Content-Type: " + kind + "\r\n" + "\r\n")
  }

  function ContentOf(p: Part): string {
    if p.Field? then p.value else p.data
  }

  /** Parts behind an opening delimiter, up to the end of the body. */
  function PrintParts(boundary: string, parts: seq<Part>): string {
    if parts == [] then "--\r\n"
    else PrintPart(boundary, parts[0]) + PrintParts(boundary, parts[1..])
  }

  /** One part with the delimiter behind it. */
  function PrintPart(boundary: string, p: Part): string {
    "\r\n" + (HeadOf(p) + (ContentOf(p) + Delimiter(boundary)))
  }

  function PrintBody(boundary: string, parts: seq<Part>): string {
    "--" + boundary + PrintParts(boundary, parts)
  }

  // ---------------------------------------------------------------- what may be printed

  predicate Contains(text: string, word: string) {
    exists i :: 0 <= i <= |text| - |word| && text[i..][..|word|] == word
  }

  predicate LineText(s: string) {
    '\r' !in s && '\n' !in s
  }

  predicate QuotedText(s: string) {
    LineText(s) && ';' !in s
  }

  predicate Printable(boundary: string, p: Part) {
    && QuotedText(p.name) && (p.File? ==> QuotedText(p.filename) && LineText(p.kind))
    && !Contains(ContentOf(p), Delimiter(boundary))
  }

  /** Positions in the boundary are kept in a byte. */
  predicate GoodBoundary(boundary: string) {
    0 < |boundary| < 256 && '\r' !in boundary
  }

  // ---------------------------------------------------------------- what is delivered

  function Delivered(p: Part): seq<Param> {
    match p
    case Field(name, value) => [Param(name, value, true, false, 0)]
    case File(name, filename, _, data) => if data == [] then [] else [Param(name, filename, true, true, |data|)]
  }

  function DeliveredAll(parts: seq<Part>): seq<Param> {
    if parts == [] then [] else Delivered(parts[0]) + DeliveredAll(parts[1..])
  }

  function JoinUploads(chunks: seq<Upload>): string {
    if chunks == [] then [] else JoinUploads(chunks[..|chunks| - 1]) + chunks[|chunks| - 1].data
  }

  /** A byte of a file is kept until 1460 of them are there or the segment ends. */
  lemma UploadFlushed(it: Item, data: char, last: bool)
    ensures var next, bytes := HandleUploadByte(it, data, last), it.buffer + [data];
      if last || |bytes| == 1460
      then next.buffer == [] && |next.uploads| == |it.uploads| + 1 && next.uploads[|it.uploads|].data == bytes
      else next.buffer == bytes && next.uploads == it.uploads
  {
  }

  /** Chunks of an upload that goes on: consecutive, each with the offset where it starts. */
  predicate OpenChunks(filename: string, chunks: seq<Upload>) {
    forall i :: 0 <= i < |chunks| ==>
      && chunks[i].filename == filename && !chunks[i].final
      && chunks[i].index == |JoinUploads(chunks[..i])| && 0 < |chunks[i].data| <= 1460
  }

  /** The chunks of a whole file: all of its data in order, with exactly one final chunk,
      which is the last one. */
  predicate WholeFile(filename: string, data: string, chunks: seq<Upload>) {
    var n := |chunks| - 1;
    && n >= 0 && OpenChunks(filename, chunks[..n])
    && chunks[n].filename == filename && chunks[n].final && chunks[n].index == |JoinUploads(chunks[..n])|
    && JoinUploads(chunks) == data
  }

  /** The upload calls are those of the non-empty files, one after the other. */
  ghost predicate UploadsOf(parts: seq<Part>, uploads: seq<Upload>) {
    if parts == [] then uploads == []
    else if parts[0].File? && parts[0].data != [] then
      exists n :: 0 <= n <= |uploads| && WholeFile(parts[0].filename, parts[0].data, uploads[..n])
               && UploadsOf(parts[1..], uploads[n..])
    else UploadsOf(parts[1..], uploads)
  }

  // ---------------------------------------------------------------- feeding with any flags

  /** Bytes with the last flags that some segmentation gives them. */
  function Feed(m: Multipart, data: string, last: seq<bool>): Multipart
    requires |last| == |data|
    decreases |data|
  {
    if data == [] then m else Feed(MultipartStep(m, data[0], last[0]), data[1..], last[1..])
  }

  lemma {:induction false} FeedJoin(m: Multipart, a: string, b: string, last: seq<bool>)
    requires |last| == |a| + |b|
    ensures Feed(m, a + b, last) == Feed(Feed(m, a, last[..|a|]), b, last[|a|..])
    decreases |a|
  {
    if a == [] {
      assert a + b == b && last[0..] == last;
    } else {
      assert (a + b)[1..] == a[1..] + b;
      assert last[1..][..|a| - 1] == last[..|a|][1..] && last[1..][|a| - 1..] == last[|a|..];
      FeedJoin(MultipartStep(m, a[0], last[0]), a[1..], b, last[1..]);
    }
  }

  lemma {:induction false} FeedLength(m: Multipart, data: string, last: seq<bool>)
    requires |last| == |data|
    ensures Feed(m, data, last).parsedLength == m.parsedLength + |data|
    ensures Feed(m, data, last).boundary == m.boundary
    decreases |data|
  {
    if data != [] {
      StepAdvances(m, data[0], last[0]);
      FeedLength(MultipartStep(m, data[0], last[0]), data[1..], last[1..]);
    }
  }

  // ---------------------------------------------------------------- content

  predicate EndsWith(text: string, end: string) {
    |end| <= |text| && text[|text| - |end|..] == end
  }

  /** What has been taken for content of the current part; uploads of earlier parts are
      the first before of the log. */
  function Written(it: Item, before: nat): string
    requires before <= |it.uploads|
  {
    if it.isFile then JoinUploads(it.uploads[before..]) + it.buffer else it.value
  }

  lemma JoinUploadsOne(chunks: seq<Upload>, u: Upload)
    ensures JoinUploads(chunks + [u]) == JoinUploads(chunks) + u.data
  {
  }

  lemma OpenChunksOne(filename: string, chunks: seq<Upload>, u: Upload)
    requires OpenChunks(filename, chunks)
    requires u.filename == filename && !u.final && u.index == |JoinUploads(chunks)|
    requires 0 < |u.data| <= 1460
    ensures OpenChunks(filename, chunks + [u])
  {
    var more := chunks + [u];
    forall i | 0 <= i < |more|
      ensures more[i].filename == filename && !more[i].final
      ensures more[i].index == |JoinUploads(more[..i])| && 0 < |more[i].data| <= 1460
    {
      assert i < |chunks| ==> more[..i] == chunks[..i];
      assert more[..|chunks|] == chunks;
    }
  }

  /** The part of ReadingOk that does not mention the delimiter. */
  ghost predicate WritingOk(it: Item, before: seq<Upload>, written: string) {
    && before <= it.uploads && Written(it, |before|) == written && it.size == |written|
    && (it.isFile ==> OpenChunks(it.filename, it.uploads[|before|..]) && |it.buffer| < UPLOAD_BUFFER)
    && (!it.isFile ==> it.uploads == before && it.buffer == [])
  }

  /** A chunk handed over in the middle of a file. */
  lemma ChunkOk(filename: string, uploads: seq<Upload>, n: nat, u: Upload, written: string)
    requires n <= |uploads| && OpenChunks(filename, uploads[n..])
    requires u.filename == filename && !u.final && 0 < |u.data| <= 1460
    requires JoinUploads(uploads[n..]) + u.data == written && u.index == |written| - |u.data|
    ensures OpenChunks(filename, (uploads + [u])[n..]) && JoinUploads((uploads + [u])[n..]) == written
  {
    var chunks := uploads[n..];
    assert (uploads + [u])[n..] == chunks + [u];
    JoinUploadsOne(chunks, u);
    OpenChunksOne(filename, chunks, u);
  }

  predicate SamePart(it: Item, w: Item) {
    && w.state == it.state && w.boundaryPosition == it.boundaryPosition
    && w.isFile == it.isFile && w.name == it.name && w.filename == it.filename
  }

  lemma WriteByteOk(it: Item, data: char, last: bool, before: seq<Upload>, written: string)
    requires WritingOk(it, before, written)
    ensures var w := WriteByte(it, data, last);
      && WritingOk(w, before, written + [data])
      && SamePart(it, w)
  {
    var w := WriteByte(it, data, last);
    if it.isFile {
      var joined, buffer := JoinUploads(it.uploads[|before|..]), it.buffer + [data];
      assert joined + buffer == (joined + it.buffer) + [data];
      if w.uploads != it.uploads {
        ChunkOk(it.filename, it.uploads, |before|, w.uploads[|it.uploads|], written + [data]);
        assert (written + [data]) + [] == written + [data];
      }
    }
  }

  lemma {:induction false} WriteBackOk(it: Item, data: string, last: bool, before: seq<Upload>, written: string)
    requires WritingOk(it, before, written)
    ensures var w := WriteBack(it, data, last);
      && WritingOk(w, before, written + data)
      && SamePart(it, w)
    decreases |data|
  {
    if data == [] {
      assert written + data == written;
    } else {
      var w, rest := WriteByte(it, data[0], last), data[1..];
      WriteByteOk(it, data[0], last, before, written);
      assert (written + [data[0]]) + rest == written + data;
      WriteBackOk(w, rest, last, before, written + [data[0]]);
      assert WriteBack(it, data, last) == WriteBack(w, rest, last);
    }
  }

  // ---------------------------------------------------------------- the delimiter search

  /** How much of the delimiter is held back. */
  function Matched(it: Item): nat
    requires Reading(it.state)
  {
    match it.state
    case WaitForReturn1 => 0
    case ExpectFeed1 => 1
    case ExpectDash1 => 2
    case ExpectDash2 => 3
    case BoundaryOrData => 4 + it.boundaryPosition
  }

  predicate InDelimiter(it: Item, boundary: string) {
    Reading(it.state) && (it.state.BoundaryOrData? ==> it.boundaryPosition < |boundary|)
  }

  lemma HeldIsDelimiter(it: Item, boundary: string, data: char)
    requires InDelimiter(it, boundary)
    ensures var d, n := Delimiter(boundary), Matched(it);
      && n < |d| && Held(it, boundary) == d[..n] && (Continues(it, boundary, data) <==> n > 0 && d[n] == data)
  {
  }

  lemma DelimiterHasOneReturn(boundary: string, i: nat)
    requires GoodBoundary(boundary) && 0 < i < 4 + |boundary|
    ensures Delimiter(boundary)[i] != '\r' && Delimiter(boundary)[0] == '\r'
  {
  }

  /** n is the length of the longest end of the text that starts a delimiter (0 if none). */
  ghost predicate LongestMatch(text: string, d: string, n: nat) {
    && n <= |d| && EndsWith(text, d[..n])
    && forall k :: 1 <= k <= |d| && EndsWith(text, d[..k]) ==> k == n
  }

  lemma EndsWithLess(text: string, c: char, d: string, k: nat)
    requires 1 <= k <= |d|
    ensures EndsWith(text + [c], d[..k]) <==> EndsWith(text, d[..k - 1]) && d[k - 1] == c
  {
    var more := text + [c];
    assert d[..k] == d[..k - 1] + [d[k - 1]];
    if k <= |more| {
      assert more[|more| - k..] == text[|text| - (k - 1)..] + [c];
    }
  }

  /** Because the delimiter has a single carriage return, one character settles the new
      longest match from the old one. */
  lemma NextMatch(boundary: string, text: string, n: nat, c: char)
    requires GoodBoundary(boundary)
    requires LongestMatch(text, Delimiter(boundary), n) && n < |Delimiter(boundary)|
    ensures var d := Delimiter(boundary);
      LongestMatch(text + [c], d, if d[n] == c then n + 1 else if c == '\r' then 1 else 0)
  {
    var d := Delimiter(boundary);
    var next := if d[n] == c then n + 1 else if c == '\r' then 1 else 0;
    assert EndsWith(text, d[..0]);
    forall k | 1 <= k <= |d| && EndsWith(text + [c], d[..k])
      ensures k == next
    {
      EndsWithLess(text, c, d, k);
      if k > 1 {
        DelimiterHasOneReturn(boundary, k - 1);
      } else if n > 0 {
        DelimiterHasOneReturn(boundary, n);
      }
    }
    if next > 0 {
      EndsWithLess(text, c, d, next);
    }
  }

  /** The item while content is read: what was taken for content and what is held back
      make up all that was read, and what is held back is the longest end of it that
      can still become a delimiter. */
  ghost predicate ReadingOk(it: Item, boundary: string, read: string, before: seq<Upload>) {
    && InDelimiter(it, boundary) && before <= it.uploads
    && WritingOk(it, before, Written(it, |before|))
    && Written(it, |before|) + Delimiter(boundary)[..Matched(it)] == read
    && LongestMatch(read, Delimiter(boundary), Matched(it))
  }

  lemma ResumeOk(it: Item, boundary: string, data: char, last: bool, read: string, before: seq<Upload>)
    requires GoodBoundary(boundary) && ReadingOk(it, boundary, read, before)
    requires !Continues(it, boundary, data)
    ensures var w := Resume(it, Held(it, boundary), data, last);
      ReadingOk(w, boundary, read + [data], before) && SamePart(it.(state := w.state), w)
  {
    hide LongestMatch, GoodBoundary;
    var d, written := Delimiter(boundary), Written(it, |before|);
    HeldIsDelimiter(it, boundary, data);
    NextMatch(boundary, read, Matched(it), data);
    var start := it.(state := WaitForReturn1);
    WriteBackOk(start, Held(it, boundary), last, before, written);
    var back := WriteBack(start, Held(it, boundary), last);
    DelimiterHasOneReturn(boundary, 1);
    if data == '\r' {
      if Matched(it) > 0 {
        DelimiterHasOneReturn(boundary, Matched(it));
      }
      var w := back.(state := ExpectFeed1);
      assert Written(w, |before|) == read && d[..1] == [data];
    } else {
      WriteByteOk(back, data, last, before, read);
      assert (read + [data]) + d[..0] == read + [data];
    }
  }

  lemma AdvanceOk(m: Multipart, data: char, read: string, before: seq<Upload>)
    requires GoodBoundary(m.boundary) && ReadingOk(m.item, m.boundary, read, before)
    requires Continues(m.item, m.boundary, data) && Matched(m.item) + 1 < |Delimiter(m.boundary)|
    ensures var a := Advance(m, data);
      && a == m.(item := m.item.(state := a.item.state, boundaryPosition := a.item.boundaryPosition))
      && ReadingOk(a.item, m.boundary, read + [data], before)
  {
    var it, d, n := m.item, Delimiter(m.boundary), Matched(m.item);
    HeldIsDelimiter(it, m.boundary, data);
    NextMatch(m.boundary, read, n, data);
    var a := Advance(m, data).item;
    assert Matched(a) == n + 1 && InDelimiter(a, m.boundary);
    var written := Written(it, |before|);
    assert Written(a, |before|) == written;
    assert d[..n + 1] == d[..n] + [data];
    assert written + d[..n + 1] == read + [data];
  }

  /** One byte that does not complete a delimiter. */
  lemma ContentByte(m: Multipart, data: char, last: bool, read: string, before: seq<Upload>)
    requires m.parsedLength != 0 && GoodBoundary(m.boundary) && ReadingOk(m.item, m.boundary, read, before)
    requires !EndsWith(read + [data], Delimiter(m.boundary))
    ensures var b := MultipartByte(m, data, last);
      && b == m.(item := b.item) && ReadingOk(b.item, m.boundary, read + [data], before)
      && SamePart(m.item.(state := b.item.state, boundaryPosition := b.item.boundaryPosition), b.item)
  {
    var it, d, n := m.item, Delimiter(m.boundary), Matched(m.item);
    HeldIsDelimiter(it, m.boundary, data);
    if Continues(it, m.boundary, data) {
      NextMatch(m.boundary, read, n, data);
      assert d[..|d|] == d;
      AdvanceOk(m, data, read, before);
    } else {
      ResumeOk(it, m.boundary, data, last, read, before);
    }
  }

  /** Two states of the same part, further and further in its content. */
  predicate SameContent(m: Multipart, b: Multipart, n: nat) {
    && b == m.(item := b.item, parsedLength := m.parsedLength + n)
    && SamePart(m.item.(state := b.item.state, boundaryPosition := b.item.boundaryPosition), b.item)
  }

  lemma SameContentJoin(m: Multipart, b: Multipart, c: Multipart, n: nat, k: nat)
    requires SameContent(m, b, n) && SameContent(b, c, k)
    ensures SameContent(m, c, n + k)
  {
  }

  lemma AppendOne(read: string, data: string, j: nat)
    requires j < |data|
    ensures read + data[..j + 1] == read + [data[0]] + data[1..][..j]
    ensures j == 0 ==> read + data[..1] == read + [data[0]]
    ensures j + 1 == |data| ==> read + data == read + [data[0]] + data[1..]
  {
  }

  lemma ContentStep(m: Multipart, data: char, last: bool, read: string, before: seq<Upload>)
    requires m.parsedLength != 0 && GoodBoundary(m.boundary) && ReadingOk(m.item, m.boundary, read, before)
    requires !EndsWith(read + [data], Delimiter(m.boundary))
    ensures var b := MultipartStep(m, data, last);
      SameContent(m, b, 1) && ReadingOk(b.item, m.boundary, read + [data], before)
  {
    ContentByte(m, data, last, read, before);
  }

  lemma {:induction false} ContentBytes(m: Multipart, data: string, last: seq<bool>, read: string, before: seq<Upload>)
    requires |last| == |data|
    requires m.parsedLength != 0 && GoodBoundary(m.boundary) && ReadingOk(m.item, m.boundary, read, before)
    requires forall j :: 1 <= j <= |data| ==> !EndsWith(read + data[..j], Delimiter(m.boundary))
    ensures var b := Feed(m, data, last);
      SameContent(m, b, |data|) && ReadingOk(b.item, m.boundary, read + data, before)
    decreases |data|
  {
    if data == [] {
      assert read + data == read;
    } else {
      AppendOne(read, data, 0);
      AppendOne(read, data, |data| - 1);
      ContentStep(m, data[0], last[0], read, before);
      var b, rest, read1 := MultipartStep(m, data[0], last[0]), data[1..], read + [data[0]];
      forall j | 1 <= j <= |rest|
        ensures !EndsWith(read1 + rest[..j], Delimiter(m.boundary))
      {
        AppendOne(read, data, j);
      }
      ContentBytes(b, rest, last[1..], read1, before);
      SameContentJoin(m, b, Feed(b, rest, last[1..]), 1, |rest|);
    }
  }

  /** Content without a delimiter, followed by one, shows it only at the very end. */
  lemma OnlyAtTheEnd(boundary: string, content: string, j: nat)
    requires GoodBoundary(boundary) && !Contains(content, Delimiter(boundary))
    requires j < |content| + |Delimiter(boundary)|
    ensures !EndsWith((content + Delimiter(boundary))[..j], Delimiter(boundary))
  {
    var d := Delimiter(boundary);
    var text := (content + d)[..j];
    if |d| <= j {
      var i := j - |d|;
      if j <= |content| {
        assert text[i..] == content[i..][..|d|];
      } else {
        assert text[i..][|content| - i] == d[0];
        DelimiterHasOneReturn(boundary, |content| - i);
      }
    }
  }

  // ---------------------------------------------------------------- the end of a part

  lemma NoBytesNoChunks(filename: string, chunks: seq<Upload>)
    requires OpenChunks(filename, chunks)
    ensures chunks != [] ==> JoinUploads(chunks) != []
  {
  }

  lemma FinalChunk(filename: string, open: seq<Upload>, buffer: string, content: string, u: Upload)
    requires OpenChunks(filename, open) && JoinUploads(open) + buffer == content
    requires u == Upload(filename, |content| - |buffer|, buffer, true)
    ensures WholeFile(filename, content, open + [u])
  {
  }

  /** What the end of a part adds to the parameters. */
  function PartParams(it: Item, content: string): seq<Param> {
    if !it.isFile then [Param(it.name, content, true, false, 0)]
    else if content == [] then []
    else [Param(it.name, it.filename, true, true, |content|)]
  }

  /** What the end of a part has added to the upload log. */
  ghost predicate PartUploads(it: Item, content: string, chunks: seq<Upload>) {
    if it.isFile && content != [] then WholeFile(it.filename, content, chunks) else chunks == []
  }

  /** The state behind a part. */
  ghost predicate PartEnded(m: Multipart, content: string, b: Multipart) {
    && b.item.state == Dash3OrReturn2 && b.item.buffer == []
    && b.boundary == m.boundary && b.contentLength == m.contentLength && b.temp == m.temp
    && b.params == m.params + PartParams(m.item, content)
    && m.item.uploads <= b.item.uploads
    && PartUploads(m.item, content, b.item.uploads[|m.item.uploads|..])
  }

  lemma EndPartOk(m: Multipart, b: Multipart, content: string)
    requires m.parsedLength <= b.parsedLength && SameContent(m, b, b.parsedLength - m.parsedLength)
    requires WritingOk(b.item, m.item.uploads, content)
    ensures PartEnded(m, content, EndPart(b))
  {
    var it, n := b.item, |m.item.uploads|;
    if it.isFile {
      var open := it.uploads[n..];
      if content == [] {
        NoBytesNoChunks(it.filename, open);
        assert m.params + [] == m.params;
      } else {
        var u := Upload(it.filename, |content| - |it.buffer|, it.buffer, true);
        FinalChunk(it.filename, open, it.buffer, content, u);
        assert (it.uploads + [u])[n..] == open + [u];
      }
    }
  }

  /** The last byte of the delimiter finds the whole content written. */
  lemma LastDelimiterByte(m: Multipart, last: bool, content: string, before: seq<Upload>)
    requires m.parsedLength != 0 && GoodBoundary(m.boundary)
    requires var d := Delimiter(m.boundary);
      ReadingOk(m.item, m.boundary, content + d[..|d| - 1], before)
    ensures WritingOk(m.item, before, content)
    ensures var d := Delimiter(m.boundary);
      MultipartByte(m, d[|d| - 1], last) == EndPart(m)
  {
  }

  lemma DelimiterParts(boundary: string, content: string)
    ensures var d := Delimiter(boundary);
      content + d == (content + d[..|d| - 1]) + [d[|d| - 1]]
  {
  }

  /** The content of a part and the delimiter behind it. */
  lemma PartContent(m: Multipart, content: string, last: seq<bool>)
    requires m.parsedLength != 0 && GoodBoundary(m.boundary) && !Contains(content, Delimiter(m.boundary))
    requires m.item.state == WaitForReturn1 && m.item.size == 0 && m.item.value == [] && m.item.buffer == []
    requires |last| == |content + Delimiter(m.boundary)|
    ensures PartEnded(m, content, Feed(m, content + Delimiter(m.boundary), last))
  {
    var d, before := Delimiter(m.boundary), m.item.uploads;
    var shown := content + d[..|d| - 1];
    DelimiterParts(m.boundary, content);
    FeedJoin(m, shown, [d[|d| - 1]], last);
    FreshContent(m.item, m.boundary);
    forall j | 1 <= j <= |shown|
      ensures !EndsWith([] + shown[..j], d)
    {
      OnlyAtTheEnd(m.boundary, content, j);
      assert [] + shown[..j] == (content + d)[..j];
    }
    ContentBytes(m, shown, last[..|shown|], [], before);
    assert [] + shown == shown;
    var b, l := Feed(m, shown, last[..|shown|]), last[|shown|..];
    LastDelimiterByte(b, l[0], content, before);
    EndPartOk(m, b, content);
    assert Feed(b, [d[|d| - 1]], l) == MultipartStep(b, d[|d| - 1], l[0]);
  }

  lemma FreshContent(it: Item, boundary: string)
    requires it.state == WaitForReturn1 && it.size == 0 && it.value == [] && it.buffer == []
    ensures ReadingOk(it, boundary, [], it.uploads)
  {
  }

  // ---------------------------------------------------------------- the head of a part

  lemma {:induction false} LineBytes(m: Multipart, line: string, last: seq<bool>)
    requires m.parsedLength != 0 && m.item.state == ParseHeaders && LineText(line) && |last| == |line|
    ensures Feed(m, line, last) == m.(temp := m.temp + line, parsedLength := m.parsedLength + |line|)
    decreases |line|
  {
    if line == [] {
      assert m.temp + line == m.temp;
    } else {
      var b := MultipartStep(m, line[0], last[0]);
      assert b == m.(temp := m.temp + [line[0]], parsedLength := m.parsedLength + 1);
      LineBytes(b, line[1..], last[1..]);
      assert m.temp + [line[0]] + line[1..] == m.temp + line;
    }
  }

  lemma CrLf(m: Multipart, last: seq<bool>)
    requires m.parsedLength != 0 && m.item.state == ParseHeaders && |last| == 2
    ensures Feed(m, "\r\n", last) == EndPartLine(m).(parsedLength := m.parsedLength + 2)
  {
  }

  /** A line of the head of a part; the empty line starts the content. */
  lemma HeaderLine(m: Multipart, line: string, last: seq<bool>)
    requires m.parsedLength != 0 && m.item.state == ParseHeaders && m.temp == [] && LineText(line)
    requires |last| == |line| + 2
    ensures Feed(m, line + "\r\n", last)
         == m.(item := if line == [] then StartContent(m.item) else PartHeader(m.item, line),
               parsedLength := m.parsedLength + |line| + 2)
  {
    hide PartHeader, StartContent, Feed, LineText;
    FeedJoin(m, line, "\r\n", last);
    LineBytes(m, line, last[..|line|]);
    assert [] + line == line;
    CrLf(m.(temp := line, parsedLength := m.parsedLength + |line|), last[|line|..]);
  }

  lemma QuotedParts(key: string, value: string)
    requires QuotedText(value) && ';' !in key && '=' !in key
    ensures var text := Quoted(key, value);
      && ';' !in text && IndexOf(text, '=') == |key|
      && Substring(text, 0, |key|) == key && Substring(text, |key| + 2, |text| - 1) == value
  {
    var text := Quoted(key, value);
    assert text[|key|] == '=' && forall i :: 0 <= i < |key| ==> text[i] == key[i];
  }

  lemma LastName(it: Item, key: string, value: string)
    requires QuotedText(value) && ';' !in key && '=' !in key
    ensures Disposition(it, Quoted(key, value)) == DispositionField(it, key, value)
  {
    QuotedParts(key, value);
  }

  lemma FirstNameParts(key: string, value: string, rest: string)
    requires QuotedText(value) && ';' !in key && '=' !in key
    ensures var n, text := |Quoted(key, value)|, Quoted(key, value) + "; " + rest;
      && n > 0 && IndexOf(text, ';') == n && IndexOf(text, '=') == |key|
      && Substring(text, 0, |key|) == key && Substring(text, |key| + 2, n - 1) == value
      && From(text, n + 2) == rest
  {
    var first := Quoted(key, value);
    var text := first + "; " + rest;
    QuotedParts(key, value);
    assert forall i :: 0 <= i < |first| ==> text[i] == first[i];
    assert text[|first|] == ';';
    SameStart(first, text, |key|);
    SameStart(first, text, |first| - 1);
    assert text[|key| + 2..|first| - 1] == first[|key| + 2..|first| - 1];
    assert text[|first| + 2..] == rest;
  }

  lemma SameStart(first: string, text: string, n: nat)
    requires n <= |first| && first <= text
    ensures text[..n] == first[..n]
  {
  }

  lemma FirstName(it: Item, key: string, value: string, rest: string)
    requires QuotedText(value) && ';' !in key && '=' !in key
    ensures Disposition(it, Quoted(key, value) + "; " + rest) == Disposition(DispositionField(it, key, value), rest)
  {
    FirstNameParts(key, value, rest);
  }

  lemma NamesParsed(it: Item, p: Part)
    requires QuotedText(p.name) && (p.File? ==> QuotedText(p.filename))
    ensures Disposition(it, Names(p)) ==
      match p
      case Field(name, _) => it.(name := name)
      case File(name, filename, _, _) => it.(name := name, filename := filename, isFile := true)
  {
    hide Disposition, Quoted, QuotedText;
    if p.Field? {
      LastName(it, "name", p.name);
    } else {
      FirstName(it, "name", p.name, Quoted("filename", p.filename));
      LastName(it.(name := p.name), "filename", p.filename);
    }
  }

  lemma DispositionHeader(it: Item, rest: string)
    ensures PartHeader(it, "Content-Disposition: form-data; " + rest) == Disposition(it, rest)
  {
    var start := "Content-Disposition: form-data; ";
    var line := start + rest;
    assert |start| == 32 && start[30] == ';';
    assert forall i :: 0 <= i < 32 ==> line[i] == start[i];
    assert IndexOf(line, ';') == 30;
    assert line[..19] == start[..19] == "Content-Disposition";
    assert line[..12] == start[..12] == "Content-Disp";
    assert Lower("Content-Disp"[8]) != Lower("Content-Type"[8]);
    assert From(line, 32) == rest;
  }

  lemma KindParsed(it: Item, kind: string)
    ensures PartHeader(it, "Content-Type: " + kind) == it.(kind := kind, isFile := true)
  {
  }

  lemma NamesAreLines(p: Part)
    requires QuotedText(p.name) && (p.File? ==> QuotedText(p.filename))
    ensures LineText(Names(p))
  {
  }

  lemma HeadLinesAreLines(p: Part)
    requires QuotedText(p.name) && (p.File? ==> QuotedText(p.filename) && LineText(p.kind))
    ensures LineText(DispositionLine(p)) && DispositionLine(p) != []
    ensures p.File? ==> LineText("Content-Type: " + p.kind)
  {
    NamesAreLines(p);
    DispositionIsLine(Names(p));
    if p.File? {
      KindIsLine(p.kind);
    }
  }

  lemma DispositionIsLine(names: string)
    requires LineText(names)
    ensures LineText("Content-Disposition: form-data; " + names)
  {
  }

  lemma KindIsLine(kind: string)
    requires LineText(kind)
    ensures LineText("Content-Type: " + kind)
  {
  }

  /** The item when its head has been read. */
  function HeadRead(it: Item, p: Part): Item {
    match p
    case Field(name, _) => StartContent(it.(name := name))
    case File(name, filename, kind, _) =>
      StartContent(it.(name := name, filename := filename, kind := kind, isFile := true))
  }

  lemma HeadOfOneLine(m: Multipart, line: string, it1: Item, last: seq<bool>)
    requires m.parsedLength != 0 && m.item.state == ParseHeaders && m.temp == []
    requires LineText(line) && line != [] && |last| == |line| + 4
    requires it1 == PartHeader(m.item, line) && it1.state == ParseHeaders
    ensures Feed(m, line + "\r\n" + "\r\n", last)
         == m.(item := StartContent(it1), parsedLength := m.parsedLength + |line| + 4)
  {
    hide PartHeader, StartContent, Feed, LineText;
    var first := line + "\r\n";
    FeedJoin(m, first, "\r\n", last);
    HeaderLine(m, line, last[..|first|]);
    var m1 := m.(item := it1, parsedLength := m.parsedLength + |line| + 2);
    assert Feed(m, first, last[..|first|]) == m1;
    EmptyLine(m1, last[|first|..]);
  }

  lemma EmptyLine(m: Multipart, last: seq<bool>)
    requires m.parsedLength != 0 && m.item.state == ParseHeaders && m.temp == [] && |last| == 2
    ensures Feed(m, "\r\n", last) == m.(item := StartContent(m.item), parsedLength := m.parsedLength + 2)
  {
  }

  lemma HeadOfTwoLines(m: Multipart, line1: string, it1: Item, line2: string, it2: Item, last: seq<bool>)
    requires m.parsedLength != 0 && m.item.state == ParseHeaders && m.temp == []
    requires LineText(line1) && line1 != [] && LineText(line2) && line2 != [] && |last| == |line1| + |line2| + 6
    requires it1 == PartHeader(m.item, line1) && it1.state == ParseHeaders
    requires it2 == PartHeader(it1, line2) && it2.state == ParseHeaders
    ensures Feed(m, line1 + "\r\n" + (line2 + "\r\n" + "\r\n"), last)
         == m.(item := StartContent(it2), parsedLength := m.parsedLength + |line1| + |line2| + 6)
  {
    hide PartHeader, StartContent, Feed, LineText;
    var first, second := line1 + "\r\n", line2 + "\r\n" + "\r\n";
    FeedJoin(m, first, second, last);
    HeaderLine(m, line1, last[..|first|]);
    var m1 := m.(item := it1, parsedLength := m.parsedLength + |first|);
    assert Feed(m, first, last[..|first|]) == m1;
    HeadOfOneLine(m1, line2, it2, last[|first|..]);
  }

  lemma PartHead(m: Multipart, p: Part, last: seq<bool>)
    requires m.parsedLength != 0 && m.item.state == ParseHeaders && m.temp == []
    requires QuotedText(p.name) && (p.File? ==> QuotedText(p.filename) && LineText(p.kind))
    requires |last| == |HeadOf(p)|
    ensures Feed(m, HeadOf(p), last) == m.(item := HeadRead(m.item, p), parsedLength := m.parsedLength + |HeadOf(p)|)
  {
    var line := DispositionLine(p);
    HeadLinesAreLines(p);
    NamesParsed(m.item, p);
    DispositionHeader(m.item, Names(p));
    if p.Field? {
      HeadOfOneLine(m, line, m.item.(name := p.name), last);
    } else {
      var it1 := m.item.(name := p.name, filename := p.filename, isFile := true);
      KindParsed(it1, p.kind);
      HeadOfTwoLines(m, line, it1, "Content-Type: " + p.kind, it1.(kind := p.kind), last);
    }
  }

  // ---------------------------------------------------------------- all parts

  /** Right behind a delimiter, the first one or one between parts. */
  predicate AtDelimiter(m: Multipart) {
    && m.parsedLength != 0 && m.temp == [] && m.item.buffer == []
    && (m.item.state == Dash3OrReturn2
        || (m.item.state == ExpectBoundary && m.parsedLength == 2 + |m.boundary|))
  }

  lemma ReturnBytes(m: Multipart, last: seq<bool>)
    requires AtDelimiter(m) && |last| == 2
    ensures Feed(m, "\r\n", last)
         == m.(item := m.item.(state := ParseHeaders, isFile := false), parsedLength := m.parsedLength + 2)
  {
  }

  /** What one part does to the parser. */
  ghost predicate PartDone(m: Multipart, p: Part, b: Multipart) {
    && AtDelimiter(b) && b.item.state == Dash3OrReturn2
    && b.boundary == m.boundary && b.contentLength == m.contentLength
    && b.params == m.params + Delivered(p)
    && m.item.uploads <= b.item.uploads
    && var chunks := b.item.uploads[|m.item.uploads|..];
    if p.File? && p.data != [] then WholeFile(p.filename, p.data, chunks) else chunks == []
  }

  lemma PartHeadRead(m: Multipart, p: Part, last: seq<bool>)
    requires AtDelimiter(m) && Printable(m.boundary, p) && |last| == 2 + |HeadOf(p)|
    ensures Feed(m, "\r\n" + HeadOf(p), last)
         == m.(item := HeadRead(m.item.(state := ParseHeaders, isFile := false), p),
               parsedLength := m.parsedLength + 2 + |HeadOf(p)|)
  {
    FeedJoin(m, "\r\n", HeadOf(p), last);
    ReturnBytes(m, last[..2]);
    PartHead(m.(item := m.item.(state := ParseHeaders, isFile := false), parsedLength := m.parsedLength + 2),
             p, last[2..]);
  }

  lemma OnePart(m: Multipart, p: Part, last: seq<bool>)
    requires AtDelimiter(m) && GoodBoundary(m.boundary) && Printable(m.boundary, p)
    requires |last| == |PrintPart(m.boundary, p)|
    ensures PartDone(m, p, Feed(m, PrintPart(m.boundary, p), last))
  {
    var head, content := "\r\n" + HeadOf(p), ContentOf(p) + Delimiter(m.boundary);
    assert PrintPart(m.boundary, p) == head + content;
    FeedJoin(m, head, content, last);
    PartHeadRead(m, p, last[..|head|]);
    var m1 := Feed(m, head, last[..|head|]);
    PartContent(m1, ContentOf(p), last[|head|..]);
    FeedLength(m1, content, last[|head|..]);
    PartEndedIsDone(m, p, m1, Feed(m1, content, last[|head|..]));
  }

  lemma PartEndedIsDone(m: Multipart, p: Part, m1: Multipart, b: Multipart)
    requires AtDelimiter(m) && b.parsedLength != 0
    requires m1 == m.(item := HeadRead(m.item.(state := ParseHeaders, isFile := false), p),
                      parsedLength := m1.parsedLength)
    requires PartEnded(m1, ContentOf(p), b)
    ensures PartDone(m, p, b)
  {
  }

  lemma {:induction false} FinishedIgnores(m: Multipart, data: string, last: seq<bool>)
    requires m.parsedLength != 0 && m.item.state == ParsingFinished && |last| == |data|
    ensures Feed(m, data, last) == m.(parsedLength := m.parsedLength + |data|)
    decreases |data|
  {
    if data != [] {
      FinishedIgnores(m.(parsedLength := m.parsedLength + 1), data[1..], last[1..]);
    }
  }

  /** What a printed body does to the parser. */
  ghost predicate BodyDone(m: Multipart, parts: seq<Part>, length: nat, b: Multipart) {
    && b.item.state == ParsingFinished && b.boundary == m.boundary
    && b.contentLength == b.parsedLength == m.parsedLength + length
    && b.params == m.params + DeliveredAll(parts)
    && m.item.uploads <= b.item.uploads
    && UploadsOf(parts, b.item.uploads[|m.item.uploads|..])
  }

  lemma NoMoreParts(m: Multipart, last: seq<bool>)
    requires AtDelimiter(m) && m.item.state == Dash3OrReturn2 && |last| == 4
    ensures BodyDone(m, [], 4, Feed(m, "--\r\n", last))
  {
  }

  lemma BodyDoneOneMore(m: Multipart, parts: seq<Part>, b: Multipart, length: nat, c: Multipart, total: nat)
    requires parts != [] && PartDone(m, parts[0], b) && BodyDone(b, parts[1..], length, c)
    requires b.parsedLength + length == m.parsedLength + total
    ensures BodyDone(m, parts, total, c)
  {
    var p, u0, u1, u2 := parts[0], |m.item.uploads|, |b.item.uploads|, c.item.uploads;
    assert (m.params + Delivered(p)) + DeliveredAll(parts[1..]) == m.params + (Delivered(p) + DeliveredAll(parts[1..]));
    var all, n := u2[u0..], u1 - u0;
    assert all[..n] == b.item.uploads[u0..] && all[n..] == u2[u1..];
    if !(p.File? && p.data != []) {
      assert all == all[n..];
    }
  }

  lemma {:induction false} AllParts(m: Multipart, parts: seq<Part>, last: seq<bool>)
    requires AtDelimiter(m) && GoodBoundary(m.boundary) && forall p :: p in parts ==> Printable(m.boundary, p)
    requires parts == [] ==> m.item.state == Dash3OrReturn2
    requires |last| == |PrintParts(m.boundary, parts)|
    ensures BodyDone(m, parts, |PrintParts(m.boundary, parts)|, Feed(m, PrintParts(m.boundary, parts), last))
    decreases |parts|
  {
    if parts == [] {
      NoMoreParts(m, last);
    } else {
      var text, rest := PrintPart(m.boundary, parts[0]), PrintParts(m.boundary, parts[1..]);
      FeedJoin(m, text, rest, last);
      OnePart(m, parts[0], last[..|text|]);
      var b, l := Feed(m, text, last[..|text|]), last[|text|..];
      FeedLength(m, text, last[..|text|]);
      AllParts(b, parts[1..], l);
      BodyDoneOneMore(m, parts, b, |rest|, Feed(b, rest, l), |text| + |rest|);
    }
  }

  // ---------------------------------------------------------------- the first delimiter

  lemma {:induction false} BoundaryBytes(m: Multipart, n: nat, last: seq<bool>)
    requires m.parsedLength == 2 + n && n <= |m.boundary| && m.item.state == ExpectBoundary
    requires |last| == |m.boundary| - n
    ensures Feed(m, m.boundary[n..], last) == m.(parsedLength := 2 + |m.boundary|)
    decreases |m.boundary| - n
  {
    if n < |m.boundary| {
      var b := MultipartStep(m, m.boundary[n], last[0]);
      assert b == m.(parsedLength := 3 + n);
      assert m.boundary[n..][1..] == m.boundary[n + 1..];
      BoundaryBytes(b, n + 1, last[1..]);
    }
  }

  lemma OpeningBytes(m: Multipart, last: seq<bool>)
    requires m.parsedLength == 0 && |last| == 2 + |m.boundary|
    ensures Feed(m, "--" + m.boundary, last)
         == m.(temp := [], parsedLength := 2 + |m.boundary|,
               item := m.item.(state := ExpectBoundary, name := [], filename := [], kind := []))
  {
    FeedJoin(m, "--", m.boundary, last);
    var m1 := MultipartStep(m, '-', last[0]);
    assert "--"[1..] == "-" && "-"[1..] == [];
    var m2 := MultipartStep(m1, '-', last[1]);
    assert Feed(m1, "-", last[..2][1..]) == m2;
    assert m.boundary[0..] == m.boundary;
    BoundaryBytes(m2, 0, last[2..]);
  }

  /** Every printed body is read back: the fields and files in order, the data of every
      non-empty file in consecutive chunks with one final chunk. */
  lemma MultipartRoundTrip(m: Multipart, parts: seq<Part>, last: seq<bool>)
    requires m.parsedLength == 0 && m.item.buffer == [] && GoodBoundary(m.boundary)
    requires parts != [] && forall p :: p in parts ==> Printable(m.boundary, p)
    requires |last| == |PrintBody(m.boundary, parts)|
    ensures BodyDone(m, parts, |PrintBody(m.boundary, parts)|, Feed(m, PrintBody(m.boundary, parts), last))
  {
    var open, rest := "--" + m.boundary, PrintParts(m.boundary, parts);
    FeedJoin(m, open, rest, last);
    OpeningBytes(m, last[..|open|]);
    var b := Feed(m, open, last[..|open|]);
    AllParts(b, parts, last[|open|..]);
  }

  // ---------------------------------------------------------------- whole requests

  /** The last flags that _onData gives the bytes of one segment. */
  function SegmentFlags(n: nat): (last: seq<bool>)
    ensures |last| == n
  {
    seq(n, i => i + 1 == n)
  }

  function Flags(segments: seq<Segment>): (last: seq<bool>)
    ensures |last| == |Flatten(segments)|
  {
    if segments == [] then [] else SegmentFlags(|segments[0]|) + Flags(segments[1..])
  }

  lemma {:induction false} FeedSegment(m: Multipart, data: string)
    ensures FeedMultipart(m, data) == Feed(m, data, SegmentFlags(|data|))
    decreases |data|
  {
    if data != [] {
      FeedSegment(MultipartStep(m, data[0], |data| == 1), data[1..]);
      assert SegmentFlags(|data|)[1..] == SegmentFlags(|data| - 1);
    }
  }

  /** Once the parser has adjusted the announced length it is finished. */
  lemma {:induction false} LengthSettles(m: Multipart, data: string, last: seq<bool>)
    requires |last| == |data|
    ensures var b := Feed(m, data, last);
      && (b.contentLength != m.contentLength ==> b.item.state == ParsingFinished && b.parsedLength != 0)
      && (m.item.state == ParsingFinished && m.parsedLength != 0 ==>
            b.contentLength == m.contentLength && b.item.state == ParsingFinished)
    decreases |data|
  {
    if data != [] {
      LengthSettlesStep(m, data[0], last[0]);
      LengthSettles(MultipartStep(m, data[0], last[0]), data[1..], last[1..]);
      StepAdvances(m, data[0], last[0]);
      FeedLength(m, data, last);
    }
  }

  lemma LengthSettlesStep(m: Multipart, data: char, last: bool)
    ensures var b := MultipartStep(m, data, last);
      && (b.contentLength != m.contentLength ==> b.item.state == ParsingFinished && m.parsedLength != 0)
      && (m.item.state == ParsingFinished && m.parsedLength != 0 ==>
            b.contentLength == m.contentLength && b.item.state == ParsingFinished)
  {
  }

  lemma FirstOfSegments(m: Multipart, first: Segment, rest: seq<Segment>)
    ensures var m1 := FeedMultipart(m, first);
      Feed(m, Flatten([first] + rest), Flags([first] + rest)) == Feed(m1, Flatten(rest), Flags(rest))
  {
    var segments := [first] + rest;
    assert segments[1..] == rest;
    FeedSegment(m, first);
    FeedJoin(m, first, Flatten(rest), Flags(segments));
    assert Flags(segments)[..|first|] == SegmentFlags(|first|) && Flags(segments)[|first|..] == Flags(rest);
  }

  /** The segments of a multipart body that ends where its length says. */
  lemma {:induction false} MultipartSegments(route: Router, r: Request, segments: seq<Segment>)
    requires r.state.ReqBody? && r.head.isMultipart && r.handler == Parsing && segments != []
    requires r.parsedLength + |Flatten(segments)| == r.contentLength
    requires Feed(MultipartOf(r), Flatten(segments), Flags(segments)).contentLength == r.contentLength
    ensures OnSegments(route, r, segments)
         == Handle(WithMultipart(r, Feed(MultipartOf(r), Flatten(segments), Flags(segments))))
    decreases |segments|
  {
    var m, first, rest := MultipartOf(r), segments[0], segments[1..];
    assert segments == [first] + rest;
    var m1 := FeedMultipart(m, first);
    FirstOfSegments(m, first, rest);
    FeedSegment(m, first);
    FeedLength(m, first, SegmentFlags(|first|));
    LengthSettles(m, first, SegmentFlags(|first|));
    LengthSettles(m1, Flatten(rest), Flags(rest));
    var r1 := WithMultipart(r, m1);
    assert MultipartOf(r1) == m1;
    if rest == [] {
      assert OnSegments(route, r, segments) == OnData(route, r, first);
    } else {
      assert OnData(route, r, first) == r1;
      MultipartSegments(route, r1, rest);
    }
  }

  /** A request with a printed multipart body, however it is cut: it ends with its last
      segment, and the handler has been given the fields and files that were printed. */
  lemma MultipartRequestHoweverCut(route: Router, r: Request, parts: seq<Part>, segments: seq<Segment>)
    requires r.state.ReqBody? && r.head.isMultipart && r.handler == Parsing
    requires r.parsedLength == 0 && r.item.buffer == [] && GoodBoundary(r.head.boundary)
    requires parts != [] && forall p :: p in parts ==> Printable(r.head.boundary, p)
    requires Flatten(segments) == PrintBody(r.head.boundary, parts) && |Flatten(segments)| == r.contentLength
    ensures var end := OnSegments(route, r, segments);
      && end.state.ReqEnd? && end.handled == r.handled + 1 && end.head == r.head
      && end.params == r.params + DeliveredAll(parts)
      && r.item.uploads <= end.item.uploads
      && UploadsOf(parts, end.item.uploads[|r.item.uploads|..])
  {
    MultipartRoundTrip(MultipartOf(r), parts, Flags(segments));
    MultipartSegments(route, r, segments);
  }
}
