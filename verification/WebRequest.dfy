/** The incoming side of AsyncWebServerRequest (WebRequest.cpp): what one byte or one TCP
    segment does to a request.  Everything here is a function of the request state; the
    class in RequestParser.dfy is proved against it. */
module WebRequest {
  import opened ArduinoString

  datatype ParseState = ReqStart | ReqHeaders | ReqBody | ReqEnd | ReqFail

  datatype Verb = Any | Get | Post | Delete | Put | Patch | Head | Options

  datatype ConnType = Http | WebSocket | Event

  /** The handler that the server attaches once the head is complete. */
  datatype Handler = NoHandler | Trivial | Parsing

  datatype Header = Header(name: string, value: string)

  datatype Param = Param(name: string, value: string, post: bool, file: bool, size: nat)

  /** One call of handleUpload, and one of handleBody. */
  datatype Upload = Upload(filename: string, index: nat, data: string, final: bool)
  datatype BodyChunk = BodyChunk(data: string, index: nat, total: nat)

  datatype MultiState =
    | ExpectBoundary | ParseHeaders | WaitForReturn1 | ExpectFeed1 | ExpectDash1 | ExpectDash2
    | BoundaryOrData | Dash3OrReturn2 | ExpectFeed2 | ParsingFinished | ParseError

  /** The part of a multipart body that is being read. */
  datatype Item = Item(
    state: MultiState, boundaryPosition: nat, isFile: bool, size: nat,
    name: string, filename: string, kind: string, value: string,
    buffer: string, uploads: seq<Upload>)

  /** What the lines of the head say. */
  datatype RequestHead = RequestHead(
    minorVersion: nat, verb: Verb, url: string, host: string, connType: ConnType,
    contentType: string, boundary: string, isMultipart: bool, expectingContinue: bool,
    authorization: string, isDigest: bool, headers: seq<Header>)

  datatype Request = Request(
    state: ParseState, temp: string, head: RequestHead, params: seq<Param>, handler: Handler,
    contentLength: nat, parsedLength: nat, isPlainPost: bool, item: Item,
    bodies: seq<BodyChunk>, handled: nat, closed: bool, continued: bool)

  /** What the server decides at the end of the head: rewritten url and parameters, the
      handler, and the headers that the handler wants to keep. */
  datatype Routing = Routing(url: string, params: seq<Param>, handler: Handler, headers: seq<Header>)

  type Router = Request -> Routing

  const UPLOAD_BUFFER := 1460

  const NEW_ITEM := Item(ExpectBoundary, 0, false, 0, [], [], [], [], [], [])

  const NEW_HEAD := RequestHead(0, Any, [], [], Http, [], [], false, false, [], false, [])

  const NEW_REQUEST := Request(ReqStart, [], NEW_HEAD, [], NoHandler, 0, 0, false, NEW_ITEM, [], 0, false, false)

  // ---------------------------------------------------------------- url decoding and parameters

  /** strtol("0x" high low, NULL, 16): as many hex digits as there are. */
  function HexPair(high: char, low: char): (c: char)
    ensures c < 256 as char
  {
    if HexValue(high) < 0 then '\0'
    else if HexValue(low) < 0 then HexValue(high) as char
    else (16 * HexValue(high) + HexValue(low)) as char
  }

  function UrlDecode(text: string): string {
    if text == [] then []
    else if text[0] == '%' && 2 < |text| then [HexPair(text[1], text[2])] + UrlDecode(text[3..])
    else [if text[0] == '+' then ' ' else text[0]] + UrlDecode(text[1..])
  }

  /** The end of the name=value pair at a position, and where its value starts. */
  function PairEnd(text: string, start: nat): (end: nat)
    requires start < |text|
    ensures start <= end <= |text|
  {
    var amp := IndexOf(text, '&', start);
    if amp < 0 then |text| else amp
  }

  function PairEqual(text: string, start: nat): (equal: nat)
    requires start < |text|
    ensures start <= equal <= PairEnd(text, start)
  {
    var eq := IndexOf(text, '=', start);
    if eq < 0 || eq > PairEnd(text, start) then PairEnd(text, start) else eq
  }

  function PairName(text: string, start: nat): string
    requires start < |text|
  {
    Substring(text, start, PairEqual(text, start))
  }

  function PairValue(text: string, start: nat): string
    requires start < |text|
  {
    var equal, end := PairEqual(text, start), PairEnd(text, start);
    if equal + 1 < end then Substring(text, equal + 1, end) else []
  }

  /** _addGetParams from a position on. */
  function GetParams(text: string, start: nat): seq<Param>
    decreases if start < |text| then |text| - start else 0
  {
    if start >= |text| then []
    else
      [Param(UrlDecode(PairName(text, start)), UrlDecode(PairValue(text, start)), false, false, 0)]
      + GetParams(text, PairEnd(text, start) + 1)
  }

  // ---------------------------------------------------------------- the head

  function VerbOf(m: string, unknown: Verb): Verb {
    match m
    case "GET" => Get
    case "POST" => Post
    case "DELETE" => Delete
    case "PUT" => Put
    case "PATCH" => Patch
    case "HEAD" => Head
    case "OPTIONS" => Options
    case _ => unknown
  }

  /** The first line of the head, split at its first two spaces and its '?'. */
  datatype RequestLine = RequestLine(verb: string, path: string, query: string, version: string)

  function RequestLineOf(temp: string): RequestLine {
    var space := IndexOf(temp, ' ');
    var m := Substring(temp, 0, Unsigned(space));
    var space2 := IndexOf(temp, ' ', space + 1);
    var u := Substring(temp, |m| + 1, Unsigned(space2));
    var mark := IndexOf(u, '?');
    RequestLine(m, if mark > 0 then Substring(u, 0, mark) else u,
                if mark > 0 then From(u, mark + 1) else [], From(temp, space2 + 1))
  }

  function MinorVersionOf(version: string, minorVersion: nat): nat {
    if StartsWith(version, "HTTP/1.0") then minorVersion else 1
  }

  function ParseReqHead(r: Request): Request {
    var line := RequestLineOf(r.temp);
    r.(head := r.head.(verb := VerbOf(line.verb, r.head.verb), url := UrlDecode(line.path),
                       minorVersion := MinorVersionOf(line.version, r.head.minorVersion)),
       params := r.params + GetParams(line.query, 0), temp := [])
  }

  /** A header line, split at its first ':'. */
  function HeaderOf(temp: string): Header {
    var colon := IndexOf(temp, ':');
    Header(Substring(temp, 0, Unsigned(colon)), From(temp, colon + 2))
  }

  function ContentLengthOf(h: Header, contentLength: nat): nat {
    if EqualsIgnoreCase(h.name, "Content-Length") then Unsigned(Atoi(h.value)) else contentLength
  }

  function ParseReqHeader(r: Request): Request {
    if IndexOf(r.temp, ':') == 0 then r.(temp := [])
    else
      var h := HeaderOf(r.temp);
      r.(head := KnownHeader(r.head, h.name, h.value).(headers := r.head.headers + [h]),
         contentLength := ContentLengthOf(h, r.contentLength), temp := [])
  }

  /** The credentials, behind the name of the scheme and one more character. */
  function Authorized(h: RequestHead, value: string): RequestHead {
    if |value| > 5 && EqualsIgnoreCase(value[..5], "Basic") then h.(authorization := From(value, 6))
    else if |value| > 6 && EqualsIgnoreCase(value[..6], "Digest")
    then h.(authorization := From(value, 7), isDigest := true)
    else h
  }

  function KnownHeader(h: RequestHead, name: string, value: string): RequestHead {
    if EqualsIgnoreCase(name, "Host") then h.(host := value)
    else if EqualsIgnoreCase(name, "Content-Type") then
      var h := h.(contentType := Substring(value, 0, Unsigned(IndexOf(value, ';'))));
      if StartsWith(value, "multipart/")
      then h.(boundary := Without(From(value, IndexOf(value, '=') + 1), '"'), isMultipart := true)
      else h
    else if EqualsIgnoreCase(name, "Expect") && value == "100-continue" then h.(expectingContinue := true)
    else if EqualsIgnoreCase(name, "Authorization") then Authorized(h, value)
    else if EqualsIgnoreCase(name, "Upgrade") && EqualsIgnoreCase(value, "websocket") then h.(connType := WebSocket)
    else if EqualsIgnoreCase(name, "Accept") && ContainsIgnoreCase(value, "text/event-stream")
    then h.(connType := Event)
    else h
  }

  function Routed(r: Request, to: Routing): Request {
    r.(head := r.head.(url := to.url, headers := to.headers), params := to.params, handler := to.handler,
       continued := r.continued || r.head.expectingContinue)
  }

  function EndOfHead(route: Router, r: Request): Request {
    var r := Routed(r, route(r));
    if r.contentLength != 0 then r.(state := ReqBody) else Handle(r)
  }

  /** The request is complete: handleRequest, or status 501 without a handler. */
  function Handle(r: Request): Request {
    r.(state := ReqEnd, handled := r.handled + 1)
  }

  function ParseLine(route: Router, r: Request): Request {
    match r.state
    case ReqStart =>
      if r.temp == [] then r.(state := ReqFail, closed := true)
      else ParseReqHead(r).(state := ReqHeaders)
    case ReqHeaders =>
      if r.temp == [] then EndOfHead(route, r) else ParseReqHeader(r)
    case _ => r
  }

  // ---------------------------------------------------------------- a plain form body

  /** What the form parser reads and changes of a request. */
  datatype Form = Form(contentLength: nat, parsedLength: nat, temp: string, params: seq<Param>)

  /** _parsePlainPostChar; parsedLength already counts the byte. */
  function PlainPostChar(f: Form, data: char): Form {
    var temp := if data != '\0' && data != '&' then f.temp + [data] else f.temp;
    if data == '\0' || data == '&' || f.parsedLength == f.contentLength
    then f.(params := f.params + [PlainParam(temp)], temp := [])
    else f.(temp := temp)
  }

  function PlainParam(temp: string): Param {
    var eq := IndexOf(temp, '=');
    if !StartsWith(temp, "{") && !StartsWith(temp, "[") && eq > 0
    then Param(UrlDecode(Substring(temp, 0, eq)), UrlDecode(From(temp, eq + 1)), true, false, 0)
    else Param(UrlDecode("body"), UrlDecode(temp), true, false, 0)
  }

  function FeedPlain(f: Form, data: string): Form
    decreases |data|
  {
    if data == [] then f
    else FeedPlain(PlainPostChar(f.(parsedLength := f.parsedLength + 1), data[0]), data[1..])
  }

  function FormOf(r: Request): Form {
    Form(r.contentLength, r.parsedLength, r.temp, r.params)
  }

  function WithForm(r: Request, f: Form): Request {
    r.(parsedLength := f.parsedLength, temp := f.temp, params := f.params)
  }

  predicate IsParamChar(c: char) {
    c != '\0' && c != '{' && c != '[' && c != '&' && c != '='
  }

  function ParamChars(data: string): (n: nat)
    ensures n <= |data|
    ensures forall i :: 0 <= i < n ==> IsParamChar(data[i])
    ensures n < |data| ==> !IsParamChar(data[n])
  {
    if data != [] && IsParamChar(data[0]) then 1 + ParamChars(data[1..]) else 0
  }

  /** The look that text/plain gets: name=... with at least one byte behind the '='. */
  predicate LooksLikeForm(data: string) {
    var n := ParamChars(data);
    0 < n && n + 1 < |data| && data[n] == '='
  }

  // ---------------------------------------------------------------- a multipart body

  function HandleUploadByte(it: Item, data: char, last: bool): Item {
    var buffer := it.buffer + [data];
    if last || |buffer| == UPLOAD_BUFFER
    then it.(buffer := [], uploads := it.uploads + [Upload(it.filename, Minus(it.size, |buffer|), buffer, false)])
    else it.(buffer := buffer)
  }

  function Minus(a: nat, b: nat): nat {
    if a < b then 0 else a - b
  }

  function WriteByte(it: Item, data: char, last: bool): Item {
    var it := it.(size := it.size + 1);
    if it.isFile then HandleUploadByte(it, data, last) else it.(value := it.value + [data])
  }

  /** The bytes of a partial delimiter that turned out to be content. */
  function WriteBack(it: Item, data: string, last: bool): Item
    decreases |data|
  {
    if data == [] then it else WriteBack(WriteByte(it, data[0], last), data[1..], last)
  }

  /** A byte of content, after what has been held back. */
  function Resume(it: Item, held: string, data: char, last: bool): Item {
    var it := WriteBack(it.(state := WaitForReturn1), held, last);
    if data == '\r' then it.(state := ExpectFeed1) else WriteByte(it, data, last)
  }

  function Disposition(it: Item, temp: string): Item
    decreases |temp|
  {
    var semi := IndexOf(temp, ';');
    if semi > 0 then
      Disposition(DispositionField(it, Substring(temp, 0, Unsigned(IndexOf(temp, '='))),
                                   Substring(temp, IndexOf(temp, '=') + 2, semi - 1)),
                  From(temp, semi + 2))
    else
      DispositionField(it, Substring(temp, 0, Unsigned(IndexOf(temp, '='))),
                       Substring(temp, IndexOf(temp, '=') + 2, Unsigned(|temp| - 1)))
  }

  function DispositionField(it: Item, name: string, value: string): Item {
    if name == "name" then it.(name := value)
    else if name == "filename" then it.(filename := value, isFile := true)
    else it
  }

  function PartHeader(it: Item, temp: string): Item {
    if 12 < |temp| && EqualsIgnoreCase(temp[..12], "Content-Type") then
      it.(kind := From(temp, 14), isFile := true)
    else if 19 < |temp| && EqualsIgnoreCase(temp[..19], "Content-Disposition") then
      Disposition(it, From(temp, IndexOf(temp, ';') + 2))
    else it
  }

  /** What the multipart parser reads and changes of a request. */
  datatype Multipart = Multipart(
    boundary: string, contentLength: nat, parsedLength: nat, temp: string, params: seq<Param>, item: Item)

  /** The delimiter is complete: the part is over. */
  function EndPart(m: Multipart): Multipart {
    var it := m.item.(state := Dash3OrReturn2);
    if !it.isFile then m.(item := it, params := m.params + [Param(it.name, it.value, true, false, 0)])
    else if it.size == 0 then m.(item := it.(buffer := []))
    else
      m.(item := it.(buffer := [], uploads := it.uploads
                     + [Upload(it.filename, Minus(it.size, |it.buffer|), it.buffer, true)]),
         params := m.params + [Param(it.name, it.filename, true, true, it.size)])
  }

  /** A line of the head of a part, or the empty line that ends it. */
  function EndPartLine(m: Multipart): Multipart {
    var it := m.item;
    if m.temp != [] then m.(item := PartHeader(it, m.temp), temp := []) else m.(item := StartContent(it))
  }

  function StartContent(it: Item): Item {
    it.(state := WaitForReturn1, size := 0, value := [], buffer := if it.isFile then [] else it.buffer)
  }

  /** The first line of the body, which must be the delimiter. */
  function FirstBoundary(m: Multipart, data: char): Multipart {
    var p, n := m.parsedLength, |m.boundary|;
    if (p < 2 && data != '-')
      || (2 <= p < 2 + n && m.boundary[p - 2] != data)
      || (p == 2 + n && data != '\r')
      || (p == 3 + n && data != '\n')
    then m.(item := m.item.(state := ParseError))
    else if p == 3 + n then m.(item := m.item.(state := ParseHeaders, isFile := false))
    else m
  }

  /** The states in which content is read or held back because it may be a delimiter. */
  predicate InContent(state: MultiState) {
    !state.ExpectBoundary? && !state.ParseHeaders? && !state.ParsingFinished? && !state.ParseError?
  }

  /** The part of a delimiter that has been seen and not been taken for content yet. */
  function Held(it: Item, boundary: string): string
    requires InContent(it.state)
  {
    match it.state
    case WaitForReturn1 => []
    case ExpectFeed1 => "\r"
    case ExpectDash1 => "\r\n"
    case ExpectDash2 => "\r\n-"
    case BoundaryOrData =>
      "\r\n--" + if it.boundaryPosition <= |boundary| then boundary[..it.boundaryPosition] else boundary
    case Dash3OrReturn2 => "\r\n--" + boundary
    case ExpectFeed2 => "\r\n--" + boundary + "\r"
  }

  /** The next byte goes on with the delimiter. */
  predicate Continues(it: Item, boundary: string, data: char)
    requires InContent(it.state)
  {
    match it.state
    case WaitForReturn1 => false
    case ExpectFeed1 => data == '\n'
    case ExpectDash1 => data == '-'
    case ExpectDash2 => data == '-'
    case BoundaryOrData => it.boundaryPosition < |boundary| ==> boundary[it.boundaryPosition] == data
    case Dash3OrReturn2 => data == '\r' || data == '-'
    case ExpectFeed2 => data == '\n'
  }

  function Advance(m: Multipart, data: char): Multipart
    requires InContent(m.item.state)
  {
    var it := m.item;
    match it.state
    case WaitForReturn1 => m
    case ExpectFeed1 => m.(item := it.(state := ExpectDash1))
    case ExpectDash1 => m.(item := it.(state := ExpectDash2))
    case ExpectDash2 => m.(item := it.(state := BoundaryOrData, boundaryPosition := 0))
    case BoundaryOrData =>
      if it.boundaryPosition == |m.boundary| - 1 then EndPart(m)
      else m.(item := it.(boundaryPosition := it.boundaryPosition + 1))
    case Dash3OrReturn2 =>
      if data == '\r' then m.(item := it.(state := ExpectFeed2))
      else m.(contentLength := m.parsedLength + 4, item := it.(state := ParsingFinished))
    case ExpectFeed2 => m.(item := it.(state := ParseHeaders, isFile := false))
  }

  /** A byte that is content or part of a delimiter. */
  function DelimiterByte(m: Multipart, data: char, last: bool): Multipart
    requires InContent(m.item.state)
  {
    if Continues(m.item, m.boundary, data) then Advance(m, data)
    else m.(item := Resume(m.item, Held(m.item, m.boundary), data, last))
  }

  /** _parseMultipartPostByte; parsedLength does not count the byte yet. */
  function MultipartByte(m: Multipart, data: char, last: bool): Multipart {
    if m.parsedLength == 0 then
      FirstBoundary(m.(temp := [], item := m.item.(state := ExpectBoundary, name := [], filename := [], kind := [])),
                    data)
    else if InContent(m.item.state) then DelimiterByte(m, data, last)
    else
      match m.item.state
      case ExpectBoundary => FirstBoundary(m, data)
      case ParseHeaders =>
        if data == '\n' then EndPartLine(m)
        else if data != '\r' then m.(temp := m.temp + [data])
        else m
      case _ => m
  }

  function MultipartOf(r: Request): Multipart {
    Multipart(r.head.boundary, r.contentLength, r.parsedLength, r.temp, r.params, r.item)
  }

  function WithMultipart(r: Request, m: Multipart): Request {
    r.(contentLength := m.contentLength, parsedLength := m.parsedLength, temp := m.temp,
       params := m.params, item := m.item)
  }

  function MultipartStep(m: Multipart, data: char, last: bool): Multipart {
    MultipartByte(m, data, last).(parsedLength := m.parsedLength + 1)
  }

  /** All bytes of a segment; last is only true for its final byte. */
  function FeedMultipart(m: Multipart, data: string): Multipart
    decreases |data|
  {
    if data == [] then m
    else FeedMultipart(MultipartStep(m, data[0], |data| == 1), data[1..])
  }

  // ---------------------------------------------------------------- one segment

  /** What the content type says about a body that is not multipart. */
  datatype BodyKind = UrlEncoded | TextPlain | Other

  function BodyKindOf(contentType: string): BodyKind {
    if StartsWith(contentType, "application/x-www-form-urlencoded") then UrlEncoded
    else if contentType == "text/plain" then TextPlain
    else Other
  }

  /** The first segment decides whether the body is a form. */
  function SniffPost(r: Request, kind: BodyKind, data: string): Request {
    if r.parsedLength == 0 && (kind == UrlEncoded || (kind == TextPlain && LooksLikeForm(data)))
    then r.(isPlainPost := true) else r
  }

  function FeedPlainBody(r: Request, kind: BodyKind, data: string): Request {
    FeedSniffed(SniffPost(r, kind, data), data)
  }

  function FeedSniffed(r: Request, data: string): Request {
    if !r.isPlainPost then
      r.(bodies := if r.handler == NoHandler then r.bodies
                   else r.bodies + [BodyChunk(data, r.parsedLength, r.contentLength)],
         parsedLength := r.parsedLength + |data|)
    else if r.handler == Parsing then WithForm(r, FeedPlain(FormOf(r), data))
    else r.(parsedLength := r.parsedLength + |data|)
  }

  function FeedBody(r: Request, data: string): Request {
    if !r.head.isMultipart then FeedPlainBody(r, BodyKindOf(r.head.contentType), data)
    else if r.handler == Parsing then WithMultipart(r, FeedMultipart(MultipartOf(r), data))
    else r.(parsedLength := r.parsedLength + |data|)
  }

  function OnBody(r: Request, data: string): Request {
    EndOfBody(FeedBody(r, data))
  }

  function EndOfBody(r: Request): Request {
    if r.parsedLength == r.contentLength then Handle(r) else r
  }

  /** TCP never delivers an empty segment. */
  type Segment = s: string | s != [] witness "\n"

  /** _onData: one segment. */
  function OnData(route: Router, r: Request, data: Segment): Request
    decreases |data|
  {
    if r.state.ReqStart? || r.state.ReqHeaders? then
      var i := IndexOf(data, '\n');
      if i < 0 then r.(temp := r.temp + CString(data[..|data| - 1]) + [data[|data| - 1]])
      else
        var r := ParseLine(route, r.(temp := Trim(r.temp + CString(data[..i]))));
        if i + 1 < |data| then OnData(route, r, data[i + 1..]) else r
    else if r.state.ReqBody? then OnBody(r, data)
    else r
  }

  /** A whole connection: the segments one after the other. */
  function OnSegments(route: Router, r: Request, segments: seq<Segment>): Request
    decreases |segments|
  {
    if segments == [] then r
    else OnSegments(route, OnData(route, r, segments[0]), segments[1..])
  }
}
