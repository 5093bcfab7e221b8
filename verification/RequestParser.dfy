/** AsyncWebServerRequest as the object it is: its fields change with every byte, and they
    always are what the functions of WebRequest say. */
module RequestParser {
  import opened ArduinoString
  import opened WebRequest
  import Segmentation

  class AsyncWebServerRequest {
    /** What the server will decide at the end of the head. */
    const route: Router

    var parseState: ParseState
    var temp: string
    /** The fields that the lines of the head set (_version, _method, _url, ...). */
    var head: RequestHead
    var params: seq<Param>
    var handler: Handler
    var contentLength: nat
    var parsedLength: nat
    var isPlainPost: bool
    /** The fields of the part being read (_multiParseState, _itemName, _itemBuffer, ...). */
    var item: Item

    /** The calls made to the handler and to the client. */
    var bodies: seq<BodyChunk>
    var handled: nat
    var closed: bool
    var continued: bool

    function Current(): Request
      reads this
    {
      Request(parseState, temp, head, params, handler, contentLength, parsedLength, isPlainPost, item,
              bodies, handled, closed, continued)
    }

    constructor (route: Router)
      ensures this.route == route && Current() == NEW_REQUEST
    {
      this.route := route;
      parseState, temp, head, params, handler := ReqStart, [], NEW_HEAD, [], NoHandler;
      contentLength, parsedLength, isPlainPost, item := 0, 0, false, NEW_ITEM;
      bodies, handled, closed, continued := [], 0, false, false;
    }

    // -------------------------------------------------------------- parameters

    method UrlDecoded(text: string) returns (decoded: string)
      ensures decoded == UrlDecode(text)
    {
      var i := 0;
      decoded := [];
      while i < |text|
        invariant 0 <= i <= |text|
        invariant decoded + UrlDecode(text[i..]) == UrlDecode(text)
      {
        var c := text[i];
        ghost var before := decoded;
        if c == '%' && i + 2 < |text| {
          decoded := decoded + [HexPair(text[i + 1], text[i + 2])];
          i := i + 3;
        } else {
          decoded := decoded + [if c == '+' then ' ' else c];
          i := i + 1;
        }
        Reassociate(before, decoded[|before|], UrlDecode(text[i..]));
      }
    }

    lemma Reassociate<T>(a: seq<T>, x: T, b: seq<T>)
      ensures a + [x] + b == a + ([x] + b)
    {
    }

    method AddParam(name: string, value: string, post: bool)
      modifies this`params
      ensures params == old(params) + [Param(UrlDecode(name), UrlDecode(value), post, false, 0)]
    {
      var n := UrlDecoded(name);
      var v := UrlDecoded(value);
      params := params + [Param(n, v, post, false, 0)];
    }

    method AddGetParams(text: string)
      modifies this`params
      ensures params == old(params) + GetParams(text, 0)
    {
      var start := 0;
      ghost var rest := GetParams(text, start);
      while start < |text|
        invariant 0 <= start && rest == GetParams(text, start)
        invariant params + rest == old(params) + GetParams(text, 0)
        decreases |text| - start
      {
        NextPair(params, text, start);
        start := AddPair(text, start);
        rest := GetParams(text, start);
      }
      assert params + [] == params;
    }

    function PairAt(text: string, start: nat): Param
      requires start < |text|
    {
      Param(UrlDecode(PairName(text, start)), UrlDecode(PairValue(text, start)), false, false, 0)
    }

    lemma NextPair(before: seq<Param>, text: string, start: nat)
      requires start < |text|
      ensures before + GetParams(text, start)
        == before + [PairAt(text, start)] + GetParams(text, PairEnd(text, start) + 1)
    {
    }

    method AddPair(text: string, start: nat) returns (next: nat)
      requires start < |text|
      modifies this`params
      ensures next == PairEnd(text, start) + 1 && params == old(params) + [PairAt(text, start)]
    {
      hide UrlDecode, Substring;
      var end := IndexOf(text, '&', start);
      if end < 0 {
        end := |text|;
      }
      var equal := IndexOf(text, '=', start);
      if equal < 0 || equal > end {
        equal := end;
      }
      var name := Substring(text, start, equal);
      var value := if equal + 1 < end then Substring(text, equal + 1, end) else [];
      AddParam(name, value, false);
      next := end + 1;
    }

    // -------------------------------------------------------------- the head

    method ParseHeadLine()
      modifies this`temp, this`head, this`params
      ensures var line := RequestLineOf(old(temp));
        && head == old(head).(verb := VerbOf(line.verb, old(head).verb), url := UrlDecode(line.path),
                              minorVersion := MinorVersionOf(line.version, old(head).minorVersion))
        && params == old(params) + GetParams(line.query, 0) && temp == []
    {
      var line := RequestLineOf(temp);
      head := head.(verb := VerbOf(line.verb, head.verb));
      var url := UrlDecoded(line.path);
      head := head.(url := url);
      AddGetParams(line.query);
      head := head.(minorVersion := MinorVersionOf(line.version, head.minorVersion));
      temp := [];
    }

    method ParseHeaderLine()
      modifies this`temp, this`head, this`contentLength
      ensures temp == []
      ensures IndexOf(old(temp), ':') == 0 ==> head == old(head) && contentLength == old(contentLength)
      ensures IndexOf(old(temp), ':') != 0 ==>
        var h := HeaderOf(old(temp));
        && head == KnownHeader(old(head), h.name, h.value).(headers := old(head).headers + [h])
        && contentLength == ContentLengthOf(h, old(contentLength))
    {
      if IndexOf(temp, ':') != 0 {
        var h := HeaderOf(temp);
        contentLength := ContentLengthOf(h, contentLength);
        var headers := head.headers + [h];
        SetKnownHeader(h.name, h.value);
        head := head.(headers := headers);
      }
      temp := [];
    }

    method SetKnownHeader(name: string, value: string)
      modifies this`head
      ensures head == KnownHeader(old(head), name, value)
    {
      if EqualsIgnoreCase(name, "Host") {
        head := head.(host := value);
      } else if EqualsIgnoreCase(name, "Content-Type") {
        head := head.(contentType := Substring(value, 0, Unsigned(IndexOf(value, ';'))));
        if StartsWith(value, "multipart/") {
          head := head.(boundary := Without(From(value, IndexOf(value, '=') + 1), '"'), isMultipart := true);
        }
      } else if EqualsIgnoreCase(name, "Expect") && value == "100-continue" {
        head := head.(expectingContinue := true);
      } else if EqualsIgnoreCase(name, "Authorization") {
        if |value| > 5 && EqualsIgnoreCase(value[..5], "Basic") {
          head := head.(authorization := From(value, 6));
        } else if |value| > 6 && EqualsIgnoreCase(value[..6], "Digest") {
          head := head.(authorization := From(value, 7), isDigest := true);
        }
      } else if EqualsIgnoreCase(name, "Upgrade") && EqualsIgnoreCase(value, "websocket") {
        head := head.(connType := WebSocket);
      } else if EqualsIgnoreCase(name, "Accept") && ContainsIgnoreCase(value, "text/event-stream") {
        head := head.(connType := Event);
      }
    }

    method HandleRequest()
      modifies this`parseState, this`handled
      ensures parseState == ReqEnd && handled == old(handled) + 1
    {
      parseState := ReqEnd;
      handled := handled + 1;
    }

    method TakeRouting(to: Routing)
      modifies this`head, this`params, this`handler, this`continued
      ensures Current() == Routed(old(Current()), to)
    {
      head := head.(url := to.url, headers := to.headers);
      params, handler := to.params, to.handler;
      if head.expectingContinue {
        continued := true;
      }
    }

    method EndHead()
      modifies this
      ensures Current() == EndOfHead(route, old(Current()))
    {
      hide Routed;
      TakeRouting(route(Current()));
      if contentLength != 0 {
        parseState := ReqBody;
      } else {
        HandleRequest();
      }
    }

    method ParseLineOfHead()
      modifies this
      ensures Current() == ParseLine(route, old(Current()))
    {
      hide EndOfHead, KnownHeader, HeaderOf, ContentLengthOf, RequestLineOf, GetParams, UrlDecode;
      if parseState == ReqStart {
        if |temp| == 0 {
          parseState := ReqFail;
          closed := true;
        } else {
          ParseHeadLine();
          parseState := ReqHeaders;
        }
      } else if parseState == ReqHeaders {
        if |temp| == 0 {
          EndHead();
        } else {
          ParseHeaderLine();
        }
      }
    }

    // -------------------------------------------------------------- a form body

    function CurrentForm(): Form
      reads this
    {
      Form(contentLength, parsedLength, temp, params)
    }

    method ParsePlainPostChar(data: char)
      modifies this`temp, this`params
      ensures CurrentForm() == PlainPostChar(old(CurrentForm()), data)
    {
      if data != '\0' && data != '&' {
        temp := temp + [data];
      }
      if data == '\0' || data == '&' || parsedLength == contentLength {
        AddPlainParam();
        temp := [];
      }
    }

    method AddPlainParam()
      modifies this`params
      ensures params == old(params) + [PlainParam(temp)]
    {
      var name, value := "body", temp;
      var eq := IndexOf(temp, '=');
      if !StartsWith(temp, "{") && !StartsWith(temp, "[") && eq > 0 {
        name := Substring(temp, 0, eq);
        value := From(temp, eq + 1);
      }
      AddParam(name, value, true);
    }

    // -------------------------------------------------------------- a multipart body

    method HandleUpload(data: char, last: bool)
      modifies this`item
      ensures item == HandleUploadByte(old(item), data, last)
    {
      item := item.(buffer := item.buffer + [data]);
      if last || |item.buffer| == UPLOAD_BUFFER {
        var chunk := Upload(item.filename, Minus(item.size, |item.buffer|), item.buffer, false);
        item := item.(uploads := item.uploads + [chunk], buffer := []);
      }
    }

    method ItemWriteByte(data: char, last: bool)
      modifies this`item
      ensures item == WriteByte(old(item), data, last)
    {
      item := item.(size := item.size + 1);
      if item.isFile {
        HandleUpload(data, last);
      } else {
        item := item.(value := item.value + [data]);
      }
    }

    /** The loops that write a partial delimiter back. */
    method ItemWriteBack(data: string, last: bool)
      modifies this`item
      ensures item == WriteBack(old(item), data, last)
    {
      for i := 0 to |data|
        invariant WriteBack(item, data[i..], last) == WriteBack(old(item), data, last)
      {
        assert data[i..][1..] == data[i + 1..];
        ItemWriteByte(data[i], last);
      }
    }

    function CurrentMultipart(): Multipart
      reads this
    {
      Multipart(head.boundary, contentLength, parsedLength, temp, params, item)
    }

    /** A byte that does not go on with the delimiter: what was held back is content, and
        the byte is parsed again in the state that reads content. */
    method PutBack(held: string, data: char, last: bool)
      requires parsedLength != 0 && held != []
      modifies this`item
      ensures item == Resume(old(item), held, data, last)
      decreases 1
    {
      item := item.(state := WaitForReturn1);
      ItemWriteBack(held, last);
      Segmentation.StateKept(old(item).(state := WaitForReturn1), held, last);
      ReadContentByte(data, last);
    }

    method ReadContentByte(data: char, last: bool)
      requires item.state == WaitForReturn1
      modifies this`item
      ensures item == Resume(old(item), [], data, last)
      decreases 0
    {
      if data != '\r' {
        ItemWriteByte(data, last);
      } else {
        item := item.(state := ExpectFeed1);
      }
    }

    /** The first line of the body. */
    method ReadFirstBoundary(data: char)
      modifies this`item
      ensures CurrentMultipart() == FirstBoundary(old(CurrentMultipart()), data)
    {
      var n := |head.boundary|;
      if parsedLength < 2 && data != '-' {
        item := item.(state := ParseError);
      } else if 2 <= parsedLength < 2 + n && head.boundary[parsedLength - 2] != data {
        item := item.(state := ParseError);
      } else if parsedLength == 2 + n && data != '\r' {
        item := item.(state := ParseError);
      } else if parsedLength == 3 + n {
        if data != '\n' {
          item := item.(state := ParseError);
          return;
        }
        item := item.(state := ParseHeaders, isFile := false);
      }
    }

    /** A header line of a part; the loop eats one field of the disposition after the other. */
    method ReadPartHeader()
      modifies this`item, this`temp
      ensures item == PartHeader(old(item), old(temp)) && temp == []
    {
      if |temp| > 12 && EqualsIgnoreCase(temp[..12], "Content-Type") {
        item := item.(kind := From(temp, 14), isFile := true);
      } else if |temp| > 19 && EqualsIgnoreCase(temp[..19], "Content-Disposition") {
        temp := From(temp, IndexOf(temp, ';') + 2);
        ReadDisposition();
      }
      temp := [];
    }

    method ReadDisposition()
      modifies this`item, this`temp
      ensures item == Disposition(old(item), old(temp))
    {
      hide DispositionField, IndexOf, Substring, From, Unsigned;
      while IndexOf(temp, ';') > 0
        invariant Disposition(item, temp) == Disposition(old(item), old(temp))
        decreases |temp|
      {
        var name := Substring(temp, 0, Unsigned(IndexOf(temp, '=')));
        var value := Substring(temp, IndexOf(temp, '=') + 2, IndexOf(temp, ';') - 1);
        ReadField(name, value);
        BehindSemicolon(temp);
        temp := From(temp, IndexOf(temp, ';') + 2);
      }
      var name := Substring(temp, 0, Unsigned(IndexOf(temp, '=')));
      var value := Substring(temp, IndexOf(temp, '=') + 2, Unsigned(|temp| - 1));
      ReadField(name, value);
    }

    lemma BehindSemicolon(text: string)
      requires IndexOf(text, ';') > 0
      ensures |From(text, IndexOf(text, ';') + 2)| < |text|
    {
    }

    method ReadField(name: string, value: string)
      modifies this`item
      ensures item == DispositionField(old(item), name, value)
    {
      if name == "name" {
        item := item.(name := value);
      } else if name == "filename" {
        item := item.(filename := value, isFile := true);
      }
    }

    method ReadPartLineByte(data: char)
      modifies this`item, this`temp
      ensures CurrentMultipart() ==
        if data == '\n' then EndPartLine(old(CurrentMultipart()))
        else if data != '\r' then old(CurrentMultipart()).(temp := old(temp) + [data])
        else old(CurrentMultipart())
    {
      if data != '\r' && data != '\n' {
        temp := temp + [data];
      }
      if data == '\n' {
        if |temp| > 0 {
          ReadPartHeader();
        } else {
          item := item.(state := WaitForReturn1, size := 0, value := []);
          if item.isFile {
            item := item.(buffer := []);
          }
        }
      }
    }

    /** The last byte of a delimiter. */
    method FinishPart()
      modifies this`item, this`params
      ensures CurrentMultipart() == EndPart(old(CurrentMultipart()))
    {
      item := item.(state := Dash3OrReturn2);
      if !item.isFile {
        params := params + [Param(item.name, item.value, true, false, 0)];
      } else {
        if item.size != 0 {
          var chunk := Upload(item.filename, Minus(item.size, |item.buffer|), item.buffer, true);
          item := item.(uploads := item.uploads + [chunk]);
          params := params + [Param(item.name, item.filename, true, true, item.size)];
        }
        item := item.(buffer := []);
      }
    }

    /** The states behind a return in the content: go on with the delimiter, or put it back. */
    method ReadDelimiterByte(data: char, last: bool)
      requires parsedLength != 0 && InContent(item.state) && item.state != WaitForReturn1
      modifies this`item, this`params, this`contentLength
      ensures CurrentMultipart() == DelimiterByte(old(CurrentMultipart()), data, last)
    {
      if item.state == ExpectFeed1 {
        if data != '\n' {
          PutBack("\r", data, last);
        } else {
          item := item.(state := ExpectDash1);
        }
      } else if item.state == ExpectDash1 {
        if data != '-' {
          PutBack("\r\n", data, last);
        } else {
          item := item.(state := ExpectDash2);
        }
      } else if item.state == ExpectDash2 {
        if data != '-' {
          PutBack("\r\n-", data, last);
        } else {
          item := item.(state := BoundaryOrData, boundaryPosition := 0);
        }
      } else if item.state == BoundaryOrData {
        ReadBoundaryByte(data, last);
      } else if item.state == Dash3OrReturn2 {
        ReadAfterBoundary(data, last);
      } else {
        if data == '\n' {
          item := item.(state := ParseHeaders, isFile := false);
        } else {
          PutBack("\r\n--" + head.boundary + "\r", data, last);
        }
      }
    }

    method ReadBoundaryByte(data: char, last: bool)
      requires parsedLength != 0 && item.state == BoundaryOrData
      modifies this`item, this`params
      ensures CurrentMultipart() == DelimiterByte(old(CurrentMultipart()), data, last)
    {
      if item.boundaryPosition < |head.boundary| && head.boundary[item.boundaryPosition] != data {
        PutBack("\r\n--" + head.boundary[..item.boundaryPosition], data, last);
      } else if item.boundaryPosition == |head.boundary| - 1 {
        FinishPart();
      } else {
        item := item.(boundaryPosition := item.boundaryPosition + 1);
      }
    }

    method ReadAfterBoundary(data: char, last: bool)
      requires parsedLength != 0 && item.state == Dash3OrReturn2
      modifies this`item, this`contentLength
      ensures CurrentMultipart() == DelimiterByte(old(CurrentMultipart()), data, last)
    {
      if data == '-' && contentLength != parsedLength + 4 {
        contentLength := parsedLength + 4;
      }
      if data == '\r' {
        item := item.(state := ExpectFeed2);
      } else if data == '-' && contentLength == parsedLength + 4 {
        item := item.(state := ParsingFinished);
      } else {
        PutBack("\r\n--" + head.boundary, data, last);
      }
    }

    method ParseMultipartPostByte(data: char, last: bool)
      modifies this`item, this`temp, this`params, this`contentLength
      ensures CurrentMultipart() == MultipartByte(old(CurrentMultipart()), data, last)
    {
      if parsedLength == 0 {
        item := item.(state := ExpectBoundary, name := [], filename := [], kind := []);
        temp := [];
      }
      if item.state == WaitForReturn1 {
        ReadContentByte(data, last);
      } else if item.state == ExpectBoundary {
        ReadFirstBoundary(data);
      } else if item.state == ParseHeaders {
        ReadPartLineByte(data);
      } else if item.state != ParsingFinished && item.state != ParseError {
        ReadDelimiterByte(data, last);
      }
    }

    // -------------------------------------------------------------- one segment

    method FeedMultipartBytes(data: string)
      modifies this`item, this`temp, this`params, this`contentLength, this`parsedLength
      ensures CurrentMultipart() == FeedMultipart(old(CurrentMultipart()), data)
    {
      hide MultipartByte;
      for i := 0 to |data|
        invariant FeedMultipart(CurrentMultipart(), data[i..]) == FeedMultipart(old(CurrentMultipart()), data)
      {
        ParseMultipartPostByte(data[i], i == |data| - 1);
        parsedLength := parsedLength + 1;
      }
    }

    method FeedPlainBytes(data: string)
      modifies this`temp, this`params, this`parsedLength
      ensures CurrentForm() == FeedPlain(old(CurrentForm()), data)
    {
      hide PlainPostChar;
      for i := 0 to |data|
        invariant FeedPlain(CurrentForm(), data[i..]) == FeedPlain(old(CurrentForm()), data)
      {
        parsedLength := parsedLength + 1;
        ParsePlainPostChar(data[i]);
      }
    }

    /** Whether text/plain looks like a form: the loop runs over the name and one byte more. */
    method Sniff(data: Segment) returns (form: bool)
      ensures form == LooksLikeForm(data)
    {
      form := false;
      if IsParamChar(data[0]) {
        var i, more := 0, true;
        while i < |data| && more
          invariant 0 <= i <= |data|
          invariant more ==> forall k :: 0 <= k < i ==> IsParamChar(data[k])
          invariant !more ==> 0 < i && !IsParamChar(data[i - 1]) && forall k :: 0 <= k < i - 1 ==> IsParamChar(data[k])
          decreases |data| - i, more
        {
          more := IsParamChar(data[i]);
          i := i + 1;
        }
        form := i < |data| && data[i - 1] == '=';
      }
    }

    method SniffBody(data: Segment)
      modifies this`isPlainPost
      ensures isPlainPost == SniffPost(old(Current()), BodyKindOf(head.contentType), data).isPlainPost
    {
      if parsedLength == 0 {
        if StartsWith(head.contentType, "application/x-www-form-urlencoded") {
          isPlainPost := true;
        } else if head.contentType == "text/plain" {
          var form := Sniff(data);
          if form {
            isPlainPost := true;
          }
        }
      }
    }

    method ReadPlainBody(data: Segment)
      modifies this`isPlainPost, this`bodies, this`parsedLength, this`temp, this`params
      ensures Current() == FeedPlainBody(old(Current()), BodyKindOf(head.contentType), data)
    {
      SniffBody(data);
      ReadSniffed(data);
    }

    method ReadSniffed(data: Segment)
      modifies this`bodies, this`parsedLength, this`temp, this`params
      ensures Current() == FeedSniffed(old(Current()), data)
    {
      if !isPlainPost {
        if handler != NoHandler {
          bodies := bodies + [BodyChunk(data, parsedLength, contentLength)];
        }
        parsedLength := parsedLength + |data|;
      } else if handler == Parsing {
        FeedPlainBytes(data);
      } else {
        parsedLength := parsedLength + |data|;
      }
    }

    method ReadMultipartBody(data: Segment)
      requires head.isMultipart
      modifies this`item, this`temp, this`params, this`contentLength, this`parsedLength
      ensures Current() == FeedBody(old(Current()), data)
    {
      if handler == Parsing {
        FeedMultipartBytes(data);
      } else {
        parsedLength := parsedLength + |data|;
      }
    }

    method ReadAnyBody(data: Segment)
      modifies this
      ensures Current() == FeedBody(old(Current()), data)
    {
      hide FeedPlainBody, MultipartOf, WithMultipart;
      if head.isMultipart {
        ReadMultipartBody(data);
      } else {
        ReadPlainBody(data);
      }
    }

    method ReadBody(data: Segment)
      modifies this
      ensures Current() == OnBody(old(Current()), data)
    {
      hide FeedBody;
      ReadAnyBody(data);
      if parsedLength == contentLength {
        HandleRequest();
      }
    }

    method FindNewLine(buf: string) returns (i: nat)
      ensures i <= |buf|
      ensures if IndexOf(buf, '\n') < 0 then i == |buf| else i == IndexOf(buf, '\n')
    {
      i := 0;
      while i < |buf|
        invariant i <= |buf| && forall k :: 0 <= k < i ==> buf[k] != '\n'
      {
        if buf[i] == '\n' {
          break;
        }
        i := i + 1;
      }
    }

    /** A segment while the head is read: up to the first newline, and the rest of it. */
    function HeadStep(r: Request, data: Segment): (Request, string) {
      var i := IndexOf(data, '\n');
      if i < 0 then (r.(temp := r.temp + CString(data[..|data| - 1]) + [data[|data| - 1]]), [])
      else (ParseLine(route, r.(temp := Trim(r.temp + CString(data[..i])))), data[i + 1..])
    }

    method ReadHead(buf: Segment) returns (rest: string)
      modifies this
      ensures (Current(), rest) == HeadStep(old(Current()), buf)
    {
      var i := FindNewLine(buf);
      if i == |buf| {
        temp := temp + CString(buf[..i - 1]) + [buf[i - 1]];
        rest := [];
      } else {
        temp := Trim(temp + CString(buf[..i]));
        ParseLineOfHead();
        rest := buf[i + 1..];
      }
    }

    /** _onData */
    method Received(data: Segment)
      modifies this
      ensures Current() == OnData(route, old(Current()), data)
    {
      var buf: Segment := data;
      while parseState == ReqStart || parseState == ReqHeaders
        invariant OnData(route, Current(), buf) == OnData(route, old(Current()), data)
        decreases |buf|
      {
        var rest := ReadHead(buf);
        if rest == [] {
          return;
        }
        buf := rest;
      }
      if parseState == ReqBody {
        ReadBody(buf);
      }
    }
  }

  /** A connection, from the first segment to the last. */
  method Connection(route: Router, segments: seq<Segment>) returns (request: AsyncWebServerRequest)
    ensures fresh(request)
    ensures request.Current() == OnSegments(route, NEW_REQUEST, segments)
  {
    request := new AsyncWebServerRequest(route);
    for i := 0 to |segments|
      invariant fresh(request) && request.route == route
      invariant OnSegments(route, request.Current(), segments[i..]) == OnSegments(route, NEW_REQUEST, segments)
    {
      assert segments[i..][1..] == segments[i + 1..];
      request.Received(segments[i]);
    }
  }
}
