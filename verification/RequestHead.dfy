/** The head of a request: what a client prints is what the parser knows of it
    (WebRequest.cpp:101-126, 240-292, 312-352, 554-586; RFC 7230 section 3). */
module RequestHead {
  import opened Sequences
  import opened ArduinoString
  import opened WebRequest
  import opened Segmentation
  import opened SegmentationLimits
  import opened FormData
  import opened MultipartBody
  import opened WholeRequests
  import opened KnownHeaders

  /** A request as its client sees it, and how the client encodes its target. */
  datatype Message = Message(
    verb: Verb, path: string, query: seq<FormData.Field>, enc: Encoder, http10: bool, headers: seq<Header>)

  // ---------------------------------------------------------------- printing

  function VerbText(verb: Verb): string {
    match verb
    case Get => "GET"
    case Post => "POST"
    case Delete => "DELETE"
    case Put => "PUT"
    case Patch => "PATCH"
    case Head => "HEAD"
    case Options => "OPTIONS"
    case Any => ""
  }

  predicate ValidMessage(m: Message) {
    && !m.verb.Any? && m.path != [] && IsText(m.path) && (forall f :: f in m.query ==> IsField(f))
    && Leaves(m.enc) && m.enc.keep !! {' ', '?', '\r', '\n'}
    && forall h :: h in m.headers ==> ValidHeader(h)
  }

  predicate PlainText(s: string) {
    '\r' !in s && '\n' !in s && '\0' !in s
  }

  predicate ValidHeader(h: Header) {
    && h.name != [] && PlainText(h.name) && ':' !in h.name && !IsSpace(h.name[0])
    && PlainText(h.value) && (h.value != [] ==> !IsSpace(h.value[|h.value| - 1]))
  }

  function Target(m: Message): string
    requires ValidMessage(m)
  {
    Encode(m.path, m.enc) + if m.query == [] then [] else "?" + PrintForm(m.query, m.enc)
  }

  function FirstLine(m: Message): string
    requires ValidMessage(m)
  {
    VerbText(m.verb) + " " + Target(m) + " " + if m.http10 then "HTTP/1.0" else "HTTP/1.1"
  }

  function HeaderLine(h: Header): string {
    h.name + ": " + h.value
  }

  function HeaderLines(headers: seq<Header>): string {
    if headers == [] then "\r\n" else HeaderLine(headers[0]) + "\r\n" + HeaderLines(headers[1..])
  }

  function PrintMessage(m: Message): string
    requires ValidMessage(m)
  {
    FirstLine(m) + "\r\n" + HeaderLines(m.headers)
  }

  // ---------------------------------------------------------------- the first line

  lemma {:induction false} EncodeAvoids(s: string, enc: Encoder, c: char)
    requires IsText(s) && c !in enc.keep && c != '%' && c != '+' && HexValue(c) < 0
    ensures c !in Encode(s, enc)
    decreases |s|
  {
    if s != [] {
      EncodeAvoids(s[1..], enc, c);
    }
  }

  lemma {:induction false} FormAvoids(fields: seq<FormData.Field>, enc: Encoder, c: char)
    requires forall f :: f in fields ==> IsField(f)
    requires c !in enc.keep && c != '%' && c != '+' && HexValue(c) < 0 && c != '=' && c != '&'
    ensures c !in PrintForm(fields, enc)
    decreases |fields|
  {
    if fields != [] {
      assert fields[0] in fields;
      EncodeAvoids(fields[0].name, enc, c);
      EncodeAvoids(fields[0].value, enc, c);
      FormAvoids(fields[1..], enc, c);
    }
  }

  lemma TargetAvoids(m: Message, c: char)
    requires ValidMessage(m) && c !in m.enc.keep && HexValue(c) < 0 && c !in {'%', '+', '=', '&', '?'}
    ensures c !in Target(m)
  {
    EncodeAvoids(m.path, m.enc, c);
    FormAvoids(m.query, m.enc, c);
  }

  lemma FirstOf(text: string, c: char, front: string, from: nat)
    requires from <= |front| < |text| && text[..|front|] == front && text[|front|] == c && c !in front[from..]
    ensures IndexOf(text, c, from) == |front|
  {
    assert forall i :: from <= i < |front| ==> text[i] == front[from..][i - from];
    FirstIndex(text, c, from, |front|);
  }

  /** The line is cut at its first two spaces, and the target at its first question mark. */
  lemma LineCut(verb: string, path: string, query: string, version: string, asked: bool)
    requires ' ' !in verb && ' ' !in path && ' ' !in query && '?' !in path && path != []
    ensures RequestLineOf(verb + " " + (path + if asked then "?" + query else []) + " " + version)
      == WebRequest.RequestLine(verb, path, if asked then query else [], version)
  {
    hide IndexOf, RequestLineOf;
    var u := path + if asked then "?" + query else [];
    assert ' ' !in u;
    SpacesFound(verb, u, version);
    QuestionFound(path, query, asked);
    CutAt(verb + " " + u + " " + version, verb, u, version, path, query, asked);
  }

  /** A target that starts with its question mark is a path as a whole. */
  lemma NoPath(verb: string, query: string, version: string)
    requires ' ' !in verb && ' ' !in query
    ensures RequestLineOf(verb + " " + ("?" + query) + " " + version)
      == WebRequest.RequestLine(verb, "?" + query, [], version)
  {
    hide Substring, From;
    var u := "?" + query;
    assert ' ' !in u && u[0] == '?';
    SpacesFound(verb, u, version);
    assert IndexOf(u, '?') == 0;
  }

  /** Where the separators are decides what the pieces are. */
  lemma CutAt(temp: string, verb: string, u: string, version: string, path: string, query: string, asked: bool)
    requires path != []
    requires IndexOf(temp, ' ', 0) == |verb| && IndexOf(temp, ' ', |verb| + 1) == |verb| + 1 + |u|
    requires Substring(temp, 0, |verb|) == verb && Substring(temp, |verb| + 1, |verb| + 1 + |u|) == u
    requires From(temp, |verb| + 1 + |u| + 1) == version
    requires if asked
             then IndexOf(u, '?', 0) == |path| && Substring(u, 0, |path|) == path && From(u, |path| + 1) == query
             else IndexOf(u, '?', 0) < 0 && u == path
    ensures RequestLineOf(temp) == WebRequest.RequestLine(verb, path, if asked then query else [], version)
  {
    hide IndexOf, Substring, From;
  }

  lemma Part(s: string, from: nat, to: nat)
    requires from <= to <= |s|
    ensures Substring(s, from, to) == s[from..to] && From(s, to) == s[to..]
  {
  }

  lemma SpacesFound(verb: string, u: string, version: string)
    requires ' ' !in verb && ' ' !in u
    ensures var temp, end := verb + " " + u + " " + version, |verb| + 1 + |u|;
      && IndexOf(temp, ' ', 0) == |verb| && IndexOf(temp, ' ', |verb| + 1) == end
      && Substring(temp, 0, |verb|) == verb && Substring(temp, |verb| + 1, end) == u && From(temp, end + 1) == version
  {
    hide IndexOf, Substring, From;
    FirstSpace(verb, u, version);
    SecondSpace(verb, u, version);
    PiecesOf(verb, u, version);
  }

  lemma PiecesOf(a: string, b: string, c: string)
    ensures var t, end := a + " " + b + " " + c, |a| + 1 + |b|;
      Substring(t, 0, |a|) == a && Substring(t, |a| + 1, end) == b && From(t, end + 1) == c
  {
    hide Substring, From;
    var t := a + " " + b + " " + c;
    WordsOf(a, b, c);
    Part(t, 0, |a|);
    Part(t, |a| + 1, |a| + 1 + |b|);
    Part(t, 0, |a| + 1 + |b| + 1);
  }

  lemma FirstSpace(verb: string, u: string, version: string)
    requires ' ' !in verb
    ensures IndexOf(verb + " " + u + " " + version, ' ', 0) == |verb|
  {
    hide IndexOf;
    WordsOf(verb, u, version);
    FirstOf(verb + " " + u + " " + version, ' ', verb, 0);
  }

  lemma SecondSpace(verb: string, u: string, version: string)
    requires ' ' !in u
    ensures IndexOf(verb + " " + u + " " + version, ' ', |verb| + 1) == |verb| + 1 + |u|
  {
    hide IndexOf;
    WordsOf(verb, u, version);
    FirstOf(verb + " " + u + " " + version, ' ', verb + " " + u, |verb| + 1);
  }

  lemma WordsOf(a: string, b: string, c: string)
    ensures var t, end := a + " " + b + " " + c, |a| + 1 + |b|;
      && |t| == end + 1 + |c| && t[..|a|] == a && t[|a|] == ' ' && t[|a| + 1..end] == b && t[end] == ' '
      && t[end + 1..] == c && t[..end] == a + " " + b && (a + " " + b)[|a| + 1..] == b && a[0..] == a
  {
  }

  lemma QuestionFound(path: string, query: string, asked: bool)
    requires '?' !in path && path != []
    ensures var u := path + if asked then "?" + query else [];
      && (if asked then IndexOf(u, '?', 0) == |path| && Substring(u, 0, |path|) == path && From(u, |path| + 1) == query
          else IndexOf(u, '?', 0) < 0 && u == path)
  {
    hide IndexOf, Substring, From;
    var u := path + if asked then "?" + query else [];
    if asked {
      assert u[..|path|] == path && path[0..] == path && u[|path| + 1..] == query;
      FirstOf(u, '?', path, 0);
      Part(u, 0, |path|);
      Part(u, 0, |path| + 1);
    }
  }

  lemma VerbBack(verb: Verb, unknown: Verb)
    requires !verb.Any?
    ensures VerbOf(VerbText(verb), unknown) == verb && ' ' !in VerbText(verb)
    ensures PlainText(VerbText(verb)) && VerbText(verb) != [] && !IsSpace(VerbText(verb)[0])
  {
  }

  lemma FirstLineCut(m: Message)
    requires ValidMessage(m)
    ensures RequestLineOf(FirstLine(m)) == WebRequest.RequestLine(
      VerbText(m.verb), Encode(m.path, m.enc), if m.query == [] then [] else PrintForm(m.query, m.enc),
      if m.http10 then "HTTP/1.0" else "HTTP/1.1")
  {
    hide VerbText, RequestLineOf, Encode, PrintForm;
    VerbBack(m.verb, Any);
    EncodeAvoids(m.path, m.enc, ' ');
    EncodeAvoids(m.path, m.enc, '?');
    FormAvoids(m.query, m.enc, ' ');
    EncodedNonEmpty(m.path, m.enc);
    LineCut(VerbText(m.verb), Encode(m.path, m.enc), PrintForm(m.query, m.enc),
            if m.http10 then "HTTP/1.0" else "HTTP/1.1", m.query != []);
  }

  /** The first line gives method, path and query back. */
  lemma FirstLineRead(m: Message, r: Request)
    requires ValidMessage(m) && r.temp == FirstLine(m)
    ensures ParseReqHead(r) == r.(
      head := r.head.(verb := m.verb, url := m.path, minorVersion := if m.http10 then r.head.minorVersion else 1),
      params := r.params + Listed(m.query, false), temp := [])
  {
    hide RequestLineOf, FirstLine, VerbText, VerbOf, GetParams, UrlDecode, Encode, PrintForm;
    FirstLineCut(m);
    VerbBack(m.verb, r.head.verb);
    DecodeEncoded(m.path, m.enc);
    QueryRoundTrip(m.query, m.enc);
    NoMoreParams([], 0);
    assert "HTTP/1.1"[7] == '1' && "HTTP/1.0"[7] == '0';
  }

  // ---------------------------------------------------------------- a header line

  /** A header line gives name and value back, also when the value is empty and the line has
      lost its last blank. */
  lemma HeaderRead(h: Header)
    requires ValidHeader(h)
    ensures IndexOf(Trim(HeaderLine(h)), ':') == |h.name| && HeaderOf(Trim(HeaderLine(h))) == h
    ensures Trim(HeaderLine(h)) != []
  {
    var line := HeaderLine(h);
    TrimmedHeader(h);
    var t := if h.value == [] then h.name + ":" else line;
    assert t[..|h.name|] == h.name && h.name[0..] == h.name;
    FirstOf(t, ':', h.name, 0);
    assert h.value != [] ==> t[|h.name| + 2..] == h.value;
  }

  lemma TrimmedHeader(h: Header)
    requires ValidHeader(h)
    ensures Trim(HeaderLine(h)) == if h.value == [] then h.name + ":" else HeaderLine(h)
  {
    if h.value == [] {
      assert HeaderLine(h) == h.name + ":" + " ";
      TrimEnd(h.name + ":", " ");
    } else {
      assert HeaderLine(h) + [] == HeaderLine(h);
      TrimEnd(HeaderLine(h), []);
    }
  }

  /** Blanks at the end of a line do not count. */
  lemma {:induction false} TrimEnd(text: string, blanks: string)
    requires text != [] && !IsSpace(text[0]) && !IsSpace(text[|text| - 1])
    requires forall i :: 0 <= i < |blanks| ==> IsSpace(blanks[i])
    ensures Trim(text + blanks) == text
    decreases |blanks|
  {
    if blanks == [] {
      assert text + blanks == text;
    } else {
      var shorter := blanks[..|blanks| - 1];
      assert (text + blanks)[..|text + blanks| - 1] == text + shorter;
      TrimEnd(text, shorter);
    }
  }

  // ---------------------------------------------------------------- what the headers say

  /** The request behind its headers: everything but the headers themselves and what the known
      ones say stays. */
  function HeadersRead(r: Request, headers: seq<Header>): Request
    decreases |headers|
  {
    if headers == [] then r
    else
      var h := headers[0];
      HeadersRead(r.(head := KnownHeader(r.head, h.name, h.value).(headers := r.head.headers + [h]),
                     contentLength := ContentLengthOf(h, r.contentLength)),
                  headers[1..])
  }

  /** Of every kind of header the last one decides; nothing else changes. */
  lemma {:induction false} HeadersKnown(r: Request, headers: seq<Header>)
    ensures var e := HeadersRead(r, headers);
      && e == r.(head := e.head, contentLength := e.contentLength)
      && Says(e.head, headers, r.head) && SaysLength(e.contentLength, headers, r.contentLength)
    decreases |headers|
  {
    hide KnownHeader, ContentLengthOf, Says, SaysLength;
    if headers == [] {
      NothingSaid(r.head);
      NoLength(r.contentLength);
    } else {
      var h, rest := headers[0], headers[1..];
      var head := KnownHeader(r.head, h.name, h.value).(headers := r.head.headers + [h]);
      var next := r.(head := head, contentLength := ContentLengthOf(h, r.contentLength));
      OneHeaderSays(r.head, h);
      HeadersKnown(next, rest);
      assert headers == [h] + rest;
      SaysMore(r.head, h, head, rest, HeadersRead(next, rest).head);
      LengthMore(r.contentLength, h, rest, HeadersRead(next, rest).contentLength);
    }
  }

  lemma NoLength(n: nat)
    ensures SaysLength(n, [], n)
  {
  }

  // ---------------------------------------------------------------- the whole head

  /** One printed line, from its first byte to its line end. */
  lemma LineBytesRead(route: Router, r: Request, line: string)
    requires InHead(r) && r.temp == [] && PlainText(line)
    requires Trim(line + "\r") == Trim(line)
    ensures Bytes(route, r, line + "\r\n") == ParseLine(route, r.(temp := Trim(line)))
    ensures forall k :: 0 <= k < |line| + 2 ==> InHead(Bytes(route, r, (line + "\r\n")[..k]))
  {
    hide ParseLine, Trim, OnData;
    var text := line + "\r";
    assert line + "\r\n" == text + ['\n'];
    LinePrefixes(route, r, line);
    BytesJoin(route, r, text, ['\n']);
    HeadBytes(route, r, text);
    assert [] + text == text;
    LineEnd(route, r.(temp := text));
  }

  lemma LinePrefixes(route: Router, r: Request, line: string)
    requires InHead(r) && r.temp == [] && PlainText(line)
    ensures forall k :: 0 <= k < |line| + 2 ==> InHead(Bytes(route, r, (line + "\r\n")[..k]))
  {
    hide OnData, Bytes;
    forall k | 0 <= k < |line| + 2
      ensures InHead(Bytes(route, r, (line + "\r\n")[..k]))
    {
      assert (line + "\r\n")[..k] == (line + "\r")[..k];
      HeadBytes(route, r, (line + "\r")[..k]);
    }
  }

  lemma TrimReturn(line: string)
    requires line == [] || !IsSpace(line[0])
    ensures Trim(line + "\r") == Trim(line)
  {
    if line == [] {
      assert line + "\r" == "\r" && "\r"[1..] == [];
    } else {
      assert (line + "\r")[..|line|] == line;
    }
  }

  /** A position in two texts that follow each other. */
  lemma PrefixOfJoin(a: string, b: string, k: nat)
    requires k <= |a| + |b|
    ensures k <= |a| ==> (a + b)[..k] == a[..k]
    ensures k > |a| ==> (a + b)[..k] == a + b[..k - |a|]
  {
  }

  /** A line and what follows it. */
  lemma LineThen(route: Router, r: Request, line: string, rest: string)
    requires InHead(r) && r.temp == [] && PlainText(line) && (line == [] || !IsSpace(line[0]))
    ensures var next := ParseLine(route, r.(temp := Trim(line)));
      && Bytes(route, r, line + "\r\n" + rest) == Bytes(route, next, rest)
      && ((forall k :: 0 <= k < |rest| ==> InHead(Bytes(route, next, rest[..k]))) ==>
            forall k :: 0 <= k < |line + "\r\n" + rest| ==> InHead(Bytes(route, r, (line + "\r\n" + rest)[..k])))
  {
    hide ParseLine, Trim, OnData, Bytes;
    var all := line + "\r\n";
    TrimReturn(line);
    LineBytesRead(route, r, line);
    BytesJoin(route, r, all, rest);
    var next := ParseLine(route, r.(temp := Trim(line)));
    if forall k :: 0 <= k < |rest| ==> InHead(Bytes(route, next, rest[..k])) {
      forall k | 0 <= k < |all + rest|
        ensures InHead(Bytes(route, r, (all + rest)[..k]))
      {
        PrefixOfJoin(all, rest, k);
        if k >= |all| {
          assert (all + rest)[..k] == all + rest[..k - |all|];
          BytesJoin(route, r, all, rest[..k - |all|]);
          assert InHead(Bytes(route, next, rest[..k - |all|]));
        }
      }
    }
  }

  lemma {:induction false} HeaderLinesRead(route: Router, r: Request, headers: seq<Header>)
    requires r.state.ReqHeaders? && r.temp == [] && forall h :: h in headers ==> ValidHeader(h)
    ensures Bytes(route, r, HeaderLines(headers)) == EndOfHead(route, HeadersRead(r, headers))
    ensures forall k :: 0 <= k < |HeaderLines(headers)| ==> InHead(Bytes(route, r, HeaderLines(headers)[..k]))
    decreases |headers|
  {
    hide Trim, OnData, EndOfHead, KnownHeader, HeaderOf, ContentLengthOf;
    if headers == [] {
      var none: string := [];
      LineThen(route, r, none, none);
      assert none + "\r\n" + none == "\r\n";
      assert Trim(none) == none by {
        TrimNothing();
      }
      assert r.(temp := none) == r;
    } else {
      var h, rest := headers[0], HeaderLines(headers[1..]);
      assert h in headers;
      HeaderRead(h);
      var next := r.(head := KnownHeader(r.head, h.name, h.value).(headers := r.head.headers + [h]),
                     contentLength := ContentLengthOf(h, r.contentLength));
      assert ParseLine(route, r.(temp := Trim(HeaderLine(h)))) == next;
      HeaderLinesRead(route, next, headers[1..]);
      LineThen(route, r, HeaderLine(h), rest);
    }
  }

  lemma TrimNothing()
    ensures Trim([]) == []
  {
  }

  /** The request behind the first line of a message. */
  function StartOf(m: Message): Request {
    NEW_REQUEST.(
      state := ReqHeaders,
      head := NEW_HEAD.(verb := m.verb, url := m.path, minorVersion := if m.http10 then 0 else 1),
      params := Listed(m.query, false))
  }

  /** The request that the server routes once the head of a message is complete. */
  function Read(m: Message): Request {
    HeadersRead(StartOf(m), m.headers)
  }

  /** The printed head of every message is a head, and is read back as method, path, query
      parameters, version, headers in their order, and everything that the known ones say. */
  lemma HeadRoundTrip(route: Router, m: Message)
    requires ValidMessage(m)
    ensures HeadOfRequest(route, NEW_REQUEST, PrintMessage(m))
    ensures Bytes(route, NEW_REQUEST, PrintMessage(m)) == EndOfHead(route, Read(m))
    ensures var r := Read(m);
      && r.head.verb == m.verb && r.head.url == m.path && r.params == Listed(m.query, false)
      && r.head.headers == m.headers && r.head.minorVersion == (if m.http10 then 0 else 1)
      && Says(r.head, m.headers, NEW_HEAD.(verb := m.verb, url := m.path, minorVersion := if m.http10 then 0 else 1))
      && SaysLength(r.contentLength, m.headers, 0)
  {
    hide Trim, OnData, Bytes, EndOfHead, HeaderLines, FirstLine, HeadersRead, SaysBody, SaysConnection, SaysCredentials,
      SaysLength;
    FirstLineGood(m);
    var rest := HeaderLines(m.headers);
    FirstLineRead(m, NEW_REQUEST.(temp := FirstLine(m)));
    var none: seq<Param> := [];
    assert none + Listed(m.query, false) == Listed(m.query, false);
    var next := ParseLine(route, NEW_REQUEST.(temp := FirstLine(m)));
    LineThen(route, NEW_REQUEST, FirstLine(m), rest);
    HeaderLinesRead(route, next, m.headers);
    HeadersKnown(next, m.headers);
    var noHeaders: seq<Header> := [];
    assert noHeaders + m.headers == m.headers;
    EndIsNoHead(route, Read(m));
    HeadersPlain(m.headers);
  }

  lemma EndIsNoHead(route: Router, r: Request)
    ensures !InHead(EndOfHead(route, r))
  {
  }

  lemma FirstLineGood(m: Message)
    requires ValidMessage(m)
    ensures PlainText(FirstLine(m)) && FirstLine(m) != [] && !IsSpace(FirstLine(m)[0])
    ensures Trim(FirstLine(m)) == FirstLine(m)
  {
    hide Target, VerbText, Trim;
    VerbBack(m.verb, Any);
    TargetAvoids(m, '\r');
    TargetAvoids(m, '\n');
    TargetAvoids(m, '\0');
    var line := FirstLine(m);
    assert line[0] == VerbText(m.verb)[0];
    assert line[|line| - 1] == if m.http10 then '0' else '1';
    assert line + [] == line;
    TrimEnd(line, []);
  }

  lemma {:induction false} HeadersPlain(headers: seq<Header>)
    requires forall h :: h in headers ==> ValidHeader(h)
    ensures '\0' !in HeaderLines(headers) && HeaderLines(headers) != []
    decreases |headers|
  {
    if headers != [] {
      assert headers[0] in headers;
      HeadersPlain(headers[1..]);
    }
  }

  // ---------------------------------------------------------------- a multipart message

  function Digit(v: nat): (c: char)
    requires v < 10
    ensures '0' <= c <= '9' && c as int - '0' as int == v
  {
    ('0' as int + v) as char
  }

  function Decimal(n: nat): (s: string)
    ensures s != [] && forall i :: 0 <= i < |s| ==> '0' <= s[i] <= '9'
  {
    if n < 10 then [Digit(n)] else Decimal(n / 10) + [Digit(n % 10)]
  }

  lemma {:induction false} DigitsGoOn(s: string, d: char, value: nat)
    requires '0' <= d <= '9' && forall i :: 0 <= i < |s| ==> '0' <= s[i] <= '9'
    ensures Digits(s + [d], value) == 10 * Digits(s, value) + (d as int - '0' as int)
    decreases |s|
  {
    if s == [] {
      assert s + [d] == [d] && [d][1..] == s;
    } else {
      assert (s + [d])[1..] == s[1..] + [d];
      DigitsGoOn(s[1..], d, 10 * value + (s[0] as int - '0' as int));
    }
  }

  lemma {:induction false} DecimalBack(n: nat)
    ensures Digits(Decimal(n), 0) == n
    decreases n
  {
    if n < 10 {
      assert Decimal(n)[1..] == [];
    } else {
      DecimalBack(n / 10);
      DigitsGoOn(Decimal(n / 10), Digit(n % 10), 0);
    }
  }

  /** A length that fits an int is read back. */
  lemma LengthBack(n: nat)
    requires n <= 0x7fff_ffff
    ensures Unsigned(Atoi(Decimal(n))) == n
  {
    DecimalBack(n);
    assert TrimLeft(Decimal(n)) == Decimal(n);
  }

  const MULTIPART := "multipart/form-data; boundary"

  /** A boundary may be printed in quotes. */
  function TypeHeader(boundary: string, quoted: bool): Header {
    Header("Content-Type", MULTIPART + "=" + if quoted then ['"'] + boundary + ['"'] else boundary)
  }

  function LengthHeader(n: nat): Header {
    Header("Content-Length", Decimal(n))
  }

  lemma {:induction false} QuotesGo(text: string, quotes: string)
    requires '"' !in text && (quotes == [] || quotes == ['"'])
    ensures Unquoted(text + quotes) == text
    decreases |text|
  {
    if text == [] {
      assert text + quotes == quotes;
      assert ['"'][1..] == [];
    } else {
      assert (text + quotes)[1..] == text[1..] + quotes;
      QuotesGo(text[1..], quotes);
    }
  }

  lemma UnquotedBack(text: string, quoted: bool)
    requires '"' !in text
    ensures Unquoted(if quoted then ['"'] + text + ['"'] else text) == text
  {
    if quoted {
      assert (['"'] + text + ['"'])[1..] == text + ['"'];
      QuotesGo(text, ['"']);
    } else {
      assert text + [] == text;
      QuotesGo(text, []);
    }
  }

  lemma BehindPrinted(front: string, printed: string)
    requires '=' !in front
    ensures BehindEqual(front + "=" + printed) == printed
  {
    var value := front + "=" + printed;
    assert value[|front|] == '=' && forall i :: 0 <= i < |front| ==> value[i] == front[i];
    FirstEqual(value, |front|);
    assert value[|front| + 1..] == printed;
  }

  lemma MultipartFront(printed: string)
    ensures '=' !in MULTIPART && "multipart/" <= MULTIPART + "=" + printed
  {
    assert "multipart/" <= MULTIPART <= MULTIPART + "=" + printed;
  }

  /** The boundary is read back. */
  lemma BoundaryBack(boundary: string, quoted: bool)
    requires '"' !in boundary
    ensures "multipart/" <= TypeHeader(boundary, quoted).value
    ensures Unquoted(BehindEqual(TypeHeader(boundary, quoted).value)) == boundary
  {
    hide Unquoted, BehindEqual;
    var printed := if quoted then ['"'] + boundary + ['"'] else boundary;
    MultipartFront(printed);
    BehindPrinted(MULTIPART, printed);
    UnquotedBack(boundary, quoted);
  }

  /** What the two headers at the end of a multipart message are. */
  lemma KindsOfHeaders(boundary: string, quoted: bool, n: nat)
    requires '"' !in boundary
    ensures var a, b := TypeHeader(boundary, quoted), LengthHeader(n);
      && Is(a, MultipartType) && !Is(b, MultipartType) && Is(b, BodyLength) && b.value == Decimal(n)
  {
    hide Decimal, BehindEqual, Unquoted;
    BoundaryBack(boundary, quoted);
    assert |"Content-Length"| != |"Content-Type"|;
  }

  /** Whatever stands in front of them, the last two headers decide. */
  lemma LastHeadersDecide(r: Request, others: seq<Header>, boundary: string, quoted: bool, n: nat)
    requires '"' !in boundary && n <= 0x7fff_ffff
    ensures var e := HeadersRead(r, others + [TypeHeader(boundary, quoted), LengthHeader(n)]);
      e.head.isMultipart && e.head.boundary == boundary && e.contentLength == n
  {
    hide TypeHeader, LengthHeader, HeadersRead, BehindEqual, Unquoted, Is;
    var a, b := TypeHeader(boundary, quoted), LengthHeader(n);
    HeadersKnown(r, others + [a, b]);
    KindsOfHeaders(boundary, quoted, n);
    BoundaryBack(boundary, quoted);
    LastAtEnd(others, a, b, MultipartType);
    LastAtEnd(others, a, b, BodyLength);
    LengthBack(n);
  }

  /** The state behind the head of a multipart message. */
  lemma RoutedMessage(route: Router, m: Message, others: seq<Header>, boundary: string, quoted: bool, n: nat)
    requires '"' !in boundary && n <= 0x7fff_ffff
    requires m.headers == others + [TypeHeader(boundary, quoted), LengthHeader(n)]
    ensures var r, to := EndOfHead(route, Read(m)), route(Read(m));
      && r.head.isMultipart && r.head.boundary == boundary && r.contentLength == n && r.head.verb == m.verb
      && r.params == to.params && r.handler == to.handler
      && (n > 0 ==> r.state.ReqBody? && r.handled == 0)
  {
    hide HeadersRead, TypeHeader, LengthHeader;
    var start := StartOf(m);
    LastHeadersDecide(start, others, boundary, quoted, n);
    HeadersKnown(start, m.headers);
  }

  lemma BodyNotEmpty(boundary: string, parts: seq<Part>)
    ensures |PrintBody(boundary, parts)| > 0
  {
  }

  /** The whole journey of a multipart message: its text, head and body cut into segments
      anywhere, gives the handler the fields and files that it was printed from, once. */
  lemma MultipartMessage(route: Router, m: Message, others: seq<Header>, boundary: string, quoted: bool,
                         parts: seq<Part>, segments: seq<Segment>)
    requires ValidMessage(m) && GoodBoundary(boundary) && '"' !in boundary
    requires parts != [] && forall p :: p in parts ==> Printable(boundary, p)
    requires |PrintBody(boundary, parts)| <= 0x7fff_ffff
    requires m.headers == others + [TypeHeader(boundary, quoted), LengthHeader(|PrintBody(boundary, parts)|)]
    requires Flatten(segments) == PrintMessage(m) + PrintBody(boundary, parts)
    requires route(Read(m)).handler == Parsing
    ensures var end := OnSegments(route, NEW_REQUEST, segments);
      && end.state.ReqEnd? && end.handled == 1 && end.head == EndOfHead(route, Read(m)).head && end.head.verb == m.verb
      && end.params == route(Read(m)).params + DeliveredAll(parts)
      && UploadsOf(parts, end.item.uploads)
  {
    hide PrintMessage, PrintBody, Printable, GoodBoundary, UploadsOf, DeliveredAll, OnSegments, Bytes, HeadOfRequest,
      EndOfHead;
    HeadRoundTrip(route, m);
    RoutedMessage(route, m, others, boundary, quoted, |PrintBody(boundary, parts)|);
    BodyNotEmpty(boundary, parts);
    MultipartRequest(route, PrintMessage(m), parts, segments);
  }

  // ---------------------------------------------------------------- other messages

  const FORM_TYPE := "application/x-www-form-urlencoded"

  /** The type of a form may have parameters. */
  function FormHeader(parameters: string): Header {
    Header("Content-Type", FORM_TYPE + parameters)
  }

  lemma OnlyFront(value: string, a: string, b: string)
    requires BeforeSemicolon(value, a) && BeforeSemicolon(value, b)
    ensures a == b
  {
    assert forall i :: 0 <= i < |a| ==> value[i] == a[i] && value[i] != ';';
    assert forall i :: 0 <= i < |b| ==> value[i] == b[i] && value[i] != ';';
  }

  lemma FormTypeSays(parameters: string, contentType: string)
    requires (parameters == [] || parameters[0] == ';') && BeforeSemicolon(FORM_TYPE + parameters, contentType)
    ensures contentType == FORM_TYPE && BodyKindOf(contentType) == UrlEncoded
  {
    assert BeforeSemicolon(FORM_TYPE + parameters, FORM_TYPE);
    OnlyFront(FORM_TYPE + parameters, contentType, FORM_TYPE);
  }

  lemma KindsOfFormHeaders(parameters: string, n: nat)
    ensures var a, b := FormHeader(parameters), LengthHeader(n);
      && Is(a, BodyType) && !Is(b, BodyType) && !Is(a, MultipartType) && !Is(b, MultipartType)
      && Is(b, BodyLength) && b.value == Decimal(n)
  {
    hide Decimal;
    assert (FORM_TYPE + parameters)[0] == 'a' && "multipart/"[0] == 'm';
    assert |"Content-Length"| != |"Content-Type"|;
  }

  lemma FormHeadersDecide(r: Request, others: seq<Header>, parameters: string, n: nat)
    requires (parameters == [] || parameters[0] == ';') && |parameters| < 0x8000_0000 && n <= 0x7fff_ffff
    requires !r.head.isMultipart && forall h :: h in others ==> !Is(h, MultipartType)
    ensures var e := HeadersRead(r, others + [FormHeader(parameters), LengthHeader(n)]);
      !e.head.isMultipart && BodyKindOf(e.head.contentType) == UrlEncoded && e.contentLength == n
  {
    hide LengthHeader, HeadersRead, BehindEqual, Unquoted, Is, BeforeSemicolon;
    var a, b := FormHeader(parameters), LengthHeader(n);
    var e := HeadersRead(r, others + [a, b]);
    HeadersKnown(r, others + [a, b]);
    KindsOfFormHeaders(parameters, n);
    LastAtEnd(others, a, b, BodyType);
    LastAtEnd(others, a, b, MultipartType);
    LastAtEnd(others, a, b, BodyLength);
    assert |a.value| < 0x1_0000_0000;
    FormTypeSays(parameters, e.head.contentType);
    LengthBack(n);
  }

  /** What the server decides at the end of the head. */
  lemma RoutedExactly(route: Router, r: Request)
    requires r.state.ReqHeaders? && r.handled == 0 && !r.continued
    ensures var e, to := EndOfHead(route, r), route(r);
      && e == r.(state := e.state, handled := e.handled, continued := r.head.expectingContinue, params := to.params,
                 handler := to.handler, head := r.head.(url := to.url, headers := to.headers))
      && (if r.contentLength == 0 then e.state.ReqEnd? && e.handled == 1 else e.state.ReqBody? && e.handled == 0)
  {
  }

  /** The whole journey of a posted form: its text, head and body cut into segments anywhere,
      gives the handler its pairs, once. */
  lemma FormMessage(route: Router, m: Message, others: seq<Header>, parameters: string, fields: seq<FormData.Field>,
                    enc: Encoder, segments: seq<Segment>)
    requires ValidMessage(m) && (parameters == [] || parameters[0] == ';') && |parameters| < 0x8000_0000
    requires Leaves(enc) && fields != [] && forall x :: x in fields ==> IsField(x) && FormName(x.name, enc)
    requires |PrintForm(fields, enc)| <= 0x7fff_ffff
    requires m.headers == others + [FormHeader(parameters), LengthHeader(|PrintForm(fields, enc)|)]
    requires forall h :: h in others ==> !Is(h, MultipartType)
    requires Flatten(segments) == PrintMessage(m) + PrintForm(fields, enc)
    requires route(Read(m)).handler == Parsing
    ensures var end := OnSegments(route, NEW_REQUEST, segments);
      && end.state.ReqEnd? && end.handled == 1
      && end.params == route(Read(m)).params + Listed(fields, true)
  {
    hide PrintMessage, PrintForm, OnSegments, Bytes, HeadOfRequest, EndOfHead, HeadersRead, FormHeader, LengthHeader,
      Is, FormName, Says, SaysLength;
    HeadRoundTrip(route, m);
    FormHeadersDecide(StartOf(m), others, parameters, |PrintForm(fields, enc)|);
    HeadersKnown(StartOf(m), m.headers);
    RoutedExactly(route, Read(m));
    FormNotEmpty(fields, enc);
    FormRequest(route, PrintMessage(m), fields, enc, segments);
  }

  lemma FormNotEmpty(fields: seq<FormData.Field>, enc: Encoder)
    requires fields != [] && forall x :: x in fields ==> IsField(x)
    ensures PrintForm(fields, enc) != []
  {
  }

  /** A message without a body is handled once its head is complete, with what its head said;
      what follows is ignored. */
  lemma BodylessMessage(route: Router, m: Message, more: string, segments: seq<Segment>)
    requires ValidMessage(m) && forall h :: h in m.headers ==> !Is(h, BodyLength)
    requires Flatten(segments) == PrintMessage(m) + more
    ensures var end, r := OnSegments(route, NEW_REQUEST, segments), Read(m);
      && end.state.ReqEnd? && end.handled == 1 && end.params == route(r).params && end.handler == route(r).handler
      && end.head == r.head.(url := route(r).url, headers := route(r).headers)
      && (end.continued <==> Last(m.headers, Continue) >= 0)
  {
    hide PrintMessage, OnSegments, Bytes, HeadOfRequest, EndOfHead, HeadersRead, Is, SaysBody, SaysCredentials, Last;
    HeadRoundTrip(route, m);
    HeadersKnown(StartOf(m), m.headers);
    assert Last(m.headers, BodyLength) < 0;
    RoutedExactly(route, Read(m));
    var rest := HeadThenBody(route, NEW_REQUEST, PrintMessage(m), more, segments);
    NothingBehindEnd(route, EndOfHead(route, Read(m)), rest);
  }

  /** The handshake of RFC 6455 section 4.1 is known as such, whatever the other headers are, if
      none of them asks for an event stream; and an event stream if none asks for an upgrade. */
  lemma ConnectionTypes(m: Message)
    requires ValidMessage(m)
    ensures var upgrade, events := exists h :: h in m.headers && Is(h, WebSocketUpgrade),
                                   exists h :: h in m.headers && Is(h, EventStream);
      && (Read(m).head.connType == Http <==> !upgrade && !events)
      && (upgrade && !events ==> Read(m).head.connType == WebSocket)
      && (events && !upgrade ==> Read(m).head.connType == Event)
  {
    hide HeadersRead, Is, SaysBody, SaysCredentials, SaysLength;
    HeadersKnown(StartOf(m), m.headers);
    Occurs(m.headers, WebSocketUpgrade);
    Occurs(m.headers, EventStream);
    BothKinds(m.headers);
  }

  lemma Occurs(headers: seq<Header>, kind: Kind)
    ensures Last(headers, kind) >= 0 <==> exists h :: h in headers && Is(h, kind)
  {
    hide Is;
    if h :| h in headers && Is(h, kind) {
      var i :| 0 <= i < |headers| && headers[i] == h;
    }
  }

  lemma BothKinds(headers: seq<Header>)
    ensures Last(headers, WebSocketUpgrade) == Last(headers, EventStream) ==> Last(headers, EventStream) < 0
  {
    var k := Last(headers, EventStream);
    if k >= 0 {
      OneKindOnly(headers[k]);
    }
  }

  /** A header by which a client asks for a WebSocket, and one for an event stream, in any case of
      their letters. */
  lemma LiteralKinds()
    ensures Is(Header("Upgrade", "websocket"), WebSocketUpgrade) && Is(Header("UPGRADE", "WebSocket"), WebSocketUpgrade)
    ensures Is(Header("Accept", "text/event-stream"), EventStream)
    ensures Is(Header("accept", "text/html, Text/Event-Stream"), EventStream)
    ensures Is(Header("Expect", "100-continue"), Continue) && Is(Header("host", "esp32.local"), HostName)
    ensures Is(Header("Authorization", "Basic dXNlcjpwYXNz"), Basic) && Is(Header("Authorization", "Digest x"), Digest)
  {
    hide ContainsIgnoreCase;
    LiteralEventStreams();
    LiteralCredentials();
  }

  lemma LiteralEventStreams()
    ensures ContainsIgnoreCase("text/event-stream", "text/event-stream")
    ensures ContainsIgnoreCase("text/html, Text/Event-Stream", "text/event-stream")
  {
    hide ContainsIgnoreCase;
    var list := "text/html, Text/Event-Stream";
    assert list[11..] == "Text/Event-Stream";
    EndContains(list, 11);
    EndContains("text/event-stream", 0);
  }

  lemma LiteralCredentials()
    ensures Is(Header("Authorization", "Basic dXNlcjpwYXNz"), Basic) && Is(Header("Authorization", "Digest x"), Digest)
  {
    assert "Basic dXNlcjpwYXNz"[..5] == "Basic" && "Digest x"[..6] == "Digest";
  }

  lemma {:induction false} EndContains(text: string, k: nat)
    requires k <= |text| && EqualsIgnoreCase(text[k..], "text/event-stream")
    ensures ContainsIgnoreCase(text, "text/event-stream")
    decreases k
  {
    if k == 0 {
      assert text[0..] == text && text[..|text|] == text;
    } else {
      assert text[1..][k - 1..] == text[k..];
      EndContains(text[1..], k - 1);
    }
  }

  // ---------------------------------------------------------------- lines that say nothing

  /** A blank first line fails the request and closes the connection. */
  lemma BlankFirstLine(route: Router, blanks: string, more: string)
    requires forall i :: 0 <= i < |blanks| ==> IsSpace(blanks[i]) && blanks[i] != '\n'
    ensures var end := Bytes(route, NEW_REQUEST, blanks + ['\n'] + more);
      end == NEW_REQUEST.(state := ReqFail, closed := true, temp := [])
  {
    HeadBytes(route, NEW_REQUEST, blanks);
    assert [] + blanks == blanks;
    var line := NEW_REQUEST.(temp := blanks);
    BytesJoin(route, NEW_REQUEST, blanks + ['\n'], more);
    BytesJoin(route, NEW_REQUEST, blanks, ['\n']);
    LineEnd(route, line);
    BlanksTrimmed(blanks);
    Ignored(route, ParseLine(route, line.(temp := [])), more);
  }

  lemma {:induction false} BlanksTrimmed(blanks: string)
    requires forall i :: 0 <= i < |blanks| ==> IsSpace(blanks[i])
    ensures Trim(blanks) == []
    decreases |blanks|
  {
    if blanks != [] {
      BlanksTrimmed(blanks[1..]);
    }
  }

  /** A line that starts with a colon is no header. */
  lemma NamelessHeader(route: Router, r: Request, rest: string)
    requires r.state.ReqHeaders?
    ensures ParseLine(route, r.(temp := ":" + rest)) == r.(temp := [])
  {
    assert (":" + rest)[0] == ':';
  }

  /** A line without a colon is a header whose name is the line, and whose value is the line
      without its first character. */
  lemma NoColonHeader(line: string)
    requires 0 < |line| < 0x1_0000_0000 && ':' !in line
    ensures HeaderOf(line) == Header(line, line[1..])
  {
    assert line[0..|line|] == line && line[1..|line|] == line[1..];
  }

  /** A method that is none of the seven leaves the method as it was. */
  lemma UnknownMethod(text: string, before: Verb)
    ensures (forall verb: Verb :: !verb.Any? ==> text != VerbText(verb)) ==> VerbOf(text, before) == before
  {
    if forall verb: Verb :: !verb.Any? ==> text != VerbText(verb) {
      assert text != VerbText(Get) && text != VerbText(Post) && text != VerbText(Delete) && text != VerbText(Put);
      assert text != VerbText(Patch) && text != VerbText(Head) && text != VerbText(Options);
    }
  }
}
