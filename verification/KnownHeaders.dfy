/** What the headers of a request tell the server, whichever stand in the list and in whatever
    order (WebRequest.cpp:312-352). */
module KnownHeaders {
  import opened ArduinoString
  import opened WebRequest

  // ---------------------------------------------------------------- the headers that count

  datatype Kind =
    | HostName | BodyType | MultipartType | BodyLength | Continue | WebSocketUpgrade | EventStream | Basic | Digest

  predicate Named(h: Header, name: string) {
    EqualsIgnoreCase(h.name, name)
  }

  predicate Is(h: Header, kind: Kind) {
    match kind
    case HostName => Named(h, "Host")
    case BodyType => Named(h, "Content-Type")
    case MultipartType => Named(h, "Content-Type") && "multipart/" <= h.value
    case BodyLength => Named(h, "Content-Length")
    case Continue => Named(h, "Expect") && h.value == "100-continue"
    case WebSocketUpgrade => Named(h, "Upgrade") && EqualsIgnoreCase(h.value, "websocket")
    case EventStream => Named(h, "Accept") && ContainsIgnoreCase(h.value, "text/event-stream")
    case Basic => Named(h, "Authorization") && |h.value| > 5 && EqualsIgnoreCase(h.value[..5], "Basic")
    case Digest => Named(h, "Authorization") && |h.value| > 6 && EqualsIgnoreCase(h.value[..6], "Digest")
  }

  /** The last header of a kind, -1 if there is none. */
  function Last(headers: seq<Header>, kind: Kind): (k: int)
    ensures -1 <= k < |headers|
    ensures k >= 0 ==> Is(headers[k], kind)
    ensures forall j :: k < j < |headers| ==> !Is(headers[j], kind)
  {
    if headers == [] then -1
    else
      var k := Last(headers[1..], kind);
      if k >= 0 then k + 1 else if Is(headers[0], kind) then 0 else -1
  }

  /** A value up to its first semicolon. */
  predicate BeforeSemicolon(value: string, front: string) {
    front <= value && ';' !in front && (|front| < |value| ==> value[|front|] == ';')
  }

  /** A text behind its first '=', all of it if there is none. */
  function BehindEqual(text: string): string {
    if '=' !in text then text else if text[0] == '=' then text[1..] else BehindEqual(text[1..])
  }

  function Unquoted(text: string): string {
    if text == [] then [] else (if text[0] == '"' then [] else [text[0]]) + Unquoted(text[1..])
  }

  // ---------------------------------------------------------------- what a list of headers says

  /** The method and the first line stay, and of every kind the last header decides.  A value of
      4 GiB is beyond the positions of the original. */
  ghost predicate Says(after: RequestHead, headers: seq<Header>, before: RequestHead) {
    && after.verb == before.verb && after.url == before.url && after.minorVersion == before.minorVersion
    && after.headers == before.headers + headers
    && SaysBody(after, headers, before) && SaysConnection(after, headers, before)
    && SaysCredentials(after, headers, before)
  }

  ghost predicate SaysBody(after: RequestHead, headers: seq<Header>, before: RequestHead) {
    var host, kind, multi := Last(headers, HostName), Last(headers, BodyType), Last(headers, MultipartType);
    && after.host == (if host < 0 then before.host else headers[host].value)
    && (kind < 0 ==> after.contentType == before.contentType)
    && (kind >= 0 && |headers[kind].value| < 0x1_0000_0000 ==> BeforeSemicolon(headers[kind].value, after.contentType))
    && after.isMultipart == (before.isMultipart || multi >= 0)
    && after.boundary == (if multi < 0 then before.boundary else Unquoted(BehindEqual(headers[multi].value)))
  }

  ghost predicate SaysConnection(after: RequestHead, headers: seq<Header>, before: RequestHead) {
    var socket, events := Last(headers, WebSocketUpgrade), Last(headers, EventStream);
    && after.expectingContinue == (before.expectingContinue || Last(headers, Continue) >= 0)
    && after.connType == (if socket < 0 && events < 0 then before.connType
                          else if socket > events then WebSocket else Event)
  }

  ghost predicate SaysCredentials(after: RequestHead, headers: seq<Header>, before: RequestHead) {
    var basic, digest := Last(headers, Basic), Last(headers, Digest);
    && after.isDigest == (before.isDigest || digest >= 0)
    && after.authorization == (if basic < 0 && digest < 0 then before.authorization
                               else if basic > digest then headers[basic].value[6..] else headers[digest].value[7..])
  }

  /** The length of the body. */
  ghost predicate SaysLength(after: nat, headers: seq<Header>, before: nat) {
    var k := Last(headers, BodyLength);
    after == if k < 0 then before else Unsigned(Atoi(headers[k].value))
  }

  // ---------------------------------------------------------------- one header

  /** No header has two of these names. */
  lemma OneName(h: Header)
    ensures Named(h, "Host") ==> !Named(h, "Content-Type") && !Named(h, "Expect") && !Named(h, "Authorization")
    ensures Named(h, "Host") ==> !Named(h, "Upgrade") && !Named(h, "Accept")
    ensures Named(h, "Content-Type") ==> !Named(h, "Expect") && !Named(h, "Authorization") && !Named(h, "Upgrade")
    ensures Named(h, "Content-Type") ==> !Named(h, "Accept")
    ensures Named(h, "Expect") ==> !Named(h, "Authorization") && !Named(h, "Upgrade") && !Named(h, "Accept")
    ensures Named(h, "Authorization") ==> !Named(h, "Upgrade") && !Named(h, "Accept")
    ensures Named(h, "Upgrade") ==> !Named(h, "Accept")
  {
    assert Lower("Expect"[0]) != Lower("Accept"[0]);
  }

  lemma EqualFound(text: string)
    ensures From(text, IndexOf(text, '=') + 1) == BehindEqual(text)
  {
    var k := IndexOf(text, '=');
    hide IndexOf;
    if k >= 0 {
      FirstEqual(text, k);
      FromIs(text, k + 1);
    } else {
      assert '=' !in text;
      FromIs(text, 0);
      assert text[0..] == text;
    }
  }

  lemma FromIs(text: string, k: nat)
    requires k <= |text|
    ensures From(text, k) == text[k..]
  {
  }

  lemma {:induction false} FirstEqual(text: string, k: nat)
    requires k < |text| && text[k] == '=' && forall i :: 0 <= i < k ==> text[i] != '='
    ensures BehindEqual(text) == text[k + 1..]
    decreases k
  {
    assert '=' in text;
    if k > 0 {
      assert text[1..][k - 1] == '=';
      FirstEqual(text[1..], k - 1);
    }
  }

  lemma {:induction false} QuotesTaken(text: string)
    ensures Without(text, '"') == Unquoted(text)
    decreases |text|
  {
    if text != [] {
      QuotesTaken(text[1..]);
    }
  }

  lemma TypeCut(value: string)
    requires |value| < 0x1_0000_0000
    ensures BeforeSemicolon(value, Substring(value, 0, Unsigned(IndexOf(value, ';'))))
  {
  }

  function Typed(head: RequestHead, value: string): RequestHead {
    var typed := head.(contentType := Substring(value, 0, Unsigned(IndexOf(value, ';'))));
    if StartsWith(value, "multipart/")
    then typed.(boundary := Without(From(value, IndexOf(value, '=') + 1), '"'), isMultipart := true)
    else typed
  }

  /** What one header changes, by its name. */
  lemma KnownByName(head: RequestHead, h: Header)
    ensures var k := KnownHeader(head, h.name, h.value);
      if Named(h, "Host") then k == head.(host := h.value)
      else if Named(h, "Content-Type") then k == Typed(head, h.value)
      else if Named(h, "Authorization") then k == Authorized(head, h.value)
      else if Is(h, Continue) then k == head.(expectingContinue := true)
      else if Is(h, WebSocketUpgrade) then k == head.(connType := WebSocket)
      else if Is(h, EventStream) then k == head.(connType := Event)
      else k == head
  {
    OneName(h);
    hide EqualsIgnoreCase, ContainsIgnoreCase, IndexOf, From, Substring, Without, Authorized;
  }

  lemma LastOfOne(h: Header, kind: Kind)
    ensures Last([h], kind) == if Is(h, kind) then 0 else -1
  {
    assert [h][1..] == [];
  }

  lemma OneHeaderBody(head: RequestHead, h: Header)
    ensures SaysBody(KnownHeader(head, h.name, h.value).(headers := head.headers + [h]), [h], head)
  {
    KnownByName(head, h);
    OneName(h);
    LastOfOne(h, HostName);
    LastOfOne(h, BodyType);
    LastOfOne(h, MultipartType);
    TypeSays(head, h.value);
    AuthorizedSays(head, h.value);
    hide KnownHeader, Typed, Authorized, Named, Last, BehindEqual, Unquoted, BeforeSemicolon;
  }

  lemma TypeSays(head: RequestHead, value: string)
    ensures var typed := Typed(head, value);
      && (|value| < 0x1_0000_0000 ==> BeforeSemicolon(value, typed.contentType))
      && typed == head.(contentType := typed.contentType, boundary := typed.boundary, isMultipart := typed.isMultipart)
      && (if "multipart/" <= value then typed.isMultipart && typed.boundary == Unquoted(BehindEqual(value))
          else typed.isMultipart == head.isMultipart && typed.boundary == head.boundary)
  {
    hide IndexOf, From, Substring, Without, BehindEqual, Unquoted, BeforeSemicolon;
    BoundarySays(value);
    if |value| < 0x1_0000_0000 {
      TypeCut(value);
    }
  }

  lemma BoundarySays(value: string)
    ensures Without(From(value, IndexOf(value, '=') + 1), '"') == Unquoted(BehindEqual(value))
  {
    hide IndexOf, From, Without, BehindEqual, Unquoted;
    EqualFound(value);
    QuotesTaken(From(value, IndexOf(value, '=') + 1));
  }

  lemma AuthorizedSays(head: RequestHead, value: string)
    ensures var a := Authorized(head, value);
      && a == head.(authorization := a.authorization, isDigest := a.isDigest)
      && (if |value| > 5 && EqualsIgnoreCase(value[..5], "Basic")
          then a.authorization == value[6..] && a.isDigest == head.isDigest
               && (|value| > 6 ==> !EqualsIgnoreCase(value[..6], "Digest"))
          else if |value| > 6 && EqualsIgnoreCase(value[..6], "Digest") then a.authorization == value[7..] && a.isDigest
          else a == head)
  {
    if |value| > 5 {
      FromIs(value, 6);
    }
    if |value| > 6 {
      FromIs(value, 7);
      assert value[..5][0] == value[..6][0] && Lower("Basic"[0]) != Lower("Digest"[0]);
    }
  }

  lemma OneHeaderConnection(head: RequestHead, h: Header)
    ensures SaysConnection(KnownHeader(head, h.name, h.value).(headers := head.headers + [h]), [h], head)
  {
    KnownByName(head, h);
    OneName(h);
    LastOfOne(h, WebSocketUpgrade);
    LastOfOne(h, EventStream);
    LastOfOne(h, Continue);
    TypeSays(head, h.value);
    AuthorizedSays(head, h.value);
    hide KnownHeader, Typed, Authorized, Named, Last, BehindEqual, Unquoted, BeforeSemicolon, EqualsIgnoreCase,
      ContainsIgnoreCase;
  }

  lemma OneHeaderCredentials(head: RequestHead, h: Header)
    ensures SaysCredentials(KnownHeader(head, h.name, h.value).(headers := head.headers + [h]), [h], head)
  {
    KnownByName(head, h);
    OneName(h);
    LastOfOne(h, Basic);
    LastOfOne(h, Digest);
    TypeSays(head, h.value);
    AuthorizedSays(head, h.value);
    hide KnownHeader, Typed, Authorized, Named, Last, BehindEqual, Unquoted, BeforeSemicolon, EqualsIgnoreCase,
      ContainsIgnoreCase;
  }

  lemma OneHeaderSays(head: RequestHead, h: Header)
    ensures Says(KnownHeader(head, h.name, h.value).(headers := head.headers + [h]), [h], head)
  {
    KnownByName(head, h);
    TypeSays(head, h.value);
    AuthorizedSays(head, h.value);
    OneHeaderBody(head, h);
    OneHeaderConnection(head, h);
    OneHeaderCredentials(head, h);
    hide KnownHeader, Typed, Authorized, Named, Is, BehindEqual, Unquoted, BeforeSemicolon, EqualsIgnoreCase,
      SaysBody, SaysConnection, SaysCredentials;
  }

  // ---------------------------------------------------------------- all headers

  lemma LastOfMore(h: Header, rest: seq<Header>, kind: Kind)
    ensures Last([h] + rest, kind)
      == if Last(rest, kind) >= 0 then Last(rest, kind) + 1 else if Is(h, kind) then 0 else -1
    ensures Last([h], kind) == if Is(h, kind) then 0 else -1
    ensures Last(rest, kind) >= 0 ==> ([h] + rest)[Last(rest, kind) + 1] == rest[Last(rest, kind)]
  {
    LastOfOne(h, kind);
    assert ([h] + rest)[1..] == rest;
  }

  lemma BodyMore(before: RequestHead, h: Header, middle: RequestHead, rest: seq<Header>, after: RequestHead)
    requires SaysBody(middle, [h], before) && SaysBody(after, rest, middle)
    ensures SaysBody(after, [h] + rest, before)
  {
    LastOfMore(h, rest, HostName);
    LastOfMore(h, rest, BodyType);
    LastOfMore(h, rest, MultipartType);
    hide Is, Last, BeforeSemicolon, BehindEqual, Unquoted;
  }

  lemma ConnectionMore(before: RequestHead, h: Header, middle: RequestHead, rest: seq<Header>, after: RequestHead)
    requires SaysConnection(middle, [h], before) && SaysConnection(after, rest, middle)
    ensures SaysConnection(after, [h] + rest, before)
  {
    LastOfMore(h, rest, Continue);
    LastOfMore(h, rest, WebSocketUpgrade);
    LastOfMore(h, rest, EventStream);
    OneKindOnly(h);
    hide Is, Last;
  }

  lemma OneKindOnly(h: Header)
    ensures !(Is(h, WebSocketUpgrade) && Is(h, EventStream)) && !(Is(h, Basic) && Is(h, Digest))
  {
    OneName(h);
    AuthorizedSays(NEW_HEAD, h.value);
    hide EqualsIgnoreCase, ContainsIgnoreCase;
  }

  lemma CredentialsMore(before: RequestHead, h: Header, middle: RequestHead, rest: seq<Header>, after: RequestHead)
    requires SaysCredentials(middle, [h], before) && SaysCredentials(after, rest, middle)
    ensures SaysCredentials(after, [h] + rest, before)
  {
    LastOfMore(h, rest, Basic);
    LastOfMore(h, rest, Digest);
    OneKindOnly(h);
    hide Is, Last;
  }

  lemma LengthMore(before: nat, h: Header, rest: seq<Header>, after: nat)
    requires SaysLength(after, rest, ContentLengthOf(h, before))
    ensures SaysLength(after, [h] + rest, before)
  {
    LastOfMore(h, rest, BodyLength);
  }

  /** Of two headers at the end of a list, and what stands in front of them. */
  lemma LastAtEnd(others: seq<Header>, a: Header, b: Header, kind: Kind)
    ensures var headers := others + [a, b];
      && headers[|others|] == a && headers[|others| + 1] == b
      && Last(headers, kind)
         == if Is(b, kind) then |others| + 1 else if Is(a, kind) then |others| else Last(others, kind)
  {
    var headers := others + [a, b];
    hide Is;
    OnlyLast(headers, kind, if Is(b, kind) then |others| + 1 else if Is(a, kind) then |others| else Last(others, kind));
  }

  lemma OnlyLast(headers: seq<Header>, kind: Kind, k: int)
    requires -1 <= k < |headers| && (k >= 0 ==> Is(headers[k], kind))
    requires forall j :: k < j < |headers| ==> !Is(headers[j], kind)
    ensures Last(headers, kind) == k
  {
    hide Is;
    var l := Last(headers, kind);
    if 0 <= l {
      assert Is(headers[l], kind) && l <= k;
    }
  }

  /** What one header says, and then the others. */
  lemma SaysMore(before: RequestHead, h: Header, middle: RequestHead, rest: seq<Header>, after: RequestHead)
    requires Says(middle, [h], before) && Says(after, rest, middle)
    ensures Says(after, [h] + rest, before)
  {
    hide SaysBody, SaysConnection, SaysCredentials;
    BodyMore(before, h, middle, rest, after);
    ConnectionMore(before, h, middle, rest, after);
    CredentialsMore(before, h, middle, rest, after);
    assert before.headers + [h] + rest == before.headers + ([h] + rest);
  }

  lemma NothingSaid(head: RequestHead)
    ensures Says(head, [], head)
  {
    assert head.headers + [] == head.headers;
  }

  // ---------------------------------------------------------------- letters of either case

  /** One is the other, or one is a letter and the other the same letter of the other case. */
  predicate SameLetter(a: char, b: char) {
    a == b || ('A' <= a <= 'Z' && b as int == a as int + 32) || ('A' <= b <= 'Z' && a as int == b as int + 32)
  }

  /** Names are compared letter by letter, without regard to their case. */
  lemma SameIgnoringCase(s: string, t: string)
    ensures EqualsIgnoreCase(s, t) <==> |s| == |t| && forall i :: 0 <= i < |s| ==> SameLetter(s[i], t[i])
  {
    forall i | 0 <= i < |s| && i < |t|
      ensures Lower(s[i]) == Lower(t[i]) <==> SameLetter(s[i], t[i])
    {
    }
  }

  predicate StandsAt(s: string, t: string, k: nat) {
    k + |t| <= |s| && EqualsIgnoreCase(s[k..k + |t|], t)
  }

  /** A text contains another one if that one stands somewhere in it. */
  lemma {:induction false} ContainsExactly(s: string, t: string)
    ensures ContainsIgnoreCase(s, t) <==> exists k: nat :: StandsAt(s, t, k)
    decreases |s|
  {
    hide EqualsIgnoreCase;
    if |t| <= |s| {
      assert s[0..0 + |t|] == s[..|t|];
      assert StandsAt(s, t, 0) <==> EqualsIgnoreCase(s[..|t|], t);
      if s != [] {
        ContainsExactly(s[1..], t);
        forall k: nat
          ensures StandsAt(s[1..], t, k) <==> StandsAt(s, t, k + 1)
        {
          assert k + 1 + |t| <= |s| ==> s[1..][k..k + |t|] == s[k + 1..k + 1 + |t|];
        }
        assert forall k: nat :: StandsAt(s, t, k) ==> k == 0 || StandsAt(s[1..], t, k - 1);
      }
    }
  }
}
