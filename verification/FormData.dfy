/** Form encoding (application/x-www-form-urlencoded, percent-encoding of RFC 3986 section
    2.1): what a client prints and what the two parsers of the request make of it. */
module FormData {
  import opened Sequences
  import opened ArduinoString
  import opened WebRequest
  import opened Segmentation
  import opened SegmentationLimits

  datatype Field = Field(name: string, value: string)

  // ---------------------------------------------------------------- printing

  predicate IsText(s: string) {
    forall i :: 0 <= i < |s| ==> s[i] < 256 as char
  }

  predicate IsField(f: Field) {
    IsText(f.name) && IsText(f.value)
  }

  /** How a client writes a text: the characters that it leaves as they are, whether it writes
      a blank as '+', and the case of its hex digits. */
  datatype Encoder = Encoder(keep: set<char>, plus: bool, lower: bool)

  /** The characters that a client must not leave as they are. */
  predicate Leaves(enc: Encoder) {
    enc.keep !! {'\0', '%', '+', '&', '='}
  }

  function EscapeDigit(v: nat, lower: bool): (c: char)
    requires v < 16
    ensures HexValue(c) == v && c != '\0' && c != '&' && c != '='
  {
    if v < 10 then ('0' as int + v) as char else ((if lower then 'a' else 'A') as int + v - 10) as char
  }

  function EncodeChar(c: char, enc: Encoder): (e: string)
    requires c < 256 as char
    ensures e != []
  {
    if c in enc.keep then [c]
    else if c == ' ' && enc.plus then ['+']
    else ['%', EscapeDigit(c as int / 16, enc.lower), EscapeDigit(c as int % 16, enc.lower)]
  }

  function Encode(s: string, enc: Encoder): string
    requires IsText(s)
  {
    if s == [] then [] else EncodeChar(s[0], enc) + Encode(s[1..], enc)
  }

  function PrintField(f: Field, enc: Encoder): string
    requires IsField(f)
  {
    Encode(f.name, enc) + "=" + Encode(f.value, enc)
  }

  function PrintForm(fields: seq<Field>, enc: Encoder): string
    requires forall f :: f in fields ==> IsField(f)
  {
    if fields == [] then []
    else if |fields| == 1 then PrintField(fields[0], enc)
    else PrintField(fields[0], enc) + "&" + PrintForm(fields[1..], enc)
  }

  // ---------------------------------------------------------------- decoding

  /** Decoding undoes encoding. */
  lemma {:induction false} DecodeEncoded(s: string, enc: Encoder)
    requires IsText(s) && Leaves(enc)
    ensures UrlDecode(Encode(s, enc)) == s
    decreases |s|
  {
    hide UrlDecode, EncodeChar;
    if s == [] {
      PlainDecoded(s);
    } else {
      DecodeEncoded(s[1..], enc);
      CharDecoded(s[0], enc, Encode(s[1..], enc));
    }
  }

  /** A client that leaves '+' as it is, as many do in a path, gets its text back if and only if
      the text has none. */
  lemma {:induction false} PlusExactly(s: string, enc: Encoder)
    requires IsText(s) && '+' in enc.keep && enc.keep !! {'\0', '%', '&', '='}
    ensures |UrlDecode(Encode(s, enc))| == |s|
    ensures UrlDecode(Encode(s, enc)) == s <==> '+' !in s
    decreases |s|
  {
    if s != [] {
      PlusExactly(s[1..], enc);
      PlusChar(s[0], enc, Encode(s[1..], enc));
      hide UrlDecode, EncodeChar;
      assert s == [s[0]] + s[1..];
    }
  }

  lemma PlusChar(c: char, enc: Encoder, more: string)
    requires c < 256 as char && '+' in enc.keep && enc.keep !! {'\0', '%', '&', '='}
    ensures UrlDecode(EncodeChar(c, enc) + more) == [if c == '+' then ' ' else c] + UrlDecode(more)
  {
    var e := EncodeChar(c, enc);
    assert (e + more)[|e|..] == more;
  }

  /** A percent sign with less than two characters behind it stays. */
  lemma {:induction false} PercentAtEnd(s: string, enc: Encoder, rest: string)
    requires IsText(s) && Leaves(enc) && |rest| < 2 && '+' !in rest && '%' !in rest
    ensures UrlDecode(Encode(s, enc) + "%" + rest) == s + "%" + rest
    decreases |s|
  {
    hide UrlDecode, EncodeChar, Leaves, HexValue;
    if s != [] {
      PercentAtEnd(s[1..], enc, rest);
      var c, more := EncodeChar(s[0], enc), Encode(s[1..], enc) + "%" + rest;
      assert Encode(s, enc) + "%" + rest == c + more;
      CharDecoded(s[0], enc, more);
      assert s + "%" + rest == [s[0]] + (s[1..] + "%" + rest);
    } else {
      assert [] + "%" + rest == "%" + rest;
      PlainDecoded("%" + rest);
    }
  }

  lemma CharDecoded(c: char, enc: Encoder, more: string)
    requires c < 256 as char && Leaves(enc)
    ensures UrlDecode(EncodeChar(c, enc) + more) == [c] + UrlDecode(more)
  {
    var e := EncodeChar(c, enc);
    assert (e + more)[|e|..] == more;
  }

  /** What stands behind a percent sign is taken for two hex digits whatever it is: the value
      ends in front of the first character that is none. */
  lemma BadEscape(v: nat, lower: bool, bad: char, more: char, rest: string)
    requires v < 16 && !('0' <= bad <= '9') && !('a' <= bad <= 'f') && !('A' <= bad <= 'F')
    ensures UrlDecode(['%', bad, more] + rest) == ['\0'] + UrlDecode(rest)
    ensures UrlDecode(['%', EscapeDigit(v, lower), bad] + rest) == [v as char] + UrlDecode(rest)
  {
    assert (['%', bad, more] + rest)[3..] == rest && (['%', EscapeDigit(v, lower), bad] + rest)[3..] == rest;
  }

  /** Short texts without '+' are left alone. */
  lemma PlainDecoded(text: string)
    requires |text| < 3 && '+' !in text
    ensures UrlDecode(text) == text
  {
    if |text| == 1 {
      assert text[1..] == [];
    } else if |text| == 2 {
      assert text[1..][1..] == [];
    }
  }

  predicate NoSeparator(text: string) {
    forall i :: 0 <= i < |text| ==> text[i] != '&' && text[i] != '=' && text[i] != '\0'
  }

  lemma {:induction false} EncodedHasNoSeparator(s: string, enc: Encoder)
    requires IsText(s) && Leaves(enc)
    ensures NoSeparator(Encode(s, enc))
    decreases |s|
  {
    if s != [] {
      EncodedHasNoSeparator(s[1..], enc);
    }
  }

  // ---------------------------------------------------------------- the query string

  function Listed(fields: seq<Field>, post: bool): seq<Param> {
    if fields == [] then []
    else [Param(fields[0].name, fields[0].value, post, false, 0)] + Listed(fields[1..], post)
  }

  lemma FirstIndex(text: string, c: char, start: nat, k: nat)
    requires start <= k < |text| && text[k] == c && forall i :: start <= i < k ==> text[i] != c
    ensures IndexOf(text, c, start) == k
  {
  }

  /** Where the parser cuts the first pair. */
  lemma FirstField(text: string, start: nat, name: string, value: string, rest: string)
    requires start <= |text| && text[start..] == name + "=" + value + rest
    requires NoSeparator(name) && NoSeparator(value) && (rest != [] ==> rest[0] == '&')
    ensures start < |text|
    ensures PairName(text, start) == name && PairValue(text, start) == value
    ensures PairEnd(text, start) == start + |name| + 1 + |value|
  {
    var equal, end := start + |name|, start + |name| + 1 + |value|;
    FirstSeparators(text, start, name, value, rest);
    FirstIndex(text, '=', start, equal);
    if end < |text| {
      FirstIndex(text, '&', start, end);
    }
    assert PairEqual(text, start) == equal;
  }

  lemma FirstSeparators(text: string, start: nat, name: string, value: string, rest: string)
    requires start <= |text| && text[start..] == name + "=" + value + rest
    requires NoSeparator(name) && NoSeparator(value) && (rest != [] ==> rest[0] == '&')
    ensures var equal, end := start + |name|, start + |name| + 1 + |value|;
      && end <= |text| && text[equal] == '=' && (end < |text| ==> text[end] == '&')
      && (end == |text| <==> rest == [])
      && (forall i :: start <= i < end ==> text[i] != '&') && (forall i :: start <= i < equal ==> text[i] != '=')
      && text[start..equal] == name && text[equal + 1..end] == value
  {
  }

  /** The first pair of a printed form. */
  lemma FirstParam(text: string, start: nat, next: nat, f: Field, rest: string, enc: Encoder)
    requires IsField(f) && Leaves(enc) && next == start + |PrintField(f, enc)| + 1
    requires start <= |text| && text[start..] == PrintField(f, enc) + rest && (rest != [] ==> rest[0] == '&')
    ensures GetParams(text, start) == [Param(f.name, f.value, false, false, 0)] + GetParams(text, next)
  {
    var name, value := Encode(f.name, enc), Encode(f.value, enc);
    EncodedHasNoSeparator(f.name, enc);
    EncodedHasNoSeparator(f.value, enc);
    FirstField(text, start, name, value, rest);
    DecodeEncoded(f.name, enc);
    DecodeEncoded(f.value, enc);
    GetFirst(text, start, next, name, value, f);
  }

  lemma GetFirst(text: string, start: nat, next: nat, name: string, value: string, f: Field)
    requires start < |text| && PairName(text, start) == name && PairValue(text, start) == value
    requires next == PairEnd(text, start) + 1
    requires UrlDecode(name) == f.name && UrlDecode(value) == f.value
    ensures GetParams(text, start) == [Param(f.name, f.value, false, false, 0)] + GetParams(text, next)
  {
    hide UrlDecode, PairName, PairValue, PairEnd, IndexOf;
  }

  /** A pair without '=' is a name with an empty value. */
  lemma BareName(text: string, start: nat, name: string, rest: string, enc: Encoder)
    requires IsText(name) && name != [] && Leaves(enc) && start <= |text|
    requires text[start..] == Encode(name, enc) + rest && (rest != [] ==> rest[0] == '&')
    ensures GetParams(text, start)
      == [Param(name, [], false, false, 0)] + GetParams(text, start + |Encode(name, enc)| + 1)
  {
    hide Encode, UrlDecode, GetParams, PairName, PairValue, PairEnd, NoSeparator, Leaves, IsText;
    var printed := Encode(name, enc);
    EncodedHasNoSeparator(name, enc);
    DecodeEncoded(name, enc);
    EncodedNonEmpty(name, enc);
    BareCut(text, start, printed, rest);
    PlainDecoded([]);
    GetFirst(text, start, start + |printed| + 1, printed, [], Field(name, []));
  }

  lemma EncodedNonEmpty(s: string, enc: Encoder)
    requires IsText(s) && s != []
    ensures Encode(s, enc) != []
  {
  }

  lemma BareCut(text: string, start: nat, name: string, rest: string)
    requires start <= |text| && text[start..] == name + rest && name != [] && NoSeparator(name)
    requires rest != [] ==> rest[0] == '&'
    ensures start < |text| && PairEnd(text, start) == start + |name|
    ensures PairName(text, start) == name && PairValue(text, start) == []
  {
    hide IndexOf;
    var end := start + |name|;
    assert text[start..end] == name;
    assert forall i :: start <= i < end ==> text[i] == name[i - start];
    assert rest != [] ==> end < |text| && text[end] == rest[0];
  }

  lemma NoMoreParams(text: string, next: nat)
    requires next >= |text|
    ensures GetParams(text, next) == []
  {
  }

  /** What is behind the first field of a printed form. */
  function PrintRest(fields: seq<Field>, enc: Encoder): string
    requires fields != [] && forall f :: f in fields ==> IsField(f)
  {
    if |fields| == 1 then [] else "&" + PrintForm(fields[1..], enc)
  }

  lemma PrintFirst(fields: seq<Field>, enc: Encoder)
    requires fields != [] && forall f :: f in fields ==> IsField(f)
    ensures fields[0] in fields && PrintForm(fields, enc) == PrintField(fields[0], enc) + PrintRest(fields, enc)
  {
  }

  lemma {:induction false} FormFromPosition(text: string, start: nat, fields: seq<Field>, enc: Encoder)
    requires Leaves(enc) && (forall f :: f in fields ==> IsField(f))
    requires fields != [] && start <= |text| && text[start..] == PrintForm(fields, enc)
    ensures GetParams(text, start) == Listed(fields, false)
    decreases |fields|
  {
    hide GetParams, UrlDecode, Encode, PrintForm, PrintField;
    PrintFirst(fields, enc);
    var next := start + |PrintField(fields[0], enc)| + 1;
    FirstParam(text, start, next, fields[0], PrintRest(fields, enc), enc);
    if |fields| == 1 {
      NoMoreParams(text, next);
    } else {
      FormFromPosition(text, next, fields[1..], enc);
    }
  }

  /** The query string of any list of fields, with empty names and values, repeated names
      and any characters, is read back as that list. */
  lemma QueryRoundTrip(fields: seq<Field>, enc: Encoder)
    requires Leaves(enc) && (forall f :: f in fields ==> IsField(f))
    ensures GetParams(PrintForm(fields, enc), 0) == Listed(fields, false)
  {
    if fields != [] {
      FormFromPosition(PrintForm(fields, enc), 0, fields, enc);
    }
  }

  // ---------------------------------------------------------------- the same text as a body

  lemma {:induction false} FeedPlainJoin(f: Form, a: string, b: string)
    ensures FeedPlain(f, a + b) == FeedPlain(FeedPlain(f, a), b)
    decreases |a|
  {
    if a == [] {
      assert a + b == b;
    } else {
      assert (a + b)[0] == a[0] && (a + b)[1..] == a[1..] + b;
      FeedPlainJoin(PlainPostChar(f.(parsedLength := f.parsedLength + 1), a[0]), a[1..], b);
    }
  }

  /** Up to the next '&' the bytes are only collected; the last byte ends the pair. */
  lemma {:induction false} FeedOnePair(f: Form, pair: string)
    requires forall i :: 0 <= i < |pair| ==> pair[i] != '&' && pair[i] != '\0'
    requires pair != [] && f.parsedLength + |pair| <= f.contentLength
    ensures FeedPlain(f, pair) ==
      var g := f.(parsedLength := f.parsedLength + |pair|);
      if g.parsedLength == f.contentLength
      then g.(params := f.params + [PlainParam(f.temp + pair)], temp := [])
      else g.(temp := f.temp + pair)
    decreases |pair|
  {
    hide PlainParam;
    var one := PlainPostChar(f.(parsedLength := f.parsedLength + 1), pair[0]);
    if |pair| == 1 {
      assert pair == [pair[0]];
    } else {
      FeedOnePair(one, pair[1..]);
      assert one.temp + pair[1..] == f.temp + pair;
    }
  }

  lemma PairHasNoEnd(f: Field, enc: Encoder)
    requires IsField(f) && Leaves(enc)
    ensures var text := PrintField(f, enc); forall i :: 0 <= i < |text| ==> text[i] != '&' && text[i] != '\0'
  {
    EncodedHasNoSeparator(f.name, enc);
    EncodedHasNoSeparator(f.value, enc);
  }

  function Posted(fields: seq<Field>, enc: Encoder): seq<Param>
    requires forall f :: f in fields ==> IsField(f)
  {
    if fields == [] then []
    else [PlainParam(PrintField(fields[0], enc))] + Posted(fields[1..], enc)
  }

  lemma {:induction false} FeedForm(f: Form, fields: seq<Field>, enc: Encoder)
    requires Leaves(enc) && (forall x :: x in fields ==> IsField(x))
    requires f.temp == [] && f.parsedLength + |PrintForm(fields, enc)| == f.contentLength
    ensures FeedPlain(f, PrintForm(fields, enc))
      == f.(params := f.params + Posted(fields, enc), parsedLength := f.contentLength)
    decreases |fields|
  {
    if fields != [] {
      var pair := PrintField(fields[0], enc);
      assert fields[0] in fields;
      PairHasNoEnd(fields[0], enc);
      if |fields| == 1 {
        FeedOnePair(f, pair);
        assert f.temp + pair == pair;
        assert fields[1..] == [];
      } else {
        var rest := PrintForm(fields[1..], enc);
        assert PrintForm(fields, enc) == pair + "&" + rest;
        FeedPairAndRest(f, pair, rest);
        var next := f.(params := f.params + [PlainParam(pair)], parsedLength := f.parsedLength + |pair| + 1);
        FeedForm(next, fields[1..], enc);
      }
      PostedFirst(f.params, fields, enc);
    } else {
      assert f.params + [] == f.params;
    }
  }

  lemma PostedFirst(before: seq<Param>, fields: seq<Field>, enc: Encoder)
    requires fields != [] && forall f :: f in fields ==> IsField(f)
    ensures fields[0] in fields
    ensures before + Posted(fields, enc)
      == before + [PlainParam(PrintField(fields[0], enc))] + Posted(fields[1..], enc)
  {
  }

  lemma FeedPairAndRest(f: Form, pair: string, rest: string)
    requires forall i :: 0 <= i < |pair| ==> pair[i] != '&' && pair[i] != '\0'
    requires f.temp == [] && pair != [] && f.parsedLength + |pair| < f.contentLength
    ensures FeedPlain(f, pair + "&" + rest) ==
      FeedPlain(f.(params := f.params + [PlainParam(pair)], parsedLength := f.parsedLength + |pair| + 1), rest)
  {
    AndBehind(f, pair, rest);
    PairRead(f, pair);
  }

  lemma PairRead(f: Form, pair: string)
    requires forall i :: 0 <= i < |pair| ==> pair[i] != '&' && pair[i] != '\0'
    requires f.temp == [] && pair != [] && f.parsedLength + |pair| < f.contentLength
    ensures FeedPlain(FeedPlain(f, pair), "&")
      == f.(params := f.params + [PlainParam(pair)], parsedLength := f.parsedLength + |pair| + 1)
  {
    FeedOnePair(f, pair);
    assert f.temp + pair == pair;
  }

  lemma AndBehind(f: Form, pair: string, rest: string)
    ensures FeedPlain(f, pair + "&" + rest) == FeedPlain(FeedPlain(FeedPlain(f, pair), "&"), rest)
  {
    FeedPlainJoin(f, pair, "&" + rest);
    assert pair + "&" + rest == pair + ("&" + rest);
  }

  /** The names that the form parser does not take for the start of a raw body. */
  predicate FormName(name: string, enc: Encoder) {
    name != [] && !(name[0] in enc.keep && name[0] in {'{', '['})
  }

  /** A text with its first '=' behind the name, as the form parser splits it. */
  lemma SplitAtEqual(name: string, value: string)
    requires NoSeparator(name)
    ensures PlainParam(name + "=" + value) ==
      if name != [] && name[0] != '{' && name[0] != '['
      then Param(UrlDecode(name), UrlDecode(value), true, false, 0)
      else Param("body", UrlDecode(name + "=" + value), true, false, 0)
  {
    var temp := name + "=" + value;
    assert forall i :: 0 <= i < |name| ==> temp[i] == name[i];
    FirstIndex(temp, '=', 0, |name|);
    assert temp[..|name|] == name && temp[|name| + 1..] == value;
    assert From(temp, |name| + 1) == value;
    assert StartsWith(temp, "{") <==> temp[0] == '{';
    assert StartsWith(temp, "[") <==> temp[0] == '[';
  }

  /** A posted pair is read back exactly if its name is a form name. */
  lemma PostedField(f: Field, enc: Encoder)
    requires IsField(f) && Leaves(enc)
    ensures PlainParam(PrintField(f, enc)) == Param(f.name, f.value, true, false, 0) <==> FormName(f.name, enc)
  {
    EncodedHasNoSeparator(f.name, enc);
    SplitAtEqual(Encode(f.name, enc), Encode(f.value, enc));
    DecodeEncoded(f.name, enc);
    DecodeEncoded(f.value, enc);
    if f.name != [] {
      assert Encode(f.name, enc)[0] == EncodeChar(f.name[0], enc)[0];
      assert "body"[0] == 'b';
    }
  }

  lemma {:induction false} PostedFields(fields: seq<Field>, enc: Encoder)
    requires Leaves(enc) && (forall f :: f in fields ==> IsField(f))
    ensures |Posted(fields, enc)| == |Listed(fields, true)|
    ensures Posted(fields, enc) == Listed(fields, true) <==> forall f :: f in fields ==> FormName(f.name, enc)
    decreases |fields|
  {
    if fields != [] {
      PostedField(fields[0], enc);
      PostedFields(fields[1..], enc);
      var posted, listed := Posted(fields, enc), Listed(fields, true);
      assert posted[1..] == Posted(fields[1..], enc) && listed[1..] == Listed(fields[1..], true);
      assert posted == listed <==> posted[0] == listed[0] && posted[1..] == listed[1..] by {
        assert posted == [posted[0]] + posted[1..] && listed == [listed[0]] + listed[1..];
      }
      assert forall f :: f in fields <==> f == fields[0] || f in fields[1..];
    }
  }

  /** Fed byte by byte as a body, the same text gives the same fields, marked as posted,
      exactly if every name is non-empty and does not start with a plain '{' or '['. */
  lemma PostRoundTrip(f: Form, fields: seq<Field>, enc: Encoder)
    requires Leaves(enc) && (forall x :: x in fields ==> IsField(x))
    requires f.temp == [] && f.parsedLength == 0 && f.contentLength == |PrintForm(fields, enc)|
    ensures var end := FeedPlain(f, PrintForm(fields, enc));
      && |end.params| == |f.params| + |fields| && f.params <= end.params
      && (end.params == f.params + Listed(fields, true) <==> forall x :: x in fields ==> FormName(x.name, enc))
  {
    FeedForm(f, fields, enc);
    PostedFields(fields, enc);
    ListedCount(fields, true);
    var end := FeedPlain(f, PrintForm(fields, enc));
    assert end.params[|f.params|..] == Posted(fields, enc);
  }

  lemma {:induction false} ListedCount(fields: seq<Field>, post: bool)
    ensures |Listed(fields, post)| == |fields|
    decreases |fields|
  {
    if fields != [] {
      ListedCount(fields[1..], post);
    }
  }

  /** A form that is posted to a handler, in whatever segments it arrives. */
  lemma PostedFormHoweverCut(route: Router, r: Request, fields: seq<Field>, enc: Encoder, segments: seq<Segment>)
    requires Leaves(enc) && fields != [] && forall x :: x in fields ==> IsField(x) && FormName(x.name, enc)
    requires AtBody(r) && r.handler == Parsing && r.temp == []
    requires !r.head.isMultipart && BodyKindOf(r.head.contentType) == UrlEncoded
    requires r.contentLength == |PrintForm(fields, enc)| && Flatten(segments) == PrintForm(fields, enc)
    ensures var end := OnSegments(route, r, segments);
      && end.state.ReqEnd? && end.handled == r.handled + 1
      && end.params == r.params + Listed(fields, true)
  {
    var text := PrintForm(fields, enc);
    assert text != [];
    RegularBody(route, r, text);
    assert Flatten([text]) == text by {
      assert text + [] == text;
    }
    SegmentsAsBytes(route, r, segments);
    SegmentsAsBytes(route, r, [text]);
    OneSegment(route, r, text);
    PostRoundTrip(FormOf(r), fields, enc);
    FeedForm(FormOf(r), fields, enc);
  }
}
