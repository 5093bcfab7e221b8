/** GeneralUtils::base64Encode and base64Decode (GeneralUtils.cpp:23-98, 134-209; RFC 4648
    section 4). */
module Base64 {

  type Byte = b: int | 0 <= b < 256

  type Sextet = v: int | 0 <= v < 64

  /** kBase64Alphabet */
  function Alphabet(v: Sextet): (c: char)
    ensures Lookup(c) == v && c != '='
  {
    if v < 26 then ('A' as int + v) as char
    else if v < 52 then ('a' as int + v - 26) as char
    else if v < 62 then ('0' as int + v - 52) as char
    else if v == 62 then '+' else '/'
  }

  /** b64_lookup; 255 for what is not in the alphabet. */
  function Lookup(c: char): (v: Byte)
    ensures v < 64 || v == 255
  {
    if 'A' <= c <= 'Z' then c as int - 'A' as int
    else if 'a' <= c <= 'z' then c as int - 71
    else if '0' <= c <= '9' then c as int + 4
    else if c == '+' then 62
    else if c == '/' then 63
    else 255
  }

  /** a3_to_a4 and a4_to_a3, shifts and masks written as divisions and remainders. */
  function FourOfThree(a: Byte, b: Byte, c: Byte): (s: seq<Sextet>)
    ensures |s| == 4
  {
    [a / 4, a % 4 * 16 + b / 16, b % 16 * 4 + c / 64, c % 64]
  }

  function ThreeOfFour(a: Byte, b: Byte, c: Byte, d: Byte): (s: seq<Byte>)
    ensures |s| == 3
  {
    [(a * 4 + b / 16 % 4) % 256, (b % 16 * 16 + c / 4 % 16) % 256, (c % 4 * 64 + d) % 256]
  }

  // ---------------------------------------------------------------- encoding

  function EncodedLength(n: nat): nat {
    (n + 2 - (n + 2) % 3) / 3 * 4
  }

  function DigitsOf(sextets: seq<Sextet>): (t: string)
    ensures |t| == |sextets| && forall i :: 0 <= i < |t| ==> t[i] == Alphabet(sextets[i])
  {
    seq(|sextets|, i requires 0 <= i < |sextets| => Alphabet(sextets[i]))
  }

  /** The last one or two bytes, filled up with zeros; one digit more than bytes is kept. */
  function EncodeRest(data: seq<Byte>): (t: string)
    requires 0 < |data| < 3
    ensures |t| == |data| + 1
  {
    DigitsOf(FourOfThree(data[0], if |data| > 1 then data[1] else 0, 0)[..|data| + 1])
  }

  function Unpadded(data: seq<Byte>): string {
    if data == [] then []
    else if |data| < 3 then EncodeRest(data)
    else DigitsOf(FourOfThree(data[0], data[1], data[2])) + Unpadded(data[3..])
  }

  function Padding(n: nat): string {
    if n % 3 == 0 then "" else if n % 3 == 1 then "==" else "="
  }

  function Encode(data: seq<Byte>): string {
    Unpadded(data) + Padding(|data|)
  }

  lemma {:induction false} UnpaddedLength(data: seq<Byte>)
    ensures |Unpadded(data)| == |data| / 3 * 4 + (if |data| % 3 == 0 then 0 else |data| % 3 + 1)
    decreases |data|
  {
    if |data| >= 3 {
      UnpaddedLength(data[3..]);
    }
  }

  /** The length that is computed in advance is the length of the result. */
  lemma EncodedLengthAgrees(data: seq<Byte>)
    ensures |Encode(data)| == EncodedLength(|data|)
  {
    UnpaddedLength(data);
  }

  /** Full groups in front of the rest. */
  lemma {:induction false} UnpaddedJoin(groups: seq<Byte>, rest: seq<Byte>)
    requires |groups| % 3 == 0
    ensures Unpadded(groups + rest) == Unpadded(groups) + Unpadded(rest)
    decreases |groups|
  {
    if groups == [] {
      assert groups + rest == rest;
    } else {
      assert (groups + rest)[3..] == groups[3..] + rest;
      UnpaddedJoin(groups[3..], rest);
    }
  }

  method Base64Encode(data: seq<Byte>) returns (ok: bool, out: array<char>)
    ensures ok && out[..] == Encode(data) && fresh(out)
  {
    hide Unpadded, FourOfThree;
    UnpaddedLength(data);
    out := new char[EncodedLength(|data|)];
    var a3 := new Byte[3];
    var i, encLen := EncodeGroups(data, out, a3);
    FullAndRest(data, |data| / 3, i);
    if i > 0 {
      assert a3[..i][0] == a3[0] && (i > 1 ==> a3[..i][1] == a3[1]);
      encLen := EncodeTail(out, a3, encLen, i);
    }
    assert out[..encLen] == out[..];
    ok := encLen == out.Length;
  }

  /** So many bytes are read: whole groups are encoded, and the rest is collected. */
  ghost predicate BytesRead(data: seq<Byte>, k: nat, collected: seq<Byte>, encoded: string) {
    && |collected| < 3 && |collected| <= k <= |data| && (k - |collected|) % 3 == 0
    && collected == data[k - |collected|..k] && encoded == Unpadded(data[..k - |collected|])
  }

  lemma ByteCollected(data: seq<Byte>, k: nat, collected: seq<Byte>, encoded: string)
    requires BytesRead(data, k, collected, encoded) && k < |data|
    ensures |collected| < 2 ==> BytesRead(data, k + 1, collected + [data[k]], encoded)
    ensures |collected| == 2 ==> collected + [data[k]] == data[k - 2..k + 1]
    ensures |collected| == 2 ==> encoded == Unpadded(data[..k - 2])
  {
    hide Unpadded;
    OneMore(data, k - |collected|, k);
  }

  lemma ThreeCollected(data: seq<Byte>, k: nat)
    requires k % 3 == 0 && k <= |data|
    ensures BytesRead(data, k, [], Unpadded(data[..k]))
  {
    hide Unpadded;
  }

  /** The loop over the input; i bytes of a group are left in a3. */
  method EncodeGroups(data: seq<Byte>, out: array<char>, a3: array<Byte>) returns (i: nat, encLen: nat)
    requires out.Length == EncodedLength(|data|) && a3.Length == 3
    modifies out, a3
    ensures i == |data| % 3 && encLen == |data| / 3 * 4
    ensures a3[..i] == data[|data| - i..] && out[..encLen] == Unpadded(data[..|data| - i])
  {
    hide Unpadded;
    i, encLen := 0, 0;
    NoGroup(data);
    for k := 0 to |data|
      invariant i == k % 3 && encLen == k / 3 * 4
      invariant BytesRead(data, k, a3[..i], out[..encLen])
    {
      i, encLen := TakeByte(out, a3, i, encLen, data, k);
    }
  }

  lemma NextThird(n: nat, k: nat)
    requires k < n
    ensures k % 3 < 2 ==> (k + 1) / 3 == k / 3 && (k + 1) % 3 == k % 3 + 1
    ensures k % 3 == 2 ==> (k + 1) / 3 == k / 3 + 1 && (k + 1) % 3 == 0 && (k - 2) % 3 == 0 && k >= 2
    ensures (k + 1) / 3 * 4 <= EncodedLength(n)
  {
  }

  /** One byte; the third of a group completes four digits. */
  method TakeByte(out: array<char>, a3: array<Byte>, i: nat, encLen: nat, data: seq<Byte>, k: nat)
    returns (newI: nat, newLen: nat)
    requires k < |data| && out.Length == EncodedLength(|data|) && a3.Length == 3
    requires i == k % 3 && encLen == k / 3 * 4 <= out.Length && BytesRead(data, k, a3[..i], out[..encLen])
    modifies out, a3
    ensures newI == (k + 1) % 3 && newLen == (k + 1) / 3 * 4 <= out.Length
    ensures BytesRead(data, k + 1, a3[..newI], out[..newLen])
  {
    hide Unpadded, BytesRead, EncodedLength;
    NextThird(|data|, k);
    ByteCollected(data, k, a3[..i], out[..encLen]);
    a3[i] := data[k];
    assert a3[..i + 1] == a3[..i] + [data[k]];
    newI, newLen := i + 1, encLen;
    if newI == 3 {
      PutGroup(out, encLen, a3, data, k - 2);
      newI, newLen := 0, encLen + 4;
      ThreeCollected(data, k + 1);
      assert a3[..0] == [];
    }
  }

  lemma OneMore<T>(data: seq<T>, from: nat, k: nat)
    requires from <= k < |data|
    ensures data[from..k + 1] == data[from..k] + [data[k]]
  {
  }

  method PutGroup(out: array<char>, encLen: nat, a3: array<Byte>, ghost data: seq<Byte>, ghost at: nat)
    requires encLen + 4 <= out.Length && a3.Length == 3
    requires at % 3 == 0 && at + 3 <= |data| && a3[..3] == data[at..at + 3] && out[..encLen] == Unpadded(data[..at])
    modifies out
    ensures out[..encLen + 4] == Unpadded(data[..at + 3])
  {
    hide Unpadded, FourOfThree, DigitsOf;
    assert a3[..3][0] == a3[0] && a3[..3][1] == a3[1] && a3[..3][2] == a3[2];
    OneGroupMore(data, at);
    PutDigits(out, encLen, FourOfThree(a3[0], a3[1], a3[2]));
  }

  lemma NoGroup(data: seq<Byte>)
    ensures Unpadded(data[..0]) == []
  {
  }

  lemma Thirds(n: nat, groups: nat, i: nat)
    requires n == 3 * groups + i && i < 3
    ensures n / 3 == groups && n % 3 == i && (n - i) % 3 == 0
  {
  }

  lemma FullAndRest(data: seq<Byte>, groups: nat, i: nat)
    requires |data| == 3 * groups + i && i < 3
    ensures Unpadded(data) == Unpadded(data[..|data| - i]) + if i == 0 then [] else EncodeRest(data[|data| - i..])
  {
    hide Unpadded, EncodeRest;
    var n := |data|;
    Thirds(n, groups, i);
    assert data == data[..n - i] + data[n - i..];
    UnpaddedJoin(data[..n - i], data[n - i..]);
    UnpaddedRest(data[n - i..]);
  }

  lemma UnpaddedRest(rest: seq<Byte>)
    requires |rest| < 3
    ensures Unpadded(rest) == if rest == [] then [] else EncodeRest(rest)
  {
    hide EncodeRest, DigitsOf, FourOfThree;
  }

  /** One or two bytes, filled up with zeros, and the padding. */
  method EncodeTail(out: array<char>, a3: array<Byte>, at: nat, bytes: nat) returns (encLen: nat)
    requires 0 < bytes < 3 && a3.Length == 3 && at + 4 <= out.Length
    modifies out, a3
    ensures encLen == at + 4
    ensures out[..encLen] == old(out[..at]) + EncodeRest(old(a3[..bytes])) + Padding(bytes)
  {
    ghost var rest := a3[..bytes];
    var i := bytes;
    for j := i to 3
      invariant a3[..bytes] == rest && forall x :: bytes <= x < j ==> a3[x] == 0
      invariant out[..at] == old(out[..at])
    {
      a3[j] := 0;
    }
    assert a3[0] == rest[0] && (bytes > 1 ==> a3[1] == rest[1]);
    PutDigits(out, at, FourOfThree(a3[0], a3[1], a3[2])[..i + 1]);
    assert EncodeRest(rest) == DigitsOf(FourOfThree(a3[0], a3[1], a3[2])[..bytes + 1]);
    encLen := at + i + 1;
    ghost var text := out[..encLen];
    while i < 3
      invariant bytes <= i <= 3 && encLen == at + bytes + 1 + (i - bytes)
      invariant out[..at + bytes + 1] == text && forall x :: at + bytes + 1 <= x < encLen ==> out[x] == '='
    {
      out[encLen] := '=';
      encLen, i := encLen + 1, i + 1;
    }
    ghost var padding := out[at + bytes + 1..encLen];
    assert out[..encLen] == text + padding;
    assert forall x :: 0 <= x < |padding| ==> padding[x] == out[at + bytes + 1 + x];
    PaddingIs(padding, bytes);
  }

  lemma PaddingIs(text: string, bytes: nat)
    requires 0 < bytes < 3 && |text| == 3 - bytes && forall i :: 0 <= i < |text| ==> text[i] == '='
    ensures text == Padding(bytes)
  {
  }

  /** A group behind full groups. */
  lemma OneGroupMore(data: seq<Byte>, at: nat)
    requires at % 3 == 0 && at + 3 <= |data|
    ensures Unpadded(data[..at + 3])
      == Unpadded(data[..at]) + DigitsOf(FourOfThree(data[at], data[at + 1], data[at + 2]))
  {
    var group := data[at..at + 3];
    assert data[..at + 3] == data[..at] + group;
    UnpaddedJoin(data[..at], group);
    assert Unpadded(group) == DigitsOf(FourOfThree(group[0], group[1], group[2])) + Unpadded(group[3..]);
  }

  method PutDigits(out: array<char>, at: nat, sextets: seq<Sextet>)
    requires at + |sextets| <= out.Length
    modifies out
    ensures out[..at] == old(out[..at]) && out[at..at + |sextets|] == DigitsOf(sextets)
    ensures out[..at + |sextets|] == old(out[..at]) + DigitsOf(sextets)
  {
    for j := 0 to |sextets|
      invariant out[..at] == old(out[..at]) && forall x :: at <= x < at + j ==> out[x] == Alphabet(sextets[x - at])
    {
      out[at + j] := Alphabet(sextets[j]);
    }
    assert out[at..at + |sextets|] == DigitsOf(sextets);
    assert out[..at + |sextets|] == out[..at] + out[at..at + |sextets|];
  }

  // ---------------------------------------------------------------- decoding

  /** The number of '=' at the end of a text. */
  function Trailing(text: string): (n: nat)
    ensures n <= |text|
    ensures n < |text| ==> text[|text| - 1 - n] != '='
    ensures forall i :: |text| - n <= i < |text| ==> text[i] == '='
  {
    if text == [] || text[|text| - 1] != '=' then 0 else 1 + Trailing(text[..|text| - 1])
  }

  function DecodedLength(text: string): int {
    6 * |text| / 8 - Trailing(text)
  }

  /** What is in front of the first '='. */
  function Digits(text: string): (t: string)
    ensures |t| <= |text| && t == text[..|t|] && (|t| < |text| ==> text[|t|] == '=')
  {
    if text == [] || text[0] == '=' then [] else [text[0]] + Digits(text[1..])
  }

  function GroupOf(a: char, b: char, c: char, d: char): (s: seq<Byte>)
    ensures |s| == 3
  {
    ThreeOfFour(Lookup(a), Lookup(b), Lookup(c), Lookup(d))
  }

  /** The last group is filled up with NUL, which is not in the alphabet; of one digit
      nothing is kept. */
  function DecodeRest(text: string): (s: seq<Byte>)
    requires 0 < |text| < 4
    ensures |s| == |text| - 1
  {
    GroupOf(text[0], if |text| > 1 then text[1] else '\0', if |text| > 2 then text[2] else '\0', '\0')[..|text| - 1]
  }

  function DecodeDigits(text: string): seq<Byte> {
    if text == [] then []
    else if |text| < 4 then DecodeRest(text)
    else GroupOf(text[0], text[1], text[2], text[3]) + DecodeDigits(text[4..])
  }

  function Decode(text: string): seq<Byte> {
    DecodeDigits(Digits(text))
  }

  lemma {:induction false} DecodeDigitsLength(text: string)
    ensures |DecodeDigits(text)| == |text| / 4 * 3 + (if |text| % 4 == 0 then 0 else |text| % 4 - 1)
    decreases |text|
  {
    if |text| >= 4 {
      DecodeDigitsLength(text[4..]);
    }
  }

  lemma {:induction false} DecodeJoin(groups: string, rest: string)
    requires |groups| % 4 == 0
    ensures DecodeDigits(groups + rest) == DecodeDigits(groups) + DecodeDigits(rest)
    decreases |groups|
  {
    if groups == [] {
      assert groups + rest == rest;
    } else {
      assert (groups + rest)[4..] == groups[4..] + rest;
      DecodeJoin(groups[4..], rest);
    }
  }

  lemma {:induction false} DigitsAreNoPadding(text: string)
    ensures '=' !in Digits(text)
    decreases |text|
  {
    if text != [] && text[0] != '=' {
      DigitsAreNoPadding(text[1..]);
    }
  }

  /** The digits end before the padding at the end begins. */
  lemma DigitsBeforePadding(text: string)
    ensures |Digits(text)| + Trailing(text) <= |text|
  {
    DigitsAreNoPadding(text);
    var d, end := |Digits(text)|, |text| - Trailing(text);
    assert forall i :: 0 <= i < d ==> text[i] == Digits(text)[i];
    assert end < |text| ==> text[end] == '=';
  }

  /** For every text, the length computed in advance has room for the result if and only if
      there is no more padding at its end than completes the last group of four and, for every
      other character behind the digits, three more.  Without such characters it is never longer
      than the result.  AAAA= has no room, and neither has AAAA=A========. */
  lemma RoomExactly(text: string)
    ensures var d, p := |Digits(text)|, Trailing(text);
      var others := |text| - d - p;
      && others >= 0
      && (|Decode(text)| <= DecodedLength(text) <==> p <= (4 - d % 4) % 4 + 3 * others)
      && (others == 0 ==> DecodedLength(text) <= |Decode(text)|)
  {
    DigitsBeforePadding(text);
    hide DecodeDigits, Digits, Trailing;
    var d, p := |Digits(text)|, Trailing(text);
    DecodeDigitsLength(Digits(text));
    LengthLeft(d / 4, d % 4, |text| - d - p, p);
  }

  /** More padding than the last group needs. */
  lemma PaddingTakesRoom(digits: string, padding: string)
    requires |digits| % 4 == 0 && '=' !in digits
    requires padding != [] && forall i :: 0 <= i < |padding| ==> padding[i] == '='
    ensures |Decode(digits + padding)| > DecodedLength(digits + padding)
  {
    hide Digits, Trailing, Decode, DecodedLength;
    DigitsOnly(digits, padding);
    TrailingOnly(digits, padding);
    RoomExactly(digits + padding);
  }

  lemma {:induction false} DigitsOnly(digits: string, padding: string)
    requires '=' !in digits && padding != [] && padding[0] == '='
    ensures Digits(digits + padding) == digits
    decreases |digits|
  {
    if digits == [] {
      assert digits + padding == padding;
    } else {
      assert (digits + padding)[1..] == digits[1..] + padding;
      DigitsOnly(digits[1..], padding);
    }
  }

  lemma {:induction false} TrailingOnly(digits: string, padding: string)
    requires '=' !in digits && forall i :: 0 <= i < |padding| ==> padding[i] == '='
    ensures Trailing(digits + padding) == |padding|
    decreases |padding|
  {
    if padding == [] {
      assert digits + padding == digits;
    } else {
      assert (digits + padding)[..|digits + padding| - 1] == digits + padding[..|padding| - 1];
      TrailingOnly(digits, padding[..|padding| - 1]);
    }
  }

  lemma LengthLeft(q: nat, rest: nat, others: nat, padding: nat)
    requires rest < 4
    ensures var length := 6 * (4 * q + rest + others + padding) / 8 - padding;
      var decoded := 3 * q + (if rest == 0 then 0 else rest - 1);
      && (decoded <= length <==> padding <= (4 - rest) % 4 + 3 * others)
      && (others == 0 ==> length <= decoded)
  {
    assert 6 * (4 * q + rest + others + padding) / 8 == 3 * q + 3 * (rest + others + padding) / 4;
  }

  /** The result is written to the length computed in advance, which must have room for it. */
  method Base64Decode(text: string) returns (ok: bool, out: array<Byte>)
    requires Trailing(text) < |text| && |Decode(text)| <= DecodedLength(text)
    ensures ok <==> |Decode(text)| == DecodedLength(text)
    ensures out.Length == DecodedLength(text) && out[..|Decode(text)|] == Decode(text) && fresh(out)
  {
    hide DecodeDigits, GroupOf, Digits, DecodeRest, DecodedLength, Trailing;
    out := new Byte[DecodedLength(text)];
    var a4 := new char[4];
    var i, decLen := DecodeGroups(text, out, a4);
    DecodedFullAndRest(Digits(text), i);
    if i > 0 {
      decLen := DecodeTail(out, a4, decLen, i);
    }
    ok := decLen == out.Length;
  }

  lemma DecodedFullAndRest(digits: string, i: nat)
    requires i == |digits| % 4
    ensures DecodeDigits(digits)
      == DecodeDigits(digits[..|digits| - i]) + if i == 0 then [] else DecodeRest(digits[|digits| - i..])
    ensures |DecodeDigits(digits[..|digits| - i])| == |digits| / 4 * 3
  {
    var n := |digits|;
    assert digits == digits[..n - i] + digits[n - i..];
    DecodeJoin(digits[..n - i], digits[n - i..]);
    DecodeDigitsLength(digits[..n - i]);
  }

  /** So many digits are read: whole groups are decoded, and the rest is collected. */
  ghost predicate DigitsRead(digits: string, k: nat, collected: string, decoded: seq<Byte>) {
    && |collected| < 4 && |collected| <= k <= |digits| && (k - |collected|) % 4 == 0
    && collected == digits[k - |collected|..k] && decoded == DecodeDigits(digits[..k - |collected|])
  }

  method DecodeGroups(text: string, out: array<Byte>, a4: array<char>) returns (i: nat, decLen: nat)
    requires out.Length >= |Decode(text)| && a4.Length == 4
    modifies out, a4
    ensures i == |Digits(text)| % 4 && decLen == |Digits(text)| / 4 * 3 && decLen <= out.Length
    ensures a4[..i] == Digits(text)[|Digits(text)| - i..]
    ensures out[..decLen] == DecodeDigits(Digits(text)[..|Digits(text)| - i])
  {
    hide DecodeDigits, GroupOf, Digits, Decode;
    assert Decode(text) == DecodeDigits(Digits(text)) by {
      DecodeIs(text);
    }
    ghost var digits := Digits(text);
    DecodeDigitsLength(digits);
    i, decLen := 0, 0;
    NoDigits(digits);
    var k := 0;
    while k < |text| && text[k] != '='
      invariant k <= |digits| && i == k % 4 && decLen == k / 4 * 3 <= out.Length
      invariant DigitsRead(digits, k, a4[..i], out[..decLen])
      decreases |text| - k
    {
      FirstPadding(text, k);
      i, decLen := TakeDigit(out, a4, i, decLen, text[k], digits, k);
      k := k + 1;
    }
    if k < |text| {
      FirstPadding(text, k);
    }
  }

  lemma NextQuarter(n: nat, k: nat)
    requires k < n
    ensures k % 4 < 3 ==> (k + 1) / 4 == k / 4 && (k + 1) % 4 == k % 4 + 1
    ensures k % 4 == 3 ==> (k + 1) / 4 == k / 4 + 1 && (k + 1) % 4 == 0 && (k - 3) % 4 == 0 && k >= 3
    ensures (k + 1) / 4 * 3 <= n / 4 * 3
  {
  }

  /** One digit; the fourth of a group completes three bytes. */
  method TakeDigit(out: array<Byte>, a4: array<char>, i: nat, decLen: nat, digit: char, ghost digits: string,
                   ghost k: nat)
    returns (newI: nat, newLen: nat)
    requires k < |digits| && digits[k] == digit && |digits| / 4 * 3 <= out.Length && a4.Length == 4
    requires i == k % 4 && decLen == k / 4 * 3 <= out.Length && DigitsRead(digits, k, a4[..i], out[..decLen])
    modifies out, a4
    ensures newI == (k + 1) % 4 && newLen == (k + 1) / 4 * 3 <= out.Length
    ensures DigitsRead(digits, k + 1, a4[..newI], out[..newLen])
  {
    hide DecodeDigits, DigitsRead;
    NextQuarter(|digits|, k);
    DigitCollected(digits, k, a4[..i], out[..decLen]);
    a4[i] := digit;
    assert a4[..i + 1] == a4[..i] + [digit];
    newI, newLen := i + 1, decLen;
    if newI == 4 {
      TakeGroup(out, decLen, a4, digits, k - 3);
      newI, newLen := 0, decLen + 3;
      GroupCollected(digits, k + 1);
      assert a4[..0] == [];
    }
  }

  lemma DigitCollected(digits: string, k: nat, collected: string, decoded: seq<Byte>)
    requires DigitsRead(digits, k, collected, decoded) && k < |digits|
    ensures |collected| < 3 ==> DigitsRead(digits, k + 1, collected + [digits[k]], decoded)
    ensures |collected| == 3 ==> collected + [digits[k]] == digits[k - 3..k + 1]
    ensures |collected| == 3 ==> decoded == DecodeDigits(digits[..k - 3])
  {
    hide DecodeDigits;
    OneMore(digits, k - |collected|, k);
  }

  lemma GroupCollected(digits: string, k: nat)
    requires k % 4 == 0 && k <= |digits|
    ensures DigitsRead(digits, k, [], DecodeDigits(digits[..k]))
  {
    hide DecodeDigits;
  }

  method TakeGroup(out: array<Byte>, decLen: nat, a4: array<char>, ghost digits: string, ghost at: nat)
    requires decLen + 3 <= out.Length && a4.Length == 4
    requires at % 4 == 0 && at + 4 <= |digits| && a4[..4] == digits[at..at + 4]
    requires out[..decLen] == DecodeDigits(digits[..at])
    modifies out
    ensures out[..decLen + 3] == DecodeDigits(digits[..at + 4])
  {
    hide DecodeDigits, GroupOf;
    assert a4[..4][0] == a4[0] && a4[..4][1] == a4[1] && a4[..4][2] == a4[2] && a4[..4][3] == a4[3];
    OneGroupDecoded(digits, at);
    PutBytes(out, decLen, GroupOf(a4[0], a4[1], a4[2], a4[3]));
  }

  lemma DecodeIs(text: string)
    ensures Decode(text) == DecodeDigits(Digits(text))
  {
  }

  lemma NoDigits(digits: string)
    ensures DecodeDigits(digits[..0]) == []
  {
  }

  lemma {:induction false} FirstPadding(text: string, k: nat)
    requires k < |text| && k <= |Digits(text)|
    ensures if text[k] == '=' then k == |Digits(text)| else k < |Digits(text)|
    decreases |text|
  {
    if k > 0 {
      FirstPadding(text[1..], k - 1);
    }
  }

  lemma OneGroupDecoded(digits: string, at: nat)
    requires at % 4 == 0 && at + 4 <= |digits|
    ensures DecodeDigits(digits[..at + 4])
      == DecodeDigits(digits[..at]) + GroupOf(digits[at], digits[at + 1], digits[at + 2], digits[at + 3])
  {
    var group := digits[at..at + 4];
    assert digits[..at + 4] == digits[..at] + group;
    DecodeJoin(digits[..at], group);
    assert DecodeDigits(group) == GroupOf(group[0], group[1], group[2], group[3]) + DecodeDigits(group[4..]);
  }

  method DecodeTail(out: array<Byte>, a4: array<char>, at: nat, digits: nat) returns (decLen: nat)
    requires 0 < digits < 4 && a4.Length == 4 && at + digits - 1 <= out.Length
    modifies out, a4
    ensures decLen == at + digits - 1
    ensures out[..decLen] == old(out[..at]) + DecodeRest(old(a4[..digits]))
  {
    ghost var rest := a4[..digits];
    for j := digits to 4
      invariant a4[..digits] == rest && forall x :: digits <= x < j ==> a4[x] == '\0'
      invariant out[..at] == old(out[..at])
    {
      a4[j] := '\0';
    }
    assert a4[0] == rest[0] && (digits > 1 ==> a4[1] == rest[1]) && (digits > 2 ==> a4[2] == rest[2]);
    hide GroupOf;
    assert DecodeRest(rest) == GroupOf(a4[0], a4[1], a4[2], a4[3])[..digits - 1];
    PutBytes(out, at, GroupOf(a4[0], a4[1], a4[2], a4[3])[..digits - 1]);
    decLen := at + digits - 1;
  }

  method PutBytes(out: array<Byte>, at: nat, bytes: seq<Byte>)
    requires at + |bytes| <= out.Length
    modifies out
    ensures out[..at + |bytes|] == old(out[..at]) + bytes
  {
    for j := 0 to |bytes|
      invariant out[..at + j] == old(out[..at]) + bytes[..j]
    {
      out[at + j] := bytes[j];
      assert out[..at + j + 1] == out[..at + j] + [bytes[j]];
      assert bytes[..j + 1] == bytes[..j] + [bytes[j]];
    }
  }

  // ---------------------------------------------------------------- round trip

  lemma GroupRoundTrip(a: Byte, b: Byte, c: Byte)
    ensures var t := DigitsOf(FourOfThree(a, b, c)); GroupOf(t[0], t[1], t[2], t[3]) == [a, b, c]
  {
    hide Lookup, Alphabet, GroupOf, ThreeOfFour;
    var s := FourOfThree(a, b, c);
    GroupOfDigits(s[0], s[1], Alphabet(s[2]), Alphabet(s[3]));
    ThreeBytesBack(a, b, c);
  }

  lemma ThreeBytesBack(a: Byte, b: Byte, c: Byte)
    ensures ThreeOfFour(a / 4, a % 4 * 16 + b / 16, b % 16 * 4 + c / 64, c % 64) == [a, b, c]
  {
    FirstOfGroup(a, b / 16);
    SecondOfGroup(a, b, c / 64);
    ThirdOfGroup(b, c);
  }

  lemma FirstOfGroup(a: Byte, high: nat)
    requires high < 16
    ensures a / 4 * 4 + (a % 4 * 16 + high) / 16 % 4 == a
  {
  }

  lemma SecondOfGroup(a: Byte, b: Byte, high: nat)
    requires high < 4
    ensures (a % 4 * 16 + b / 16) % 16 * 16 + (b % 16 * 4 + high) / 4 % 16 == b
  {
  }

  lemma ThirdOfGroup(b: Byte, c: Byte)
    ensures (b % 16 * 4 + c / 64) % 4 * 64 + c % 64 == c
  {
  }

  /** What is filled up does not reach the bytes that are kept. */
  lemma RestRoundTrip(data: seq<Byte>)
    requires 0 < |data| < 3
    ensures DecodeRest(EncodeRest(data)) == data
  {
    hide Lookup, Alphabet, GroupOf, ThreeOfFour;
    var s := FourOfThree(data[0], if |data| > 1 then data[1] else 0, 0);
    var t := EncodeRest(data);
    assert |t| == |data| + 1 && forall i :: 0 <= i < |t| ==> t[i] == Alphabet(s[i]);
    if |data| == 1 {
      OneByteBack(data[0], Lookup('\0'), Lookup('\0'));
      assert DecodeRest(t) == GroupOf(Alphabet(s[0]), Alphabet(s[1]), '\0', '\0')[..1];
      GroupOfDigits(s[0], s[1], '\0', '\0');
    } else {
      TwoBytesBack(data[0], data[1], Lookup('\0'));
      assert DecodeRest(t) == GroupOf(Alphabet(s[0]), Alphabet(s[1]), Alphabet(s[2]), '\0')[..2];
      GroupOfDigits(s[0], s[1], Alphabet(s[2]), '\0');
    }
  }

  lemma GroupOfDigits(a: Sextet, b: Sextet, c: char, d: char)
    ensures GroupOf(Alphabet(a), Alphabet(b), c, d) == ThreeOfFour(a, b, Lookup(c), Lookup(d))
  {
  }

  lemma OneByteBack(a: Byte, c: Byte, d: Byte)
    ensures ThreeOfFour(a / 4, a % 4 * 16, c, d)[..1] == [a]
  {
  }

  lemma TwoBytesBack(a: Byte, b: Byte, d: Byte)
    ensures ThreeOfFour(a / 4, a % 4 * 16 + b / 16, b % 16 * 4, d)[..2] == [a, b]
  {
    FirstOfGroup(a, b / 16);
    SecondOfGroup(a, b, 0);
  }

  lemma {:induction false} DigitsRoundTrip(data: seq<Byte>)
    ensures DecodeDigits(Unpadded(data)) == data
    ensures '=' !in Unpadded(data)
    decreases |data|
  {
    if |data| >= 3 {
      var t := DigitsOf(FourOfThree(data[0], data[1], data[2]));
      GroupRoundTrip(data[0], data[1], data[2]);
      DigitsRoundTrip(data[3..]);
      assert (t + Unpadded(data[3..]))[4..] == Unpadded(data[3..]);
    } else if data != [] {
      RestRoundTrip(data);
    }
  }

  lemma {:induction false} DigitsInFront(t: string, padding: string)
    requires '=' !in t && (padding == [] || padding[0] == '=')
    ensures Digits(t + padding) == t
    decreases |t|
  {
    if t == [] {
      assert t + padding == padding;
    } else {
      assert (t + padding)[1..] == t[1..] + padding;
      DigitsInFront(t[1..], padding);
    }
  }

  lemma TrailingPadding(t: string, n: nat)
    requires t != [] && '=' !in t
    ensures Trailing(t + Padding(n)) == |Padding(n)|
  {
    var text := t + Padding(n);
    assert |Padding(n)| > 0 ==> text[..|text| - 1] == t + Padding(n)[..|Padding(n)| - 1];
    assert |Padding(n)| > 1 ==> text[..|text| - 1][..|text| - 2] == t;
    assert t[|t| - 1] in t;
  }

  /** Decoding gives back every byte string, and says so exactly because the two lengths that
      are computed in advance are right. */
  lemma RoundTrip(data: seq<Byte>)
    requires data != []
    ensures Decode(Encode(data)) == data
    ensures DecodedLength(Encode(data)) == |data| && Trailing(Encode(data)) < |Encode(data)|
  {
    DigitsRoundTrip(data);
    UnpaddedLength(data);
    DigitsInFront(Unpadded(data), Padding(|data|));
    TrailingPadding(Unpadded(data), |data|);
    EncodedLengthAgrees(data);
  }

  /** The two methods, one after the other. */
  method EncodeAndDecode(data: seq<Byte>) returns (ok: bool, back: array<Byte>)
    requires data != []
    ensures ok && back[..] == data
  {
    RoundTrip(data);
    var encoded, text := Base64Encode(data);
    ok, back := Base64Decode(text[..]);
    assert back[..|data|] == back[..];
  }

  // ---------------------------------------------------------------- the standard

  /** The digits are those of RFC 4648, table 1. */
  lemma AlphabetOfStandard(v: Sextet)
    ensures v < 26 ==> Alphabet(v) == "ABCDEFGHIJKLMNOPQRSTUVWXYZ"[v]
    ensures 26 <= v < 52 ==> Alphabet(v) == "abcdefghijklmnopqrstuvwxyz"[v - 26]
    ensures 52 <= v < 62 ==> Alphabet(v) == "0123456789"[v - 52]
    ensures v >= 62 ==> Alphabet(v) == "+/"[v - 62]
  {
  }

  /** Three bytes and their four digits are the same number of 24 bits. */
  lemma GroupIsNumber(a: Byte, b: Byte, c: Byte)
    ensures var s: seq<int> := FourOfThree(a, b, c);
      0x40000 * s[0] + 0x1000 * s[1] + 0x40 * s[2] + s[3] == 0x10000 * (a as int) + 0x100 * (b as int) + c
  {
  }

  /** The test vectors of RFC 4648 section 10: the bytes of "f", "fo", "foo" and "foobar". */
  lemma VectorsOfStandard()
    ensures Encode([102]) == "Zg==" && Encode([102, 111]) == "Zm8=" && Encode([102, 111, 111]) == "Zm9v"
    ensures Encode([102, 111, 111, 98, 97, 114]) == "Zm9vYmFy"
  {
    hide Encode;
    VectorsOfRests();
    VectorsOfGroups();
  }

  lemma VectorsOfRests()
    ensures Encode([102]) == "Zg==" && Encode([102, 111]) == "Zm8="
  {
    hide Alphabet, DigitsOf;
    DigitsOfVectors();
    assert FourOfThree(102, 0, 0)[..2] == [25, 32] && FourOfThree(102, 111, 0)[..3] == [25, 38, 60];
    assert EncodeRest([102]) == "Zg" && EncodeRest([102, 111]) == "Zm8";
  }

  lemma VectorsOfGroups()
    ensures Encode([102, 111, 111]) == "Zm9v" && Encode([102, 111, 111, 98, 97, 114]) == "Zm9vYmFy"
  {
    hide Alphabet, DigitsOf, Unpadded;
    DigitsOfVectors();
    OneGroup(102, 111, 111);
    OneGroup(98, 97, 114);
    UnpaddedJoin([102, 111, 111], [98, 97, 114]);
    assert [102, 111, 111] + [98, 97, 114] == [102, 111, 111, 98, 97, 114];
  }

  lemma OneGroup(a: Byte, b: Byte, c: Byte)
    ensures Unpadded([a, b, c]) == DigitsOf(FourOfThree(a, b, c))
  {
    assert [a, b, c][3..] == [];
  }

  lemma AlphabetOfVectors()
    ensures Alphabet(25) == 'Z' && Alphabet(32) == 'g' && Alphabet(38) == 'm' && Alphabet(60) == '8'
    ensures Alphabet(61) == '9' && Alphabet(47) == 'v' && Alphabet(24) == 'Y' && Alphabet(5) == 'F'
    ensures Alphabet(50) == 'y'
  {
  }

  lemma DigitsOfVectors()
    ensures DigitsOf([25, 32]) == "Zg" && DigitsOf([25, 38, 60]) == "Zm8"
    ensures DigitsOf([25, 38, 61, 47]) == "Zm9v" && DigitsOf([24, 38, 5, 50]) == "YmFy"
  {
    AlphabetOfVectors();
    hide Alphabet;
  }
}
