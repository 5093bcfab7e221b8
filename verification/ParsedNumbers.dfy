/** The numbers that the parsers read, for every text that C reads as a number: lengths by atoi
    (WebRequest.cpp:329-330, and String::toInt), and sizes of chunks by strtol
    (HTTPClient.cpp:877). */
module ParsedNumbers {
  import opened ArduinoString
  import opened RequestHead
  import ResponseSender
  import ChunkedTransfer

  datatype Sign = NoSign | Plus | Minus

  function SignText(sign: Sign): string {
    match sign
    case NoSign => ""
    case Plus => "+"
    case Minus => "-"
  }

  /** What fits 32 bits; what does not becomes the nearest number that does. */
  function Clamped(sign: Sign, n: nat): int {
    if sign.Minus? then (if n > 0x8000_0000 then -0x8000_0000 else 0 - n)
    else if n > 0x7fff_ffff then 0x7fff_ffff else n
  }

  predicate Blank(blanks: string) {
    forall i :: 0 <= i < |blanks| ==> IsSpace(blanks[i])
  }

  lemma {:induction false} BlanksInFront(blanks: string, text: string)
    requires Blank(blanks) && (text == [] || !IsSpace(text[0]))
    ensures TrimLeft(blanks + text) == text
    decreases |blanks|
  {
    if blanks == [] {
      assert blanks + text == text;
    } else {
      assert (blanks + text)[1..] == blanks[1..] + text;
      BlanksInFront(blanks[1..], text);
    }
  }

  lemma SignInFront(sign: Sign, digits: string)
    requires digits != [] && digits[0] != '-' && digits[0] != '+' && !IsSpace(digits[0])
    ensures var t := SignText(sign) + digits;
      && t != [] && !IsSpace(t[0]) && (t[0] == '-' <==> sign.Minus?)
      && (if t[0] == '-' || t[0] == '+' then t[1..] else t) == digits
  {
    assert sign.NoSign? ==> SignText(sign) + digits == digits;
  }

  // ---------------------------------------------------------------- decimal numbers

  predicate StartsNoDigit(rest: string) {
    rest == [] || !('0' <= rest[0] <= '9')
  }

  lemma {:induction false} DigitsStop(s: string, rest: string, value: nat)
    requires (forall i :: 0 <= i < |s| ==> '0' <= s[i] <= '9') && StartsNoDigit(rest)
    ensures Digits(s + rest, value) == Digits(s, value)
    decreases |s|
  {
    if s == [] {
      assert s + rest == rest;
    } else {
      assert (s + rest)[1..] == s[1..] + rest;
      DigitsStop(s[1..], rest, 10 * value + (s[0] as int - '0' as int));
    }
  }

  /** Blanks, a sign, digits, and whatever follows them. */
  lemma AtoiExactly(blanks: string, sign: Sign, n: nat, rest: string)
    requires Blank(blanks) && StartsNoDigit(rest)
    ensures Atoi(blanks + (SignText(sign) + (Decimal(n) + rest))) == Clamped(sign, n)
  {
    hide Decimal, Digits;
    var digits := Decimal(n) + rest;
    assert digits[0] == Decimal(n)[0];
    SignInFront(sign, digits);
    BlanksInFront(blanks, SignText(sign) + digits);
    DigitsStop(Decimal(n), rest, 0);
    DecimalBack(n);
  }

  lemma NoNumber(text: string)
    requires StartsNoDigit(text) && (text != [] ==> !IsSpace(text[0]) && text[0] != '+' && text[0] != '-')
    ensures Atoi(text) == 0
  {
  }

  /** A printed length is the length that the server takes it for, if and only if it fits an
      int; a negative one is taken for 4 GiB less that much. */
  lemma LengthExactly(sign: Sign, n: nat)
    ensures !sign.Minus? ==> (Unsigned(Atoi(SignText(sign) + Decimal(n))) == n <==> n <= 0x7fff_ffff)
    ensures sign.Minus? && 0 < n <= 0x8000_0000 ==> Unsigned(Atoi(SignText(sign) + Decimal(n))) == 0x1_0000_0000 - n
  {
    hide Atoi, Decimal;
    AtoiExactly([], sign, n, []);
    assert Decimal(n) + [] == Decimal(n);
    assert [] + (SignText(sign) + Decimal(n)) == SignText(sign) + Decimal(n);
  }

  // ---------------------------------------------------------------- hexadecimal numbers

  predicate StartsNoHexDigit(rest: string) {
    rest == [] || rest[0] !in "0123456789abcdefABCDEF"
  }

  lemma HexDigitsExactly(c: char)
    ensures HexValue(c) >= 0 <==> c in "0123456789abcdefABCDEF"
  {
    var all := "0123456789abcdefABCDEF";
    assert '0' <= c <= '9' ==> all[c as int - '0' as int] == c;
    assert 'a' <= c <= 'f' ==> all[c as int - 'a' as int + 10] == c;
    assert 'A' <= c <= 'F' ==> all[c as int - 'A' as int + 16] == c;
  }

  lemma {:induction false} HexStops(s: string, rest: string, value: nat)
    requires (forall i :: 0 <= i < |s| ==> HexValue(s[i]) >= 0) && (rest == [] || HexValue(rest[0]) < 0)
    ensures HexNumber(s + rest, value) == HexNumber(s, value)
    decreases |s|
  {
    if s == [] {
      assert s + rest == rest;
    } else {
      assert (s + rest)[1..] == s[1..] + rest;
      HexStops(s[1..], rest, 16 * value + HexValue(s[0]));
    }
  }

  /** Blanks, a sign, "0x" or not, hex digits, and whatever follows them. */
  lemma StrtolExactly(blanks: string, sign: Sign, prefixed: bool, n: nat, rest: string)
    requires Blank(blanks) && StartsNoHexDigit(rest) && (rest == [] || rest[0] !in "xX")
    ensures StrtolHex(blanks + (SignText(sign) + ((if prefixed then "0x" else "") + (ResponseSender.Hex(n) + rest))))
      == Clamped(sign, n)
  {
    hide ResponseSender.Hex, HexNumber, TrimLeft, Blank, SignText;
    var hex := ResponseSender.Hex(n);
    var digits := (if prefixed then "0x" else "") + (hex + rest);
    HexInFront(n, rest);
    SignInFront(sign, digits);
    BlanksInFront(blanks, SignText(sign) + digits);
    PrefixTaken(prefixed, hex + rest);
  }

  lemma HexInFront(n: nat, rest: string)
    requires StartsNoHexDigit(rest) && (rest == [] || rest[0] !in "xX")
    ensures var digits := ResponseSender.Hex(n) + rest;
      && digits != [] && HexNumber(digits, 0) == n
      && digits[0] != '-' && digits[0] != '+' && !IsSpace(digits[0])
      && (|digits| > 1 ==> digits[1] != 'x' && digits[1] != 'X')
  {
    hide ResponseSender.Hex, HexNumber;
    var hex := ResponseSender.Hex(n);
    ChunkedTransfer.NoSpaceInHex(n);
    ChunkedTransfer.HexReadBack(n);
    assert "xX"[0] == 'x' && "xX"[1] == 'X';
    if rest != [] {
      HexDigitsExactly(rest[0]);
    }
    HexStops(hex, rest, 0);
    assert (hex + rest)[0] == hex[0];
  }

  lemma PrefixTaken(prefixed: bool, digits: string)
    requires digits != [] && (|digits| > 1 ==> digits[1] != 'x' && digits[1] != 'X')
    ensures var t := (if prefixed then "0x" else "") + digits;
      (if 2 <= |t| && t[0] == '0' && (t[1] == 'x' || t[1] == 'X') then t[2..] else t) == digits
  {
    var t := (if prefixed then "0x" else "") + digits;
    assert if prefixed then t[2..] == digits else t == digits;
  }
}
