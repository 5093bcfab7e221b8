/** The few operations of the Arduino String class that the request parser uses, on
    sequences of characters.  Positions that the code computes as int and passes as
    unsigned int keep that meaning: -1 becomes the largest position. */
module ArduinoString {

  function Unsigned(i: int): nat
    requires -0x1_0000_0000 <= i
  {
    if i < 0 then i + 0x1_0000_0000 else i
  }

  /** indexOf(c, from), -1 if there is none. */
  function IndexOf(s: string, c: char, from: nat := 0): (k: int)
    ensures -1 <= k < |s|
    ensures k >= 0 ==> from <= k && s[k] == c && forall i :: from <= i < k ==> s[i] != c
    ensures k < 0 ==> forall i :: from <= i < |s| ==> s[i] != c
    decreases if from < |s| then |s| - from else 0
  {
    if from >= |s| then -1
    else if s[from] == c then from
    else IndexOf(s, c, from + 1)
  }

  /** substring(left, right): swapped bounds are exchanged, and both are cut to the length. */
  function Substring(s: string, left: nat, right: nat): string {
    var lo, hi := if left > right then right else left, if left > right then left else right;
    if lo >= |s| then []
    else s[lo..if hi > |s| then |s| else hi]
  }

  function From(s: string, left: nat): string {
    Substring(s, left, |s|)
  }

  predicate IsSpace(c: char) {
    c == ' ' || 9 as char <= c <= 13 as char
  }

  function TrimLeft(s: string): string {
    if s != [] && IsSpace(s[0]) then TrimLeft(s[1..]) else s
  }

  function TrimRight(s: string): string {
    if s != [] && IsSpace(s[|s| - 1]) then TrimRight(s[..|s| - 1]) else s
  }

  function Trim(s: string): string {
    TrimRight(TrimLeft(s))
  }

  predicate StartsWith(s: string, prefix: string) {
    prefix <= s
  }

  function Lower(c: char): char {
    if 'A' <= c <= 'Z' then (c as int + 32) as char else c
  }

  predicate EqualsIgnoreCase(s: string, t: string) {
    |s| == |t| && forall i :: 0 <= i < |s| ==> Lower(s[i]) == Lower(t[i])
  }

  predicate ContainsIgnoreCase(s: string, t: string) {
    |t| <= |s| && (EqualsIgnoreCase(s[..|t|], t) || (s != [] && ContainsIgnoreCase(s[1..], t)))
  }

  /** replace(c, ""). */
  function Without(s: string, c: char): string {
    if s == [] then []
    else if s[0] == c then Without(s[1..], c)
    else [s[0]] + Without(s[1..], c)
  }

  /** The C string at the start of a block of characters. */
  function CString(s: string): (r: string)
    ensures r <= s
    ensures '\0' !in s ==> r == s
  {
    if s == [] || s[0] == '\0' then [] else [s[0]] + CString(s[1..])
  }

  function Digits(s: string, value: nat): nat {
    if s == [] || !('0' <= s[0] <= '9') then value
    else Digits(s[1..], 10 * value + (s[0] as int - '0' as int))
  }

  /** atoi on a 32-bit int; strtol clamps what does not fit. */
  function Atoi(s: string): (v: int)
    ensures -0x8000_0000 <= v <= 0x7fff_ffff
  {
    var t := TrimLeft(s);
    var negative := t != [] && t[0] == '-';
    var magnitude: int := Digits(if t != [] && (t[0] == '-' || t[0] == '+') then t[1..] else t, 0);
    if negative then (if magnitude > 0x8000_0000 then -0x8000_0000 else -magnitude)
    else if magnitude > 0x7fff_ffff then 0x7fff_ffff else magnitude
  }

  /** The value of a hex digit, -1 for any other character. */
  function HexValue(c: char): (v: int)
    ensures -1 <= v < 16
  {
    if '0' <= c <= '9' then c as int - '0' as int
    else if 'a' <= c <= 'f' then c as int - 'a' as int + 10
    else if 'A' <= c <= 'F' then c as int - 'A' as int + 10
    else -1
  }

  function HexNumber(s: string, value: nat): (v: nat)
    ensures v >= value
  {
    if s == [] || HexValue(s[0]) < 0 then value else HexNumber(s[1..], 16 * value + HexValue(s[0]))
  }

  /** strtol(s, NULL, 16) on a 32-bit long. */
  function StrtolHex(s: string): (v: int)
    ensures -0x8000_0000 <= v <= 0x7fff_ffff
  {
    var t := TrimLeft(s);
    var negative := t != [] && t[0] == '-';
    var t := if t != [] && (t[0] == '-' || t[0] == '+') then t[1..] else t;
    var magnitude: int := HexNumber(if 2 <= |t| && t[0] == '0' && (t[1] == 'x' || t[1] == 'X') then t[2..] else t, 0);
    if negative then (if magnitude > 0x8000_0000 then -0x8000_0000 else -magnitude)
    else if magnitude > 0x7fff_ffff then 0x7fff_ffff else magnitude
  }

  // ---------------------------------------------------------------- in plain terms

  /** The characters that trim() takes away. */
  lemma SpacesExactly(c: char)
    ensures IsSpace(c) <==> c == ' ' || c == '\t' || c == '\n' || c as int == 11 || c as int == 12 || c == '\r'
  {
  }

  /** A substring between two positions, whichever is first, as far as there is text. */
  lemma SubstringExactly(before: string, middle: string, behind: string, more: nat)
    ensures var s, i, j := before + middle + behind, |before|, |before + middle|;
      && Substring(s, i, j) == middle && Substring(s, j, i) == middle
      && Substring(s, i, |s| + more) == middle + behind && Substring(s, |s|, |s| + more) == []
  {
    var s := before + middle + behind;
    assert s[|before|..|before + middle|] == middle && s[|before|..|s|] == middle + behind;
  }
}
