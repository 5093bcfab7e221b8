/** Frames of the WebSocket protocol (RFC 6455 section 5.2): how a frame is printed, and how
    AsyncWebSocketClient reads its head (AsyncWebSocket.cpp:610-640). */
module WebSocketFrame {

  type Byte = b: int | 0 <= b < 256

  type Key = k: seq<Byte> | |k| == 4 witness [0, 0, 0, 0]

  // ---------------------------------------------------------------- masking

  function Power2(bits: nat): (p: nat)
    ensures p > 0
  {
    if bits == 0 then 1 else 2 * Power2(bits - 1)
  }

  /** Exclusive or of numbers of so many bits, from the lowest bit up. */
  function XorBits(a: nat, b: nat, bits: nat): (r: nat)
    requires a < Power2(bits) && b < Power2(bits)
    ensures r < Power2(bits)
  {
    if bits == 0 then 0
    else 2 * XorBits(a / 2, b / 2, bits - 1) + if a % 2 == b % 2 then 0 else 1
  }

  lemma {:induction false} XorBitsTwice(a: nat, b: nat, bits: nat)
    requires a < Power2(bits) && b < Power2(bits)
    ensures XorBits(XorBits(a, b, bits), b, bits) == a
    decreases bits
  {
    if bits > 0 {
      XorBitsTwice(a / 2, b / 2, bits - 1);
    }
  }

  function Xor(a: Byte, b: Byte): Byte {
    XorBits(a, b, 8)
  }

  lemma XorTwice(a: Byte, b: Byte)
    ensures Xor(Xor(a, b), b) == a
  {
    XorBitsTwice(a, b, 8);
  }

  /** The binary digit of so much weight, counted from the lowest. */
  predicate Bit(n: nat, k: nat)
    decreases k
  {
    if k == 0 then n % 2 == 1 else Bit(n / 2, k - 1)
  }

  lemma XorHalves(a: nat, b: nat, bits: nat)
    requires 0 < bits && a < Power2(bits) && b < Power2(bits)
    ensures a / 2 < Power2(bits - 1) && b / 2 < Power2(bits - 1)
    ensures XorBits(a, b, bits) / 2 == XorBits(a / 2, b / 2, bits - 1)
    ensures XorBits(a, b, bits) % 2 == 1 <==> a % 2 != b % 2
  {
  }

  /** Bit by bit: what differs is set. */
  lemma {:induction false} XorByBit(a: nat, b: nat, bits: nat, k: nat)
    requires a < Power2(bits) && b < Power2(bits) && k < bits
    ensures Bit(XorBits(a, b, bits), k) <==> Bit(a, k) != Bit(b, k)
    decreases bits
  {
    hide XorBits, Power2;
    XorHalves(a, b, bits);
    if k > 0 {
      XorByBit(a / 2, b / 2, bits - 1, k - 1);
    }
  }

  /** Numbers with the same bits are the same. */
  lemma {:induction false} BitsDecide(a: nat, b: nat, bits: nat)
    requires a < Power2(bits) && b < Power2(bits)
    requires forall k :: 0 <= k < bits ==> Bit(a, k) == Bit(b, k)
    ensures a == b
    decreases bits
  {
    if bits > 0 {
      assert Bit(a, 0) == Bit(b, 0);
      forall k | 0 <= k < bits - 1
        ensures Bit(a / 2, k) == Bit(b / 2, k)
      {
        assert Bit(a, k + 1) == Bit(b, k + 1);
      }
      BitsDecide(a / 2, b / 2, bits - 1);
    }
  }

  ghost predicate SetWhereTheyDiffer(r: Byte, a: Byte, b: Byte) {
    forall k :: 0 <= k < 8 ==> (Bit(r, k) <==> Bit(a, k) != Bit(b, k))
  }

  /** Of all bytes, the masked one is the one whose bits are set where those of the two differ. */
  lemma XorIsExclusiveOr(r: Byte, a: Byte, b: Byte)
    ensures r == Xor(a, b) <==> SetWhereTheyDiffer(r, a, b)
  {
    hide Bit, XorBits;
    var x := Xor(a, b);
    forall k | 0 <= k < 8
      ensures Bit(x, k) <==> Bit(a, k) != Bit(b, k)
    {
      XorByBit(a, b, 8, k);
    }
    if SetWhereTheyDiffer(r, a, b) {
      BitsDecide(r, x, 8);
    }
  }

  /** Byte i of a payload is masked with byte i modulo 4 of the key; phase is the position
      of the first byte of data in the payload. */
  function Mask(data: seq<Byte>, key: Key, phase: nat): (masked: seq<Byte>)
    ensures |masked| == |data|
    ensures forall i :: 0 <= i < |data| ==> masked[i] == Xor(data[i], key[(phase + i) % 4])
  {
    seq(|data|, i requires 0 <= i < |data| => Xor(data[i], key[(phase + i) % 4]))
  }

  /** Masking apart from how it is computed. */
  lemma MaskIsExclusiveOr(data: seq<Byte>, key: Key, phase: nat, masked: seq<Byte>)
    ensures masked == Mask(data, key, phase)
      <==> |masked| == |data|
           && forall i :: 0 <= i < |data| ==> SetWhereTheyDiffer(masked[i], data[i], key[(phase + i) % 4])
  {
    hide Xor, SetWhereTheyDiffer;
    if |masked| == |data| {
      forall i | 0 <= i < |data|
        ensures masked[i] == Mask(data, key, phase)[i]
                <==> SetWhereTheyDiffer(masked[i], data[i], key[(phase + i) % 4])
      {
        XorIsExclusiveOr(masked[i], data[i], key[(phase + i) % 4]);
      }
    }
  }

  method MaskInPlace(data: array<Byte>, from: nat, len: nat, key: Key, phase: nat)
    requires from + len <= data.Length
    modifies data
    ensures data[from..from + len] == Mask(old(data[from..from + len]), key, phase)
    ensures data[from + len..] == old(data[from + len..])
    ensures data[..] == old(data[..from]) + Mask(old(data[from..from + len]), key, phase) + old(data[from + len..])
  {
    for i := from to from + len
      invariant forall k :: from <= k < i ==> data[k] == Xor(old(data[k]), key[(phase + (k - from)) % 4])
      invariant forall k :: 0 <= k < data.Length && !(from <= k < i) ==> data[k] == old(data[k])
    {
      data[i] := Xor(data[i], key[(phase + (i - from)) % 4]);
    }
  }

  lemma MaskTwice(data: seq<Byte>, key: Key, phase: nat)
    ensures Mask(Mask(data, key, phase), key, phase) == data
  {
    forall i | 0 <= i < |data|
      ensures Mask(Mask(data, key, phase), key, phase)[i] == data[i]
    {
      XorTwice(data[i], key[(phase + i) % 4]);
    }
  }

  // ---------------------------------------------------------------- frames

  /** The three ways of writing the length of a payload: 7, 16 or 64 bits. */
  datatype LengthForm = Bits7 | Bits16 | Bits64

  datatype Frame = Frame(final: bool, opcode: nat, form: LengthForm, masked: bool, key: Key, payload: seq<Byte>)

  predicate ValidFrame(f: Frame) {
    && f.opcode < 16
    && (f.form.Bits7? ==> |f.payload| < 126)
    && (f.form.Bits16? ==> |f.payload| < 0x1_0000)
    && |f.payload| < 0x1_0000_0000_0000_0000
  }

  function BigEndian(n: nat, bytes: nat): (s: seq<Byte>)
    ensures |s| == bytes
    decreases bytes
  {
    if bytes == 0 then [] else BigEndian(n / 256, bytes - 1) + [n % 256]
  }

  function FromBigEndian(s: seq<Byte>): nat {
    if s == [] then 0 else 256 * FromBigEndian(s[..|s| - 1]) + s[|s| - 1]
  }

  function Power256(bytes: nat): nat {
    if bytes == 0 then 1 else 256 * Power256(bytes - 1)
  }

  lemma {:induction false} BigEndianRoundTrip(n: nat, bytes: nat)
    requires n < Power256(bytes)
    ensures FromBigEndian(BigEndian(n, bytes)) == n
    decreases bytes
  {
    if bytes > 0 {
      BigEndianRoundTrip(n / 256, bytes - 1);
      assert BigEndian(n, bytes)[..bytes - 1] == BigEndian(n / 256, bytes - 1);
    }
  }

  function PrintHead(f: Frame): seq<Byte>
    requires ValidFrame(f)
  {
    var maskBit := if f.masked then 128 else 0;
    [(if f.final then 128 else 0) + f.opcode]
    + (match f.form
       case Bits7 => [maskBit + |f.payload|]
       case Bits16 => [maskBit + 126] + BigEndian(|f.payload|, 2)
       case Bits64 => [maskBit + 127] + BigEndian(|f.payload|, 8))
    + if f.masked then f.key else []
  }

  function PrintPayload(f: Frame): (s: seq<Byte>)
    ensures |s| == |f.payload|
  {
    if f.masked then Mask(f.payload, f.key, 0) else f.payload
  }

  function PrintFrame(f: Frame): seq<Byte>
    requires ValidFrame(f)
  {
    PrintHead(f) + PrintPayload(f)
  }

  function PrintFrames(frames: seq<Frame>): seq<Byte>
    requires forall f :: f in frames ==> ValidFrame(f)
  {
    if frames == [] then [] else PrintFrame(frames[0]) + PrintFrames(frames[1..])
  }

  lemma {:induction false} PrintAnother(frames: seq<Frame>, f: Frame)
    requires (forall x :: x in frames ==> ValidFrame(x)) && ValidFrame(f)
    ensures PrintFrames(frames + [f]) == PrintFrames(frames) + PrintFrame(f)
    decreases |frames|
  {
    hide PrintFrame;
    if frames == [] {
      assert [f][1..] == [];
    } else {
      PrintAnother(frames[1..], f);
      assert (frames + [f])[1..] == frames[1..] + [f];
    }
  }

  // ---------------------------------------------------------------- reading a head

  /** AwsFrameInfo, without message_opcode and num. */
  datatype FrameInfo = FrameInfo(final: bool, opcode: nat, masked: bool, len: nat, key: Key, index: nat)

  /** The number of bytes that the second byte of a head announces. */
  function LengthBytes(b: Byte): nat {
    if b % 128 == 126 then 2 else if b % 128 == 127 then 8 else 0
  }

  function HeadSize(second: Byte): (n: nat)
    ensures 2 <= n <= 14
  {
    2 + LengthBytes(second) + if second >= 128 then 4 else 0
  }

  /** The whole head is there: the reader looks at no more bytes than these. */
  predicate HeadThere(data: seq<Byte>) {
    2 <= |data| && HeadSize(data[1]) <= |data|
  }

  /** The key of a frame that is not masked keeps its old value. */
  function ParseHead(data: seq<Byte>, oldKey: Key): FrameInfo
    requires HeadThere(data)
  {
    var n := LengthBytes(data[1]);
    FrameInfo(data[0] >= 128, data[0] % 16, data[1] >= 128,
              if n == 0 then data[1] % 128 else FromBigEndian(data[2..2 + n]),
              if data[1] >= 128 then data[2 + n..6 + n] else oldKey, 0)
  }

  lemma Powers()
    ensures Power256(2) == 0x1_0000
    ensures Power256(8) == 0x1_0000_0000_0000_0000
  {
  }

  /** Where the parts of a printed head are. */
  lemma HeadParts(f: Frame, rest: seq<Byte>)
    requires ValidFrame(f)
    ensures var data, n := PrintHead(f) + rest, if f.form.Bits7? then 0 else if f.form.Bits16? then 2 else 8;
      && data[0] == (if f.final then 128 else 0) + f.opcode
      && data[1] == (if f.masked then 128 else 0) + (if n == 0 then |f.payload| else if n == 2 then 126 else 127)
      && |data| == 2 + n + (if f.masked then 4 else 0) + |rest|
      && (n > 0 ==> data[2..2 + n] == BigEndian(|f.payload|, n))
      && (f.masked ==> data[2 + n..6 + n] == f.key)
  {
    hide BigEndian;
    var n := if f.form.Bits7? then 0 else if f.form.Bits16? then 2 else 8;
    var second := (if f.masked then 128 else 0) + if n == 0 then |f.payload| else if n == 2 then 126 else 127;
    var length := if n == 0 then [] else BigEndian(|f.payload|, n);
    var key := if f.masked then f.key else [];
    assert PrintHead(f) == [(if f.final then 128 else 0) + f.opcode, second] + length + key;
    HeadPieces((if f.final then 128 else 0) + f.opcode, second, length, key, rest);
  }

  lemma HeadPieces(first: Byte, second: Byte, length: seq<Byte>, key: seq<Byte>, rest: seq<Byte>)
    ensures var data := [first, second] + length + key + rest;
      && data[0] == first && data[1] == second && data[2..2 + |length|] == length
      && data[2 + |length|..2 + |length| + |key|] == key
  {
  }

  /** Reading the head of a printed frame gives back what was printed, whatever follows. */
  lemma HeadRoundTrip(f: Frame, rest: seq<Byte>, oldKey: Key)
    requires ValidFrame(f)
    ensures HeadThere(PrintHead(f) + rest)
    ensures HeadSize((PrintHead(f) + rest)[1]) == |PrintHead(f)|
    ensures ParseHead(PrintHead(f) + rest, oldKey)
      == FrameInfo(f.final, f.opcode, f.masked, |f.payload|, if f.masked then f.key else oldKey, 0)
  {
    hide PrintHead, BigEndian;
    HeadParts(f, rest);
    Powers();
    if !f.form.Bits7? {
      BigEndianRoundTrip(|f.payload|, if f.form.Bits16? then 2 else 8);
    }
  }

  // ---------------------------------------------------------------- examples

  const HELLO: seq<Byte> := [0x48, 0x65, 0x6c, 0x6c, 0x6f]
  const EXAMPLE_KEY: Key := [0x37, 0xfa, 0x21, 0x3d]
  const MASKED_HELLO: seq<Byte> := [0x7f, 0x9f, 0x4d, 0x51, 0x58]

  lemma ExampleBytes()
    ensures Xor(0x48, 0x37) == 0x7f && Xor(0x65, 0xfa) == 0x9f && Xor(0x6c, 0x21) == 0x4d
    ensures Xor(0x6c, 0x3d) == 0x51 && Xor(0x6f, 0x37) == 0x58
  {
  }

  lemma ExampleMasked()
    ensures Mask(HELLO, EXAMPLE_KEY, 0) == MASKED_HELLO
  {
    ExampleBytes();
    hide XorBits, Xor;
    var masked := Mask(HELLO, EXAMPLE_KEY, 0);
    assert masked == [masked[0], masked[1], masked[2], masked[3], masked[4]];
  }

  /** The examples of RFC 6455 section 5.7: a text message plain, masked and in two fragments, and
      a ping with its masked answer. */
  lemma ExamplesOfProtocol()
    ensures PrintFrame(Frame(true, 1, Bits7, false, EXAMPLE_KEY, HELLO)) == [0x81, 0x05] + HELLO
    ensures PrintFrame(Frame(true, 1, Bits7, true, EXAMPLE_KEY, HELLO)) == [0x81, 0x85] + EXAMPLE_KEY + MASKED_HELLO
    ensures PrintFrame(Frame(false, 1, Bits7, false, EXAMPLE_KEY, HELLO[..3])) == [0x01, 0x03, 0x48, 0x65, 0x6c]
    ensures PrintFrame(Frame(true, 0, Bits7, false, EXAMPLE_KEY, HELLO[3..])) == [0x80, 0x02, 0x6c, 0x6f]
    ensures PrintFrame(Frame(true, 9, Bits7, false, EXAMPLE_KEY, HELLO)) == [0x89, 0x05] + HELLO
    ensures PrintFrame(Frame(true, 10, Bits7, true, EXAMPLE_KEY, HELLO)) == [0x8a, 0x85] + EXAMPLE_KEY + MASKED_HELLO
  {
    ExampleMasked();
    hide Mask, XorBits, Xor;
  }

  /** And its two longer ones: 256 bytes of binary data, and 65536. */
  lemma LongExamplesOfProtocol(f: Frame)
    requires ValidFrame(f) && f.final && f.opcode == 2 && !f.masked
    ensures |f.payload| == 256 && f.form.Bits16? ==> PrintHead(f) == [0x82, 0x7e, 0x01, 0x00]
    ensures |f.payload| == 65536 && f.form.Bits64? ==> PrintHead(f) == [0x82, 0x7f, 0, 0, 0, 0, 0, 1, 0, 0]
  {
    LengthsOfProtocol();
    hide BigEndian;
  }

  lemma LengthsOfProtocol()
    ensures BigEndian(256, 2) == [1, 0] && BigEndian(65536, 8) == [0, 0, 0, 0, 0, 1, 0, 0]
  {
  }
}
