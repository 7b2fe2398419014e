/** Bytes, 32-bit words and the two little-endian readings of a word used by the wire format. */
module Bytes {

  type byte = b: int | 0 <= b < 0x100
  const WRAP := 0x1_0000_0000
  type u32 = x: int | 0 <= x < WRAP

  datatype Option<+T> = None | Some(value: T)

  /** The little-endian reading of a list of bytes. */
  function Little(s: seq<byte>): nat {
    if s == [] then 0 else s[0] + 0x100 * Little(s[1..])
  }

  lemma LittleStep(b: byte, s: seq<byte>)
    ensures Little([b] + s) == b + 0x100 * Little(s)
  {
    assert ([b] + s)[1..] == s;
  }

  lemma {:induction false} LittleInjective(a: seq<byte>, b: seq<byte>)
    requires |a| == |b| && Little(a) == Little(b)
    ensures a == b
  {
    if a != [] {
      assert a[0] == Little(a) % 0x100 && b[0] == Little(b) % 0x100;
      LittleInjective(a[1..], b[1..]);
      assert a == [a[0]] + a[1..] && b == [b[0]] + b[1..];
    }
  }

  /** Four bytes, read from the lowest. */
  lemma LittleFour(b0: byte, b1: byte, b2: byte, b3: byte)
    ensures Little([b0, b1, b2, b3]) == b0 + 0x100 * (b1 + 0x100 * (b2 + 0x100 * b3)) < WRAP
  {
    LittleStep(b3, []);
    LittleStep(b2, [b3]);
    LittleStep(b1, [b2, b3]);
    LittleStep(b0, [b1, b2, b3]);
    assert [b3] + [] == [b3] && [b2] + [b3] == [b2, b3];
    assert [b1] + [b2, b3] == [b1, b2, b3] && [b0] + [b1, b2, b3] == [b0, b1, b2, b3];
  }

  /** The little-endian reading of four bytes. */
  function Word(b0: byte, b1: byte, b2: byte, b3: byte): u32 {
    LittleFour(b0, b1, b2, b3);
    Little([b0, b1, b2, b3])
  }

  lemma WordInjective(a0: byte, a1: byte, a2: byte, a3: byte, b0: byte, b1: byte, b2: byte, b3: byte)
    requires Word(a0, a1, a2, a3) == Word(b0, b1, b2, b3)
    ensures a0 == b0 && a1 == b1 && a2 == b2 && a3 == b3
  {
    LittleInjective([a0, a1, a2, a3], [b0, b1, b2, b3]);
    var s := [a0, a1, a2, a3];
    assert s[0] == a0 && s[1] == a1 && s[2] == a2 && s[3] == a3;
  }

  /** The little-endian bytes of a word. */
  function WordBytes(x: u32): (s: seq<byte>)
    ensures |s| == 4 && Word(s[0], s[1], s[2], s[3]) == x
  {
    var q1 := x / 0x100; var q2 := q1 / 0x100; var q3 := q2 / 0x100;
    LittleFour(x % 0x100, q1 % 0x100, q2 % 0x100, q3);
    [x % 0x100, q1 % 0x100, q2 % 0x100, q3]
  }

  /** The eight bits of a byte, least significant first. */
  datatype Bits = Bits(p0: bool, p1: bool, p2: bool, p3: bool, p4: bool, p5: bool, p6: bool, p7: bool)

  predicate Odd(n: int) {
    n % 2 == 1
  }

  function ByteBits(b: byte): Bits {
    var h1 := b / 2; var h2 := h1 / 2; var h3 := h2 / 2; var h4 := h3 / 2;
    var h5 := h4 / 2; var h6 := h5 / 2; var h7 := h6 / 2;
    Bits(Odd(b), Odd(h1), Odd(h2), Odd(h3), Odd(h4), Odd(h5), Odd(h6), Odd(h7))
  }

  function Digit(p: bool, rest: nat): (n: nat)
    ensures n <= 2 * rest + 1 && n / 2 == rest && Odd(n) == p
  {
    (if p then 1 else 0) + 2 * rest
  }

  function BitsByte(t: Bits): byte {
    Digit(t.p0, Digit(t.p1, Digit(t.p2, Digit(t.p3, Digit(t.p4, Digit(t.p5, Digit(t.p6, Digit(t.p7, 0))))))))
  }

  lemma BitsOfByte(t: Bits)
    ensures ByteBits(BitsByte(t)) == t
  {
  }

  lemma DigitOfHalf(n: nat)
    ensures Digit(Odd(n), n / 2) == n
  {
  }

  lemma ByteOfBits(b: byte)
    ensures BitsByte(ByteBits(b)) == b
  {
    var h1 := b / 2; var h2 := h1 / 2; var h3 := h2 / 2; var h4 := h3 / 2;
    var h5 := h4 / 2; var h6 := h5 / 2; var h7 := h6 / 2;
    DigitOfHalf(h7); assert h7 / 2 == 0;
    DigitOfHalf(h6); DigitOfHalf(h5); DigitOfHalf(h4);
    DigitOfHalf(h3); DigitOfHalf(h2); DigitOfHalf(h1); DigitOfHalf(b);
  }

  function BitsWord(t: Bits): bv32 {
    (if t.p0 then 1 else 0) | (if t.p1 then 2 else 0) | (if t.p2 then 4 else 0) | (if t.p3 then 8 else 0) |
    (if t.p4 then 16 else 0) | (if t.p5 then 32 else 0) | (if t.p6 then 64 else 0) | (if t.p7 then 128 else 0)
  }

  function WordBits(x: bv32): Bits {
    Bits(x & 1 != 0, x & 2 != 0, x & 4 != 0, x & 8 != 0, x & 16 != 0, x & 32 != 0, x & 64 != 0, x & 128 != 0)
  }

  lemma BitsOfWord(t: Bits)
    ensures WordBits(BitsWord(t)) == t && BitsWord(t) & 0xFFFF_FF00 == 0
  {
  }

  lemma WordOfBits(x: bv32)
    ensures BitsWord(WordBits(x)) == x & 0xFF
  {
  }

  function DigitWord(p: bool, rest: bv32): bv32 {
    (rest << 1) | (if p then 1 else 0)
  }

  /** Zero extension of a byte to 32 bits. */
  function Widen(b: byte): bv32 {
    if b == 0 then 0 else DigitWord(Odd(b), Widen(b / 2))
  }

  lemma DigitWords(t: Bits)
    ensures BitsWord(t) == DigitWord(t.p0, DigitWord(t.p1, DigitWord(t.p2, DigitWord(t.p3,
                           DigitWord(t.p4, DigitWord(t.p5, DigitWord(t.p6, DigitWord(t.p7, 0))))))))
  {
  }

  lemma WidenStep(b: byte)
    ensures Widen(b) == DigitWord(Odd(b), Widen(b / 2))
  {
  }

  lemma WidenIsBits(b: byte)
    ensures Widen(b) == BitsWord(ByteBits(b))
  {
    hide Widen, DigitWord, Odd;
    var h1 := b / 2; var h2 := h1 / 2; var h3 := h2 / 2; var h4 := h3 / 2;
    var h5 := h4 / 2; var h6 := h5 / 2; var h7 := h6 / 2;
    WidenStep(b); WidenStep(h1); WidenStep(h2); WidenStep(h3);
    WidenStep(h4); WidenStep(h5); WidenStep(h6); WidenStep(h7);
    WidenZero(h7 / 2);
    DigitWords(ByteBits(b));
  }

  lemma WidenZero(b: byte)
    requires b == 0
    ensures Widen(b) == 0
  {
  }

  /** Truncation of a 32-bit word to its low byte. */
  function LowByte(x: bv32): byte {
    BitsByte(WordBits(x))
  }

  lemma LowByteOfWiden(b: byte)
    ensures LowByte(Widen(b)) == b && Widen(b) & 0xFFFF_FF00 == 0
  {
    hide Widen, BitsWord, ByteBits, BitsByte, WordBits;
    WidenIsBits(b);
    BitsOfWord(ByteBits(b));
    ByteOfBits(b);
  }

  lemma WidenOfLowByte(x: bv32)
    ensures Widen(LowByte(x)) == x & 0xFF
  {
    hide Widen, BitsWord, ByteBits, BitsByte, WordBits;
    WidenIsBits(LowByte(x));
    BitsOfByte(WordBits(x));
    WordOfBits(x);
  }

  lemma WidenInjective(a: byte, b: byte)
    requires Widen(a) == Widen(b)
    ensures a == b
  {
    LowByteOfWiden(a);
    LowByteOfWiden(b);
  }

  function Join(w0: bv32, w1: bv32, w2: bv32, w3: bv32): bv32 {
    w0 | (w1 << 8) | (w2 << 16) | (w3 << 24)
  }

  /** The same little-endian reading, as a bit vector. */
  function BitWord(b0: byte, b1: byte, b2: byte, b3: byte): bv32 {
    Join(Widen(b0), Widen(b1), Widen(b2), Widen(b3))
  }

  function BitWordBytes(x: bv32): (s: seq<byte>)
    ensures |s| == 4
  {
    [LowByte(x), LowByte(x >> 8), LowByte(x >> 16), LowByte(x >> 24)]
  }

  lemma JoinBytes(x: bv32)
    ensures Join(x & 0xFF, (x >> 8) & 0xFF, (x >> 16) & 0xFF, (x >> 24) & 0xFF) == x
  {
  }

  lemma BitWordRoundTrip(x: bv32)
    ensures var s := BitWordBytes(x); BitWord(s[0], s[1], s[2], s[3]) == x
  {
    hide Widen, LowByte, Join;
    WidenOfLowByte(x); WidenOfLowByte(x >> 8); WidenOfLowByte(x >> 16); WidenOfLowByte(x >> 24);
    JoinBytes(x);
  }

  lemma JoinInjective(v0: bv32, v1: bv32, v2: bv32, v3: bv32, w0: bv32, w1: bv32, w2: bv32, w3: bv32)
    requires v0 & 0xFFFF_FF00 == 0 && v1 & 0xFFFF_FF00 == 0 && v2 & 0xFFFF_FF00 == 0 && v3 & 0xFFFF_FF00 == 0
    requires w0 & 0xFFFF_FF00 == 0 && w1 & 0xFFFF_FF00 == 0 && w2 & 0xFFFF_FF00 == 0 && w3 & 0xFFFF_FF00 == 0
    requires Join(v0, v1, v2, v3) == Join(w0, w1, w2, w3)
    ensures v0 == w0 && v1 == w1 && v2 == w2 && v3 == w3
  {
  }

  lemma BitWordInjective(a0: byte, a1: byte, a2: byte, a3: byte, b0: byte, b1: byte, b2: byte, b3: byte)
    requires BitWord(a0, a1, a2, a3) == BitWord(b0, b1, b2, b3)
    ensures a0 == b0 && a1 == b1 && a2 == b2 && a3 == b3
  {
    LowByteOfWiden(a0); LowByteOfWiden(a1); LowByteOfWiden(a2); LowByteOfWiden(a3);
    LowByteOfWiden(b0); LowByteOfWiden(b1); LowByteOfWiden(b2); LowByteOfWiden(b3);
    JoinInjective(Widen(a0), Widen(a1), Widen(a2), Widen(a3), Widen(b0), Widen(b1), Widen(b2), Widen(b3));
  }

  /** The concatenation of a list of chunks, in order. */
  function Flat<T>(chunks: seq<seq<T>>): seq<T> {
    if chunks == [] then [] else chunks[0] + Flat(chunks[1..])
  }

  lemma {:induction false} FlatAppend<T>(a: seq<seq<T>>, b: seq<seq<T>>)
    ensures Flat(a + b) == Flat(a) + Flat(b)
  {
    if a == [] {
      assert a + b == b;
    } else {
      assert (a + b)[0] == a[0] && (a + b)[1..] == a[1..] + b;
      FlatAppend(a[1..], b);
    }
  }

  lemma FlatSnoc<T>(a: seq<seq<T>>, x: seq<T>)
    ensures Flat(a + [x]) == Flat(a) + x
  {
    FlatAppend(a, [x]);
    assert Flat([x]) == x + Flat<T>([]);
  }

  /** Chunks of one size. */
  lemma {:induction false} FlatSize<T>(bs: seq<seq<T>>, size: nat)
    requires forall i :: 0 <= i < |bs| ==> |bs[i]| == size
    ensures |Flat(bs)| == |bs| * size
  {
    if bs != [] {
      FlatSize(bs[1..], size);
      assert |bs| * size == size + (|bs| - 1) * size;
    }
  }

  lemma Quotient(u: nat, size: nat, c: nat)
    requires 0 < size
    ensures c * size <= u < (c + 1) * size <==> u / size == c
  {
    Divided(u, size);
    var k := u / size;
    TimesMonotone(c + 1, k, size);
    TimesMonotone(k + 1, c, size);
  }

  lemma Divided(u: nat, size: nat)
    requires 0 < size
    ensures (u / size) * size <= u < (u / size + 1) * size
    ensures u == (u / size) * size + u % size
  {
  }

  lemma TimesMonotone(a: nat, b: nat, size: nat)
    ensures a <= b ==> a * size <= b * size
  {
  }
}
