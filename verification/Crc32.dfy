/** The batch checksum: reflected CRC-32 (RFC 1952, section 8), computed bit by bit as the source does. */
module Crc32 {
  import opened Bytes

  const POLYNOMIAL: bv32 := 0xEDB8_8320

  function Xor(x: bv32, y: bv32): bv32 {
    x ^ y
  }

  /** One bit of the reflected division. */
  function Shift(x: bv32): bv32 {
    if x & 1 == 1 then (x >> 1) ^ POLYNOMIAL else x >> 1
  }

  function Shifts(x: bv32, n: nat): bv32 {
    if n == 0 then x else Shift(Shifts(x, n - 1))
  }

  /** Eight bits of the division. */
  function Shift8(x: bv32): bv32 {
    Shift(Shift(Shift(Shift(Shift(Shift(Shift(Shift(x))))))))
  }

  function CrcByte(crc: bv32, b: byte): bv32 {
    Shift8(Xor(crc, Widen(b)))
  }

  /** The running checksum after the bytes of s. */
  function CrcFold(crc: bv32, s: seq<byte>): bv32 {
    if s == [] then crc else CrcByte(CrcFold(crc, s[..|s| - 1]), s[|s| - 1])
  }

  function CrcOf(s: seq<byte>): bv32 {
    Xor(CrcFold(0xFFFF_FFFF, s), 0xFFFF_FFFF)
  }

  // ----- the source's loops -----

  /** An all-ones or all-zeros mask selects the polynomial or nothing. */
  lemma MaskSelects(mask: bv32, h: bv32, p: bv32)
    ensures mask == 0xFFFF_FFFF ==> h ^ (p & mask) == h ^ p
    ensures mask == 0 ==> h ^ (p & mask) == h
  {
    if mask == 0xFFFF_FFFF {
      assert p & 0xFFFF_FFFF == p;
    }
  }

  lemma MaskOf(b: bv32)
    ensures b == 1 ==> 0 - b == 0xFFFF_FFFF
    ensures b == 0 ==> 0 - b == 0
  {
  }

  lemma ShiftByMask(x: bv32, b: bv32)
    requires b == x & 1
    ensures Shift(x) == (x >> 1) ^ (POLYNOMIAL & (0 - b))
  {
    hide POLYNOMIAL, Shift;
    LowBit(x);
    ShiftCases(x, b, x >> 1);
    MaskOf(b);
    MaskSelects(0 - b, x >> 1, POLYNOMIAL);
  }

  lemma ShiftCases(x: bv32, b: bv32, h: bv32)
    requires b == x & 1 && h == x >> 1
    ensures Shift(x) == if b == 1 then h ^ POLYNOMIAL else h
  {
  }

  lemma LowBit(x: bv32)
    ensures x & 1 == 0 || x & 1 == 1
  {
  }

  lemma ShiftsEight(x: bv32)
    ensures Shifts(x, 8) == Shift8(x)
  {
    hide Shift;
    assert Shifts(x, 1) == Shift(x) && Shifts(x, 2) == Shift(Shifts(x, 1)) && Shifts(x, 3) == Shift(Shifts(x, 2));
    assert Shifts(x, 4) == Shift(Shifts(x, 3)) && Shifts(x, 5) == Shift(Shifts(x, 4));
    assert Shifts(x, 6) == Shift(Shifts(x, 5)) && Shifts(x, 7) == Shift(Shifts(x, 6));
    assert Shifts(x, 8) == Shift(Shifts(x, 7));
  }

  method Crc32Update(crc: bv32, b: byte) returns (r: bv32)
    ensures r == CrcByte(crc, b)
  {
    hide Widen, Shift, Shift8, Xor;
    r := Xor(crc, Widen(b));
    ghost var x := r;
    for bit := 0 to 8
      invariant r == Shifts(x, bit)
    {
      r := Crc32Bit(r);
    }
    ShiftsEight(x);
  }

  method Crc32Bit(crc: bv32) returns (r: bv32)
    ensures r == Shift(crc)
  {
    hide Shift;
    var mask: bv32 := 0 - (crc & 1);
    ShiftByMask(crc, crc & 1);
    r := (crc >> 1) ^ (POLYNOMIAL & mask);
  }

  method Crc32Compute(data: seq<byte>) returns (r: bv32)
    ensures r == CrcOf(data)
  {
    hide CrcByte, Xor;
    r := 0xFFFF_FFFF;
    for i := 0 to |data|
      invariant r == CrcFold(0xFFFF_FFFF, data[..i])
    {
      assert data[..i + 1][..i] == data[..i];
      r := Crc32Update(r, data[i]);
    }
    assert data[..|data|] == data;
    r := Xor(r, 0xFFFF_FFFF);
  }

  // ----- linearity -----

  // Facts about ^, >> and & alone, which Dafny proves at once; the lemmas below put them into the names above.

  lemma RawXorParts(x: bv32, y: bv32)
    ensures (x ^ y) >> 1 == (x >> 1) ^ (y >> 1)
    ensures (x ^ y) & 1 == 1 <==> (x & 1 == 1) != (y & 1 == 1)
  {
  }

  lemma XorIs(x: bv32, y: bv32)
    ensures Xor(x, y) == x ^ y
  {
  }

  lemma XorParts(x: bv32, y: bv32)
    ensures Xor(x, y) >> 1 == Xor(x >> 1, y >> 1)
    ensures Xor(x, y) & 1 == 1 <==> (x & 1 == 1) != (y & 1 == 1)
  {
    hide Xor;
    XorIs(x, y);
    XorIs(x >> 1, y >> 1);
    RawXorParts(x, y);
  }

  lemma XorAssociative(a: bv32, b: bv32, c: bv32)
    ensures Xor(Xor(a, b), c) == Xor(a, Xor(b, c))
  {
  }

  lemma XorCommutative(a: bv32, b: bv32)
    ensures Xor(a, b) == Xor(b, a)
  {
  }

  lemma XorSelf(a: bv32, b: bv32)
    ensures Xor(a, a) == 0 && Xor(a, 0) == a && Xor(0, a) == a
    ensures Xor(a, b) == 0 <==> a == b
  {
  }

  lemma XorSwap(a: bv32, b: bv32, c: bv32, d: bv32)
    ensures Xor(Xor(a, b), Xor(c, d)) == Xor(Xor(a, c), Xor(b, d))
  {
    hide Xor;
    XorAssociative(a, b, Xor(c, d));
    XorAssociative(b, c, d);
    XorCommutative(b, c);
    XorAssociative(c, b, d);
    XorAssociative(a, c, Xor(b, d));
  }

  lemma XorPolynomial(a: bv32, b: bv32, p: bv32)
    ensures Xor(Xor(a, p), Xor(b, p)) == Xor(a, b)
    ensures Xor(Xor(a, p), b) == Xor(Xor(a, b), p)
    ensures Xor(a, Xor(b, p)) == Xor(Xor(a, b), p)
  {
    hide Xor;
    XorSwap(a, p, b, p);
    XorSelf(p, p);
    XorSelf(Xor(a, b), 0);
    XorAssociative(a, p, b);
    XorCommutative(p, b);
    XorAssociative(a, b, p);
  }

  lemma ShiftParts(x: bv32)
    ensures Shift(x) == if x & 1 == 1 then Xor(x >> 1, POLYNOMIAL) else x >> 1
  {
  }

  lemma ShiftLinear(x: bv32, y: bv32)
    ensures Shift(Xor(x, y)) == Xor(Shift(x), Shift(y))
  {
    hide Shift, Xor, POLYNOMIAL;
    XorParts(x, y);
    ShiftParts(x);
    ShiftParts(y);
    ShiftParts(Xor(x, y));
    XorPolynomial(x >> 1, y >> 1, POLYNOMIAL);
  }

  lemma {:induction false} ShiftsLinear(x: bv32, y: bv32, n: nat)
    ensures Shifts(Xor(x, y), n) == Xor(Shifts(x, n), Shifts(y, n))
  {
    hide Shift, Xor;
    if n > 0 {
      ShiftsLinear(x, y, n - 1);
      ShiftLinear(Shifts(x, n - 1), Shifts(y, n - 1));
    }
  }

  lemma Shift8Linear(x: bv32, y: bv32)
    ensures Shift8(Xor(x, y)) == Xor(Shift8(x), Shift8(y))
  {
    hide Shift, Shift8, Xor, Shifts;
    ShiftsEight(Xor(x, y));
    ShiftsEight(x);
    ShiftsEight(y);
    ShiftsLinear(x, y, 8);
  }

  /** The table-driven step printed in RFC 1952, section 8, is the bitwise step. */
  lemma TableStep(crc: bv32, b: byte)
    ensures CrcByte(crc, b) == Xor(Shift8(Xor(crc, Widen(b)) & 0xFF), crc >> 8)
  {
    hide Shift8, Xor, Widen;
    var x := Xor(crc, Widen(b));
    LowByteOfWiden(b);
    SplitLow(crc, Widen(b), x, x & 0xFF, x & 0xFFFF_FF00);
    TableStepParts(crc, x, x & 0xFF, x & 0xFFFF_FF00);
  }

  lemma TableStepParts(crc: bv32, x: bv32, lo: bv32, hi: bv32)
    requires x == Xor(lo, hi) && HighOnly(hi, crc)
    ensures Shift8(x) == Xor(Shift8(lo), crc >> 8)
  {
    hide Shift8, Xor, HighOnly;
    Shift8Linear(lo, hi);
    HighPart(hi, crc);
  }

  predicate HighOnly(hi: bv32, crc: bv32) {
    hi & 0xFF == 0 && hi >> 8 == crc >> 8
  }

  lemma SplitLow(c: bv32, w: bv32, x: bv32, lo: bv32, hi: bv32)
    requires w & 0xFFFF_FF00 == 0 && x == Xor(c, w) && lo == x & 0xFF && hi == x & 0xFFFF_FF00
    ensures x == Xor(lo, hi) && HighOnly(hi, c)
  {
  }

  lemma HighPart(x: bv32, crc: bv32)
    requires HighOnly(x, crc)
    ensures Shift8(x) == crc >> 8
  {
    hide Shift8;
    NoSubtraction(x);
  }

  lemma NoSubtraction(x: bv32)
    requires x & 0xFF == 0
    ensures Shift8(x) == x >> 8
  {
  }

  /** What the change from a to b does to the checksum, starting from a difference d of the running values. */
  function Syndrome(d: bv32, a: seq<byte>, b: seq<byte>): bv32
    requires |a| == |b|
  {
    if a == [] then d
    else
      var n := |a| - 1;
      Shift8(Xor(Syndrome(d, a[..n], b[..n]), Xor(Widen(a[n]), Widen(b[n]))))
  }

  lemma {:induction false} FoldLinear(c: bv32, d: bv32, a: seq<byte>, b: seq<byte>)
    requires |a| == |b|
    ensures Xor(CrcFold(c, a), CrcFold(d, b)) == Syndrome(Xor(c, d), a, b)
  {
    hide Shift8, Xor, Widen;
    if a != [] {
      var n := |a| - 1;
      FoldLinear(c, d, a[..n], b[..n]);
      var x, y := CrcFold(c, a[..n]), CrcFold(d, b[..n]);
      Shift8Linear(Xor(x, Widen(a[n])), Xor(y, Widen(b[n])));
      XorSwap(x, Widen(a[n]), y, Widen(b[n]));
    }
  }

  /** Two messages of one length have the same checksum exactly when their syndrome is zero. */
  lemma CrcDifference(a: seq<byte>, b: seq<byte>)
    requires |a| == |b|
    ensures Xor(CrcOf(a), CrcOf(b)) == Syndrome(0, a, b)
    ensures CrcOf(a) == CrcOf(b) <==> Syndrome(0, a, b) == 0
  {
    hide Xor, CrcFold, Syndrome;
    var m: bv32 := 0xFFFF_FFFF;
    var x, y := CrcFold(m, a), CrcFold(m, b);
    FoldLinear(m, m, a, b);
    XorPolynomial(x, y, m);
    XorSelf(m, m);
    XorSelf(CrcOf(a), CrcOf(b));
  }

  // ----- burst detection -----

  lemma Shift8Zero(x: bv32)
    ensures Shift8(x) == 0 <==> x == 0
  {
  }

  /** The top n bytes of x are zero. */
  predicate TopZero(x: bv32, n: nat)
    requires n <= 4
  {
    match n
    case 0 => true
    case 1 => x & 0xFF00_0000 == 0
    case 2 => x & 0xFFFF_0000 == 0
    case 3 => x & 0xFFFF_FF00 == 0
    case 4 => x == 0
  }

  predicate LowZero(x: bv32) {
    x & 0xFF == 0
  }

  predicate ByteSized(w: bv32) {
    w & 0xFFFF_FF00 == 0
  }

  lemma TopZeroShift(n: nat, d: bv32, w: bv32)
    requires 1 <= n <= 4 && ByteSized(w) && TopZero(Shift8(Xor(d, w)), n)
    ensures LowZero(Xor(d, w)) && TopZero(d, n - 1)
  {
  }

  lemma XorBytes(v: bv32, w: bv32)
    requires ByteSized(v) && ByteSized(w)
    ensures ByteSized(Xor(v, w))
    ensures LowZero(Xor(0, Xor(v, w))) ==> v == w
  {
  }

  /** Within four bytes, only the unchanged message leaves the top bytes of the syndrome zero. */
  lemma {:induction false} WindowInjective(a: seq<byte>, b: seq<byte>)
    requires |a| == |b| <= 4 && TopZero(Syndrome(0, a, b), |a|)
    ensures a == b
  {
    hide Shift8, Xor, Widen, TopZero, LowZero;
    if a != [] {
      var n := |a| - 1;
      LowByteOfWiden(a[n]);
      LowByteOfWiden(b[n]);
      XorBytes(Widen(a[n]), Widen(b[n]));
      TopZeroShift(n + 1, Syndrome(0, a[..n], b[..n]), Xor(Widen(a[n]), Widen(b[n])));
      WindowInjective(a[..n], b[..n]);
      SyndromeSame(a[..n]);
      WidenInjective(a[n], b[n]);
      assert a == a[..n] + [a[n]] && b == b[..n] + [b[n]];
    }
  }

  lemma {:induction false} SyndromeSame(a: seq<byte>)
    ensures Syndrome(0, a, a) == 0
  {
    hide Shift8, Xor, Widen;
    if a != [] {
      var w := Widen(a[|a| - 1]);
      SyndromeSame(a[..|a| - 1]);
      XorSelf(w, w);
      XorSelf(0, 0);
      Shift8Zero(0);
    }
  }

  /** A non-zero difference survives any common suffix. */
  lemma {:induction false} SyndromeSuffix(d: bv32, a: seq<byte>, b: seq<byte>, t: seq<byte>)
    requires |a| == |b|
    ensures Syndrome(d, a + t, b + t) == 0 <==> Syndrome(d, a, b) == 0
  {
    hide Shift8, Xor, Widen;
    if t == [] {
      assert a + t == a && b + t == b;
    } else {
      var n := |t| - 1;
      SyndromeSuffix(d, a, b, t[..n]);
      assert (a + t)[..|a + t| - 1] == a + t[..n] && (b + t)[..|b + t| - 1] == b + t[..n];
      var x := Syndrome(d, a + t[..n], b + t[..n]);
      XorSelf(Widen(t[n]), Widen(t[n]));
      XorSelf(x, 0);
      Shift8Zero(x);
    }
  }

  lemma {:induction false} SyndromePrefix(p: seq<byte>, a: seq<byte>, b: seq<byte>)
    requires |a| == |b|
    ensures Syndrome(0, p + a, p + b) == Syndrome(0, a, b)
  {
    hide Shift8, Xor, Widen;
    if a == [] {
      SyndromeSame(p);
      assert p + a == p && p + b == p;
    } else {
      var n := |a| - 1;
      assert (p + a)[..|p + a| - 1] == p + a[..n] && (p + b)[..|p + b| - 1] == p + b[..n];
      SyndromePrefix(p, a[..n], b[..n]);
    }
  }

  lemma TopZeroOfZero(n: nat)
    requires n <= 4
    ensures TopZero(0, n)
  {
  }

  /** Every change confined to four consecutive bytes changes the checksum. */
  lemma BurstDetected(a: seq<byte>, b: seq<byte>, lo: nat, hi: nat)
    requires |a| == |b| && lo <= hi <= |a| && hi - lo <= 4
    requires a[..lo] == b[..lo] && a[hi..] == b[hi..]
    requires a != b
    ensures CrcOf(a) != CrcOf(b)
  {
    hide CrcOf, Syndrome, TopZero;
    var u, v, t := a[lo..hi], b[lo..hi], a[hi..];
    assert a == a[..lo] + (u + t) && b == a[..lo] + (v + t);
    SyndromePrefix(a[..lo], u + t, v + t);
    SyndromeSuffix(0, u, v, t);
    if Syndrome(0, u, v) == 0 {
      TopZeroOfZero(|u|);
      WindowInjective(u, v);
      assert false;
    }
    CrcDifference(a, b);
  }
}
