/** Why a detected burst must not straddle the header: a change the checksum misses in every batch of 25 bytes. */
module Boundary {
  import opened Bytes
  import opened Crc32
  import opened Packet

  function Flip(b: byte, mask: byte): byte {
    LowByte(Xor(Widen(b), Widen(mask)))
  }

  lemma MaskedXor(v: bv32, w: bv32)
    requires v & 0xFFFF_FF00 == 0 && w & 0xFFFF_FF00 == 0
    ensures (v ^ w) & 0xFF == v ^ w
  {
  }

  lemma FlipWiden(b: byte, mask: byte)
    ensures Widen(Flip(b, mask)) == Xor(Widen(b), Widen(mask))
    ensures Xor(Widen(b), Widen(Flip(b, mask))) == Widen(mask)
  {
    hide Widen, LowByte, Xor;
    var v, w := Widen(b), Widen(mask);
    LowByteOfWiden(b);
    LowByteOfWiden(mask);
    XorIs(v, w);
    MaskedXor(v, w);
    WidenOfLowByte(Xor(v, w));
    XorAssociative(v, v, w);
    XorSelf(v, v);
    XorSelf(w, w);
  }

  /** The mask bytes, widened. */
  lemma MaskBytes()
    ensures Widen(0xFB) == 0xFB && Widen(0x26) == 0x26 && Widen(0x63) == 0x63 && Widen(0x97) == 0x97
  {
    WidenBits(0xFB, Bits(true, true, false, true, true, true, true, true), 0xFB);
    WidenBits(0x26, Bits(false, true, true, false, false, true, false, false), 0x26);
    WidenBits(0x63, Bits(true, true, false, false, false, true, true, false), 0x63);
    WidenBits(0x97, Bits(true, true, true, false, true, false, false, true), 0x97);
  }

  lemma WidenBits(b: byte, t: Bits, w: bv32)
    requires BitsByte(t) == b && BitsWord(t) == w
    ensures Widen(b) == w
  {
    hide BitsByte, BitsWord, ByteBits, Widen;
    WidenIsBits(b);
    BitsOfByte(t);
  }

  /** The changed batch: three checksum bytes and the first payload byte. */
  function Straddled(a: seq<byte>): (b: seq<byte>)
    requires |a| == 25
    ensures |b| == 25
  {
    a[..17] + [Flip(a[17], 0xFB), Flip(a[18], 0x26), Flip(a[19], 0x63), Flip(a[20], 0x97)] + a[21..]
  }

  lemma JoinFlipped(w0: bv32, w1: bv32, w2: bv32, w3: bv32, v1: bv32, v2: bv32, v3: bv32)
    requires ByteSized(w0) && ByteSized(w1) && ByteSized(w2) && ByteSized(w3)
    requires v1 == Xor(w1, 0xFB) && v2 == Xor(w2, 0x26) && v3 == Xor(w3, 0x63)
    ensures Xor(Join(w0, w1, w2, w3), Join(w0, v1, v2, v3)) == 0x6326_FB00
  {
  }

  lemma FieldChange(a0: byte, a1: byte, a2: byte, a3: byte)
    ensures Xor(BitWord(a0, a1, a2, a3), BitWord(a0, Flip(a1, 0xFB), Flip(a2, 0x26), Flip(a3, 0x63))) == 0x6326_FB00
  {
    hide Widen, Flip, Xor, Join;
    MaskBytes();
    FlipWiden(a1, 0xFB);
    FlipWiden(a2, 0x26);
    FlipWiden(a3, 0x63);
    LowByteOfWiden(a0);
    LowByteOfWiden(a1);
    LowByteOfWiden(a2);
    LowByteOfWiden(a3);
    JoinFlipped(Widen(a0), Widen(a1), Widen(a2), Widen(a3),
                Widen(Flip(a1, 0xFB)), Widen(Flip(a2, 0x26)), Widen(Flip(a3, 0x63)));
  }

  lemma SyndromeStep(a: seq<byte>, b: seq<byte>, x: byte)
    requires |a| == |b|
    ensures Syndrome(0, a + [x], b + [x]) == Shift8(Syndrome(0, a, b))
  {
    hide Shift8, Xor, Widen;
    assert (a + [x])[..|a|] == a && (b + [x])[..|b|] == b;
    XorSelf(Widen(x), Widen(x));
    XorSelf(Syndrome(0, a, b), 0);
  }

  lemma FirstSyndrome(x: byte)
    ensures Syndrome(0, [x], [Flip(x, 0x97)]) == Shift8(0x97)
  {
    hide Shift8, Xor, Widen, Flip;
    var y := Flip(x, 0x97);
    FlipWiden(x, 0x97);
    MaskBytes();
    assert [x][..0] == [] && [y][..0] == [];
    XorSelf(0x97, 0);
  }

  lemma PayloadChange(x: byte, t: seq<byte>)
    requires |t| == 4
    ensures Syndrome(0, [x] + t, [Flip(x, 0x97)] + t) == 0x6326_FB00
  {
    hide Shift8, Syndrome, Flip;
    var y := Flip(x, 0x97);
    FirstSyndrome(x);
    SyndromeStep([x], [y], t[0]);
    SyndromeStep([x] + [t[0]], [y] + [t[0]], t[1]);
    SyndromeStep([x] + [t[0]] + [t[1]], [y] + [t[0]] + [t[1]], t[2]);
    SyndromeStep([x] + [t[0]] + [t[1]] + [t[2]], [y] + [t[0]] + [t[1]] + [t[2]], t[3]);
    assert [x] + t == [x] + [t[0]] + [t[1]] + [t[2]] + [t[3]];
    assert [y] + t == [y] + [t[0]] + [t[1]] + [t[2]] + [t[3]];
    FiveShifts();
  }

  lemma FiveShifts()
    ensures Shift8(Shift8(Shift8(Shift8(Shift8(0x97))))) == 0x6326_FB00
  {
  }

  /** A change of four consecutive bytes across the header boundary that no 25-byte batch detects. */
  lemma StraddlingBurstAccepted(a: seq<byte>)
    requires |a| == 25 && IsOk(a)
    ensures var b := Straddled(a);
            b != a && IsOk(b) && b[..17] == a[..17] && b[21..] == a[21..]
  {
    hide Flip, Syndrome, Word, BitWord, Xor, CrcOf;
    var b := Straddled(a);
    var p, t := Zeroed(a)[..20], a[21..];
    assert Zeroed(a) == p + ([a[20]] + t);
    assert Zeroed(b) == p + ([b[20]] + t);
    SyndromePrefix(p, [a[20]] + t, [b[20]] + t);
    PayloadChange(a[20], t);
    FieldChange(a[16], a[17], a[18], a[19]);
    ChangeAccepted(a, b);
    if a == b {
      FlipWiden(a[20], 0x97);
      MaskBytes();
      XorSelf(Widen(a[20]), Widen(a[20]));
      assert false;
    }
  }
}
