/** The checksum's published check value, which pins its polynomial, bit order, start value and final inversion. */
module CheckValue {
  import opened Bytes
  import opened Crc32

  function Ascii(p0: bool, p1: bool, p2: bool, p3: bool): Bits {
    Bits(p0, p1, p2, p3, true, true, false, false)
  }

  /** One step of the running checksum on a byte given by its bits. */
  lemma Step(s: seq<byte>, b: byte, t: Bits, now: bv32, next: bv32)
    requires CrcFold(0xFFFF_FFFF, s) == now && BitsByte(t) == b && Shift8(now ^ BitsWord(t)) == next
    ensures CrcFold(0xFFFF_FFFF, s + [b]) == next
  {
    hide BitsByte, BitsWord, ByteBits, Shift8, Widen;
    WidenIsBits(b);
    BitsOfByte(t);
    assert (s + [b])[..|s|] == s;
    XorIs(now, BitsWord(t));
  }

  lemma Digits123(s: seq<byte>)
    requires CrcFold(0xFFFF_FFFF, s) == 0xFFFF_FFFF
    ensures CrcFold(0xFFFF_FFFF, s + [0x31, 0x32, 0x33]) == 0x77B7_9C2D
  {
    hide CrcFold;
    Step(s, 0x31, Ascii(true, false, false, false), 0xFFFF_FFFF, 0x7C23_1048);
    Step(s + [0x31], 0x32, Ascii(false, true, false, false), 0x7C23_1048, 0xB0AC_BB32);
    assert s + [0x31] + [0x32] == s + [0x31, 0x32];
    Step(s + [0x31, 0x32], 0x33, Ascii(true, true, false, false), 0xB0AC_BB32, 0x77B7_9C2D);
    assert s + [0x31, 0x32] + [0x33] == s + [0x31, 0x32, 0x33];
  }

  lemma Digits456(s: seq<byte>)
    requires CrcFold(0xFFFF_FFFF, s) == 0x77B7_9C2D
    ensures CrcFold(0xFFFF_FFFF, s + [0x34, 0x35, 0x36]) == 0xF68D_2C9E
  {
    hide CrcFold;
    Step(s, 0x34, Ascii(false, false, true, false), 0x77B7_9C2D, 0x641C_1F5C);
    Step(s + [0x34], 0x35, Ascii(true, false, true, false), 0x641C_1F5C, 0x340A_C5E3);
    assert s + [0x34] + [0x35] == s + [0x34, 0x35];
    Step(s + [0x34, 0x35], 0x36, Ascii(false, true, true, false), 0x340A_C5E3, 0xF68D_2C9E);
    assert s + [0x34, 0x35] + [0x36] == s + [0x34, 0x35, 0x36];
  }

  lemma Digits789(s: seq<byte>)
    requires CrcFold(0xFFFF_FFFF, s) == 0xF68D_2C9E
    ensures CrcFold(0xFFFF_FFFF, s + [0x37, 0x38, 0x39]) == 0x340B_C6D9
  {
    hide CrcFold;
    Step(s, 0x37, Ascii(true, true, true, false), 0xF68D_2C9E, 0xAFFC_9660);
    Step(s + [0x37], 0x38, Ascii(false, false, false, true), 0xAFFC_9660, 0x651F_2550);
    assert s + [0x37] + [0x38] == s + [0x37, 0x38];
    Step(s + [0x37, 0x38], 0x39, Ascii(true, false, false, true), 0x651F_2550, 0x340B_C6D9);
    assert s + [0x37, 0x38] + [0x39] == s + [0x37, 0x38, 0x39];
  }

  /** The check value: the checksum of the nine ASCII digits 1 to 9 is CBF43926. */
  lemma CheckValue()
    ensures CrcOf([0x31, 0x32, 0x33, 0x34, 0x35, 0x36, 0x37, 0x38, 0x39]) == 0xCBF4_3926
  {
    hide CrcFold, Xor;
    var first, second := [0x31, 0x32, 0x33], [0x31, 0x32, 0x33, 0x34, 0x35, 0x36];
    EmptyFold();
    Digits123([]);
    assert [] + first == first;
    Digits456(first);
    assert first + [0x34, 0x35, 0x36] == second;
    Digits789(second);
    assert second + [0x37, 0x38, 0x39] == [0x31, 0x32, 0x33, 0x34, 0x35, 0x36, 0x37, 0x38, 0x39];
    XorIs(0x340B_C6D9, 0xFFFF_FFFF);
  }

  lemma EmptyFold()
    ensures CrcFold(0xFFFF_FFFF, []) == 0xFFFF_FFFF
  {
  }
}
