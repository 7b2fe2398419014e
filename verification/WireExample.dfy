/**
 * One batch byte by byte: what the script sends as number 1 of 258 for size 22 and seed 42. It pins the
 * order and width of the header fields, what the checksum covers, and the payload generator.
 */
module WireExample {
  import opened Bytes
  import opened Crc32
  import opened CheckValue
  import opened Packet
  import opened Script

  // ----- the checksum of the 22 bytes, the checksum field blank -----

  lemma Magic(s: seq<byte>)
    requires CrcFold(0xFFFF_FFFF, s) == 0xFFFF_FFFF
    ensures CrcFold(0xFFFF_FFFF, s + [0x50, 0x44, 0x55, 0x42]) == 0x3D3B_83F0
  {
    hide CrcFold;
    Step(s, 0x50, Bits(false, false, false, false, true, false, true, false), 0xFFFF_FFFF, 0x4696_4186);
    Step(s + [0x50], 0x44, Bits(false, false, true, false, false, false, true, false), 0x4696_4186, 0x752C_35DD);
    assert s + [0x50] + [0x44] == s + [0x50, 0x44];
    Step(s + [0x50, 0x44], 0x55, Bits(true, false, true, false, true, false, true, false), 0x752C_35DD, 0xE316_2727);
    assert s + [0x50, 0x44] + [0x55] == s + [0x50, 0x44, 0x55];
    Step(s + [0x50, 0x44, 0x55], 0x42, Bits(false, true, false, false, false, false, true, false),
         0xE316_2727, 0x3D3B_83F0);
    assert s + [0x50, 0x44, 0x55] + [0x42] == s + [0x50, 0x44, 0x55, 0x42];
  }

  lemma Number(s: seq<byte>)
    requires CrcFold(0xFFFF_FFFF, s) == 0x3D3B_83F0
    ensures CrcFold(0xFFFF_FFFF, s + [1, 0, 0, 0]) == 0xB973_7732
  {
    hide CrcFold;
    Step(s, 1, Bits(true, false, false, false, false, false, false, false), 0x3D3B_83F0, 0xCA87_F909);
    Step(s + [1], 0, Bits(false, false, false, false, false, false, false, false), 0xCA87_F909, 0x7916_3F5D);
    assert s + [1] + [0] == s + [1, 0];
    Step(s + [1, 0], 0, Bits(false, false, false, false, false, false, false, false), 0x7916_3F5D, 0x15A3_3B76);
    assert s + [1, 0] + [0] == s + [1, 0, 0];
    Step(s + [1, 0, 0], 0, Bits(false, false, false, false, false, false, false, false), 0x15A3_3B76, 0xB973_7732);
    assert s + [1, 0, 0] + [0] == s + [1, 0, 0, 0];
  }

  lemma Total(s: seq<byte>)
    requires CrcFold(0xFFFF_FFFF, s) == 0xB973_7732
    ensures CrcFold(0xFFFF_FFFF, s + [2, 1, 0, 0]) == 0x16F8_CD5E
  {
    hide CrcFold;
    Step(s, 2, Bits(false, true, false, false, false, false, false, false), 0xB973_7732, 0x2660_43DB);
    Step(s + [2], 1, Bits(true, false, false, false, false, false, false, false), 0x2660_43DB, 0x6620_5B89);
    assert s + [2] + [1] == s + [2, 1];
    Step(s + [2, 1], 0, Bits(false, false, false, false, false, false, false, false), 0x6620_5B89, 0x9402_1BDF);
    assert s + [2, 1] + [0] == s + [2, 1, 0];
    Step(s + [2, 1, 0], 0, Bits(false, false, false, false, false, false, false, false), 0x9402_1BDF, 0x16F8_CD5E);
    assert s + [2, 1, 0] + [0] == s + [2, 1, 0, 0];
  }

  lemma Length(s: seq<byte>)
    requires CrcFold(0xFFFF_FFFF, s) == 0x16F8_CD5E
    ensures CrcFold(0xFFFF_FFFF, s + [22, 0, 0, 0]) == 0xEF66_AB25
  {
    hide CrcFold;
    Step(s, 22, Bits(false, true, true, false, true, false, false, false), 0x16F8_CD5E, 0x7811_316F);
    Step(s + [22], 0, Bits(false, false, false, false, false, false, false, false), 0x7811_316F, 0xDD75_6DF8);
    assert s + [22] + [0] == s + [22, 0];
    Step(s + [22, 0], 0, Bits(false, false, false, false, false, false, false, false), 0xDD75_6DF8, 0xB3BB_0F43);
    assert s + [22, 0] + [0] == s + [22, 0, 0];
    Step(s + [22, 0, 0], 0, Bits(false, false, false, false, false, false, false, false), 0xB3BB_0F43, 0xEF66_AB25);
    assert s + [22, 0, 0] + [0] == s + [22, 0, 0, 0];
  }

  lemma Blank(s: seq<byte>)
    requires CrcFold(0xFFFF_FFFF, s) == 0xEF66_AB25
    ensures CrcFold(0xFFFF_FFFF, s + [0, 0, 0, 0]) == 0x41D3_DE45
  {
    hide CrcFold;
    Step(s, 0, Bits(false, false, false, false, false, false, false, false), 0xEF66_AB25, 0x4BEB_B2EC);
    Step(s + [0], 0, Bits(false, false, false, false, false, false, false, false), 0x4BEB_B2EC, 0xA9F7_45E1);
    assert s + [0] + [0] == s + [0, 0];
    Step(s + [0, 0], 0, Bits(false, false, false, false, false, false, false, false), 0xA9F7_45E1, 0xD7A4_25AB);
    assert s + [0, 0] + [0] == s + [0, 0, 0];
    Step(s + [0, 0, 0], 0, Bits(false, false, false, false, false, false, false, false), 0xD7A4_25AB, 0x41D3_DE45);
    assert s + [0, 0, 0] + [0] == s + [0, 0, 0, 0];
  }

  lemma Payload(s: seq<byte>)
    requires CrcFold(0xFFFF_FFFF, s) == 0x41D3_DE45
    ensures CrcFold(0xFFFF_FFFF, s + [0xE6, 0x27]) == 0x414B_E441
  {
    hide CrcFold;
    Step(s, 0xE6, Bits(false, true, true, false, false, true, true, true), 0x41D3_DE45, 0x4F9E_218C);
    Step(s + [0xE6], 0x27, Bits(true, true, true, false, false, true, false, false), 0x4F9E_218C, 0x414B_E441);
    assert s + [0xE6] + [0x27] == s + [0xE6, 0x27];
  }

  /** The batch with a blank checksum field. */
  const BLANK: seq<byte> := [0x50, 0x44, 0x55, 0x42, 1, 0, 0, 0, 2, 1, 0, 0, 22, 0, 0, 0, 0, 0, 0, 0, 0xE6, 0x27]

  lemma ChecksumOfBlank()
    ensures CrcOf(BLANK) == 0xBEB4_1BBE
  {
    hide CrcFold, Xor;
    EmptyFold();
    Magic([]);
    assert [] + [0x50, 0x44, 0x55, 0x42] == BLANK[..4];
    Number(BLANK[..4]);
    assert BLANK[..4] + [1, 0, 0, 0] == BLANK[..8];
    Total(BLANK[..8]);
    assert BLANK[..8] + [2, 1, 0, 0] == BLANK[..12];
    Length(BLANK[..12]);
    assert BLANK[..12] + [22, 0, 0, 0] == BLANK[..16];
    Blank(BLANK[..16]);
    assert BLANK[..16] + [0, 0, 0, 0] == BLANK[..20];
    Payload(BLANK[..20]);
    assert BLANK[..20] + [0xE6, 0x27] == BLANK;
    XorIs(0x414B_E441, 0xFFFF_FFFF);
  }

  lemma ChecksumBytes()
    ensures BitWordBytes(0xBEB4_1BBE) == [0xBE, 0x1B, 0xB4, 0xBE]
  {
  }

  lemma HeaderWords()
    ensures WordBytes(MAGIC) == [0x50, 0x44, 0x55, 0x42] && WordBytes(1) == [1, 0, 0, 0]
    ensures WordBytes(258) == [2, 1, 0, 0] && WordBytes(22) == [22, 0, 0, 0]
  {
  }

  lemma GeneratedPayload()
    ensures LcgPayload(42 + 1 * 10007, 2) == [0xE6, 0x27]
  {
    assert LcgState(10049, 0) == 10049;
    assert LcgState(10049, 1) == 0xE94C_B4E6;
    assert LcgState(10049, 2) == 0x04AB_4A27;
  }

  lemma ExampleOnWire()
    ensures Built(1, 258, LcgPayload(42 + 1 * 10007, 2)) ==
            [0x50, 0x44, 0x55, 0x42, 1, 0, 0, 0, 2, 1, 0, 0, 22, 0, 0, 0, 0xBE, 0x1B, 0xB4, 0xBE, 0xE6, 0x27]
  {
    hide BatchCrc, WordBytes, BitWordBytes, LcgPayload, Zeroed;
    GeneratedPayload();
    HeaderWords();
    ChecksumBytes();
    BlankLayout();
  }

  lemma BlankLayout()
    ensures BatchCrc(Layout(1, 258, 22, 0, [0xE6, 0x27])) == 0xBEB4_1BBE
  {
    hide CrcOf, WordBytes, BatchCrc, Layout;
    HeaderWords();
    ChecksumOfBlank();
    ChecksumCovers(1, 258, 22, 0, [0xE6, 0x27]);
    assert [0x50, 0x44, 0x55, 0x42] + [1, 0, 0, 0] + [2, 1, 0, 0] + [22, 0, 0, 0] + [0, 0, 0, 0] + [0xE6, 0x27]
           == BLANK;
  }
}
