/** The BDUP wire format: the 20-byte little-endian header, its plausibility rules and the batch checksum. */
module Packet {
  import opened Bytes
  import opened Crc32

  const MAGIC: u32 := 0x4255_4450
  const HEADER_SIZE := 20
  const MAX_LENGTH := 0x1_0000

  datatype Header = Header(magic: u32, seqNo: u32, batchTotal: u32, length: u32, crc: bv32)

  datatype Validation = Ok | TooShort | BadMagic | BadLength | BadMeta | BadSession | BadCrc

  /** The four integer fields and the checksum field at the start of a buffer. */
  function ReadHeader(s: seq<byte>): Header
    requires |s| >= HEADER_SIZE
  {
    Header(Word(s[0], s[1], s[2], s[3]), Word(s[4], s[5], s[6], s[7]), Word(s[8], s[9], s[10], s[11]),
           Word(s[12], s[13], s[14], s[15]), BitWord(s[16], s[17], s[18], s[19]))
  }

  predicate MetaPlausible(seqNo: u32, batchTotal: u32, length: u32) {
    batchTotal != 0 && seqNo < batchTotal && HEADER_SIZE <= length <= MAX_LENGTH
  }

  predicate HeaderPlausible(h: Header) {
    h.magic == MAGIC && MetaPlausible(h.seqNo, h.batchTotal, h.length)
  }

  /** The buffer with its checksum field zeroed. */
  function Zeroed(s: seq<byte>): (z: seq<byte>)
    requires |s| >= HEADER_SIZE
    ensures |z| == |s|
  {
    s[..16] + [0, 0, 0, 0] + s[20..]
  }

  function BatchCrc(s: seq<byte>): bv32
    requires |s| >= HEADER_SIZE
  {
    CrcOf(Zeroed(s))
  }

  /** The verdict on a buffer of exactly the received bytes. */
  function ValidateBatch(s: seq<byte>): Validation {
    if |s| < HEADER_SIZE then TooShort
    else
      var h := ReadHeader(s);
      if h.magic != MAGIC then BadMagic
      else if h.length != |s| then BadLength
      else if !MetaPlausible(h.seqNo, h.batchTotal, h.length) then BadMeta
      else if h.crc != BatchCrc(s) then BadCrc
      else Ok
  }

  /** The session check: the verdict, and the latched total afterwards. */
  function ValidateSession(h: Header, session: Option<u32>): (r: (Validation, Option<u32>))
    ensures session.Some? ==> r.1 == session
    ensures r.0 == Ok <==> MetaPlausible(h.seqNo, h.batchTotal, h.length) && r.1 == Some(h.batchTotal)
                           && (session.Some? ==> session.value == h.batchTotal)
    ensures r.0 in {Ok, BadMeta, BadSession}
    ensures r.0 != Ok ==> r.1 == session
  {
    if !MetaPlausible(h.seqNo, h.batchTotal, h.length) then (BadMeta, session)
    else if session.None? then (Ok, Some(h.batchTotal))
    else if session.value != h.batchTotal then (BadSession, session)
    else (Ok, session)
  }

  /** The announced length, or 0 if no plausible header starts here. */
  function PeekLength(s: seq<byte>): (n: nat)
    ensures n != 0 <==> |s| >= HEADER_SIZE && HeaderPlausible(ReadHeader(s))
    ensures n != 0 ==> n == ReadHeader(s).length && 20 <= n <= 65536
  {
    if |s| < HEADER_SIZE then 0
    else
      var h := ReadHeader(s);
      if h.magic != MAGIC || !MetaPlausible(h.seqNo, h.batchTotal, h.length) then 0 else h.length
  }

  lemma HeaderOfPrefix(s: seq<byte>, t: seq<byte>)
    requires |s| >= HEADER_SIZE
    ensures ReadHeader(s + t) == ReadHeader(s)
  {
  }

  lemma MagicWord()
    ensures Word(0x50, 0x44, 0x55, 0x42) == MAGIC
  {
    LittleFour(0x50, 0x44, 0x55, 0x42);
  }

  /** The magic does not overlap itself: another magic starts at least four bytes later. */
  lemma MagicDoesNotOverlap(s: seq<byte>, i: nat)
    requires 1 <= i && i + HEADER_SIZE <= |s|
    requires ReadHeader(s).magic == MAGIC && ReadHeader(s[i..]).magic == MAGIC
    ensures i >= 4
  {
    hide BitWord;
    hide Word;
    MagicWord();
    var t := s[i..];
    WordInjective(s[0], s[1], s[2], s[3], 0x50, 0x44, 0x55, 0x42);
    WordInjective(t[0], t[1], t[2], t[3], 0x50, 0x44, 0x55, 0x42);
  }

  // ----- checksum over a copy with the field zeroed -----

  method BatchCrc32(batch: seq<byte>) returns (r: bv32)
    requires |batch| >= HEADER_SIZE
    ensures r == BatchCrc(batch)
  {
    hide CrcOf;
    var copy := new byte[|batch|](i requires 0 <= i < |batch| => batch[i]);
    copy[16], copy[17], copy[18], copy[19] := 0, 0, 0, 0;
    assert copy[..] == Zeroed(batch);
    r := Crc32Compute(copy[..]);
  }

  // ----- what the checksum catches -----

  predicate IsOk(s: seq<byte>) {
    ValidateBatch(s) == Ok
  }

  lemma ZeroedOutside(a: seq<byte>, b: seq<byte>, lo: nat, hi: nat)
    requires |a| == |b| >= HEADER_SIZE && lo <= hi <= |a|
    requires a[..lo] == b[..lo] && a[hi..] == b[hi..]
    ensures Zeroed(a)[..lo] == Zeroed(b)[..lo] && Zeroed(a)[hi..] == Zeroed(b)[hi..]
  {
    SameOutside(a, b, lo, hi);
    forall k | 0 <= k < |a| && (k < lo || hi <= k) ensures Zeroed(a)[k] == Zeroed(b)[k] {
    }
    forall k | 0 <= k < |a| - hi ensures Zeroed(a)[hi..][k] == Zeroed(b)[hi..][k] {
      assert Zeroed(a)[hi..][k] == Zeroed(a)[hi + k];
      assert Zeroed(b)[hi..][k] == Zeroed(b)[hi + k];
    }
  }

  lemma SameOutside(a: seq<byte>, b: seq<byte>, lo: nat, hi: nat)
    requires |a| == |b| && lo <= hi <= |a|
    requires a[..lo] == b[..lo] && a[hi..] == b[hi..]
    ensures forall k | 0 <= k < |a| && (k < lo || hi <= k) :: a[k] == b[k]
  {
  }

  /**
   * A batch that passes stops passing, at the same received length, after any change confined to four
   * consecutive bytes that do not straddle the boundary between header and payload.
   */
  lemma BurstRejected(a: seq<byte>, b: seq<byte>, lo: nat, hi: nat)
    requires IsOk(a) && |b| == |a| && a != b
    requires lo <= hi <= |a| && hi - lo <= 4 && (hi <= HEADER_SIZE || HEADER_SIZE <= lo)
    requires a[..lo] == b[..lo] && a[hi..] == b[hi..]
    ensures !IsOk(b)
  {
    hide CrcOf, BitWord, Word;
    SameOutside(a, b, lo, hi);
    if IsOk(b) {
      var ha, hb := ReadHeader(a), ReadHeader(b);
      assert ha.length == hb.length;
      WordInjective(a[12], a[13], a[14], a[15], b[12], b[13], b[14], b[15]);
      if Zeroed(a) == Zeroed(b) {
        BitWordInjective(a[16], a[17], a[18], a[19], b[16], b[17], b[18], b[19]);
        SameZeroed(a, b);
        assert false;
      } else {
        ZeroedOutside(a, b, lo, hi);
        BurstDetected(Zeroed(a), Zeroed(b), lo, hi);
        assert false;
      }
    }
  }

  lemma SameZeroed(a: seq<byte>, b: seq<byte>)
    requires |a| == |b| >= HEADER_SIZE && Zeroed(a) == Zeroed(b)
    requires a[16] == b[16] && a[17] == b[17] && a[18] == b[18] && a[19] == b[19]
    ensures a == b
  {
    forall k | 0 <= k < |a| ensures a[k] == b[k] {
      assert Zeroed(a)[k] == Zeroed(b)[k];
    }
  }

  /** Which changed batches still pass: exactly those whose syndrome is the change of the checksum field. */
  lemma ChangeAccepted(a: seq<byte>, b: seq<byte>)
    requires IsOk(a) && |b| == |a|
    ensures IsOk(b) <==> HeaderPlausible(ReadHeader(b)) && ReadHeader(b).length == |b|
                         && Syndrome(0, Zeroed(a), Zeroed(b)) == Xor(ReadHeader(a).crc, ReadHeader(b).crc)
  {
    hide CrcOf, BitWord, Word, Xor, Syndrome;
    var x, y := BatchCrc(a), BatchCrc(b);
    CrcDifference(Zeroed(a), Zeroed(b));
    var h := ReadHeader(b).crc;
    XorCancelLeft(x, y, h);
  }

  lemma XorCancelLeft(x: bv32, y: bv32, z: bv32)
    ensures Xor(x, y) == Xor(x, z) <==> y == z
  {
  }

  // ----- building a batch -----

  function Layout(seqNo: u32, batchTotal: u32, length: u32, crc: bv32, payload: seq<byte>): (s: seq<byte>)
    ensures |s| == HEADER_SIZE + |payload|
  {
    WordBytes(MAGIC) + WordBytes(seqNo) + WordBytes(batchTotal) + WordBytes(length) + BitWordBytes(crc) + payload
  }

  /** The batch a sender puts on the wire; the length field is the size modulo 2^32. */
  function Built(seqNo: u32, batchTotal: u32, payload: seq<byte>): (s: seq<byte>)
    ensures |s| == HEADER_SIZE + |payload|
  {
    var length := (HEADER_SIZE + |payload|) % WRAP;
    Layout(seqNo, batchTotal, length, BatchCrc(Layout(seqNo, batchTotal, length, 0, payload)), payload)
  }

  lemma ReadLayout(seqNo: u32, batchTotal: u32, length: u32, crc: bv32, payload: seq<byte>)
    ensures ReadHeader(Layout(seqNo, batchTotal, length, crc, payload)) == Header(MAGIC, seqNo, batchTotal, length, crc)
  {
    hide Word, BitWord, WordBytes, BitWordBytes;
    var s := Layout(seqNo, batchTotal, length, crc, payload);
    var m, q, t := WordBytes(MAGIC), WordBytes(seqNo), WordBytes(batchTotal);
    var l, c := WordBytes(length), BitWordBytes(crc);
    assert s[0..4] == m && s[4..8] == q && s[8..12] == t && s[12..16] == l && s[16..20] == c;
    assert s[0..4][0] == s[0] && s[4..8][0] == s[4] && s[8..12][0] == s[8];
    assert s[12..16][0] == s[12] && s[16..20][0] == s[16];
    BitWordRoundTrip(crc);
  }

  lemma ZeroedLayout(seqNo: u32, batchTotal: u32, length: u32, crc: bv32, payload: seq<byte>)
    ensures Zeroed(Layout(seqNo, batchTotal, length, crc, payload)) ==
            Zeroed(Layout(seqNo, batchTotal, length, 0, payload))
  {
    hide WordBytes, BitWordBytes;
    var s, z := Layout(seqNo, batchTotal, length, crc, payload), Layout(seqNo, batchTotal, length, 0, payload);
    assert s[..16] == z[..16] && s[20..] == payload && z[20..] == payload;
  }

  /**
   * Round trip with the receiver's check: a built batch carries its fields, and passes exactly when
   * its size is one the receiver allows.
   */
  lemma BuiltVerdict(seqNo: u32, batchTotal: u32, payload: seq<byte>)
    requires seqNo < batchTotal
    ensures var s := Built(seqNo, batchTotal, payload);
            var h := ReadHeader(s);
            h.magic == MAGIC && h.seqNo == seqNo && h.batchTotal == batchTotal &&
            ValidateBatch(s) ==
              if |s| <= 65536 then Ok else if |s| < 0x1_0000_0000 then BadMeta else BadLength
  {
    hide CrcOf, Layout, ReadHeader, Zeroed;
    var length := (HEADER_SIZE + |payload|) % WRAP;
    var crc := BatchCrc(Layout(seqNo, batchTotal, length, 0, payload));
    ReadLayout(seqNo, batchTotal, length, crc, payload);
    ZeroedLayout(seqNo, batchTotal, length, crc, payload);
  }

  /** The checksum covers the whole batch, header included, with zeros in place of the checksum itself. */
  lemma ChecksumCovers(seqNo: u32, batchTotal: u32, length: u32, crc: bv32, payload: seq<byte>)
    ensures BatchCrc(Layout(seqNo, batchTotal, length, crc, payload)) ==
            CrcOf(WordBytes(MAGIC) + WordBytes(seqNo) + WordBytes(batchTotal) + WordBytes(length)
                  + [0, 0, 0, 0] + payload)
  {
    hide CrcOf, WordBytes, BitWordBytes;
    var s := Layout(seqNo, batchTotal, length, crc, payload);
    var fields := WordBytes(MAGIC) + WordBytes(seqNo) + WordBytes(batchTotal) + WordBytes(length);
    assert s[..16] == fields && s[20..] == payload;
    assert Zeroed(s) == fields + [0, 0, 0, 0] + payload;
  }

  // ----- the receiver's checks, byte by byte -----

  /** The value of the four bytes from an offset on, lowest first. */
  function Field(s: seq<byte>, at: nat): nat
    requires at + 4 <= |s|
  {
    s[at] as int + 0x100 * (s[at + 1] as int) + 0x1_0000 * (s[at + 2] as int) + 0x100_0000 * (s[at + 3] as int)
  }

  /** A header with the magic bytes, a number below its total, and a length between 20 and 65536. */
  predicate HeaderBytes(s: seq<byte>) {
    && |s| >= 20
    && s[0] == 0x50 && s[1] == 0x44 && s[2] == 0x55 && s[3] == 0x42
    && Field(s, 4) < Field(s, 8)
    && 20 <= Field(s, 12) <= 65536
  }

  lemma FieldIsWord(s: seq<byte>, at: nat)
    requires at + 4 <= |s|
    ensures Field(s, at) == Word(s[at], s[at + 1], s[at + 2], s[at + 3])
  {
    LittleFour(s[at], s[at + 1], s[at + 2], s[at + 3]);
  }

  lemma FieldsOfHeader(s: seq<byte>)
    requires |s| >= HEADER_SIZE
    ensures var h := ReadHeader(s);
            && h.seqNo == Field(s, 4) && h.batchTotal == Field(s, 8) && h.length == Field(s, 12)
            && (h.magic == MAGIC <==> s[0] == 0x50 && s[1] == 0x44 && s[2] == 0x55 && s[3] == 0x42)
            && h.crc == BitWord(s[16], s[17], s[18], s[19])
  {
    hide Word, BitWord, Field;
    FieldIsWord(s, 4);
    FieldIsWord(s, 8);
    FieldIsWord(s, 12);
    MagicWord();
    if Word(s[0], s[1], s[2], s[3]) == MAGIC {
      WordInjective(s[0], s[1], s[2], s[3], 0x50, 0x44, 0x55, 0x42);
    }
  }

  /** A header is peeked exactly where such bytes start, and the length peeked is their length field. */
  lemma PeekBytes(s: seq<byte>)
    ensures PeekLength(s) == if HeaderBytes(s) then Field(s, 12) else 0
  {
    hide Word, BitWord, Field;
    if |s| >= 20 {
      FieldsOfHeader(s);
    }
  }

  /** A batch passes exactly if its header does, announces its size, and carries the checksum of the rest. */
  lemma OkBytes(s: seq<byte>)
    ensures ValidateBatch(s) == Ok <==>
            && HeaderBytes(s) && Field(s, 12) == |s|
            && BitWord(s[16], s[17], s[18], s[19]) == CrcOf(s[..16] + [0, 0, 0, 0] + s[20..])
  {
    hide Word, BitWord, Field, CrcOf;
    if |s| >= 20 {
      FieldsOfHeader(s);
    }
  }

  lemma BuiltPayload(seqNo: u32, batchTotal: u32, payload: seq<byte>)
    ensures Built(seqNo, batchTotal, payload)[HEADER_SIZE..] == payload
  {
    hide CrcOf, WordBytes, BitWordBytes;
  }

  /** The magic goes out low byte first. */
  lemma MagicOnWire(seqNo: u32, batchTotal: u32, payload: seq<byte>)
    ensures Built(seqNo, batchTotal, payload)[..4] == [0x50, 0x44, 0x55, 0x42]
  {
    hide CrcOf, BitWordBytes, Word, WordBytes;
    var w := WordBytes(MAGIC);
    MagicWord();
    WordInjective(w[0], w[1], w[2], w[3], 0x50, 0x44, 0x55, 0x42);
    assert w == [w[0], w[1], w[2], w[3]];
  }
}
