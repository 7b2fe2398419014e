/** Streams that reach the rare paths: a batch salvaged out of a corrupt one, and a loss that is recovered from. */
module Instances {
  import opened Bytes
  import opened Crc32
  import opened Packet
  import opened StreamParser
  import opened StreamProperties
  import opened Recovery
  import opened EndToEnd
  import opened Resync

  /** No header starts here, because the four bytes are not the magic. */
  lemma NoMagic(total: Option<u32>, s: seq<byte>, k: nat)
    requires k + 4 <= |s| && s[k..k + 4] != [0x50, 0x44, 0x55, 0x42]
    ensures !Starts(total, s[k..])
  {
    hide Word, BitWord;
    var t := s[k..];
    assert s[k..k + 4] == [t[0], t[1], t[2], t[3]];
    if Starts(total, t) {
      MagicWord();
      WordInjective(t[0], t[1], t[2], t[3], 0x50, 0x44, 0x55, 0x42);
    }
  }

  /** The header of batch 0 of 2 or 3, followed by another header. */
  ghost predicate TwoHeaders(s: seq<byte>) {
    && 24 <= |s|
    && s[0..4] == [0x50, 0x44, 0x55, 0x42]
    && s[4..8] == [0, 0, 0, 0] && s[8] <= 3 && s[9..12] == [0, 0, 0]
    && s[14] <= 1 && s[15] == 0
    && s[16..20] != [0x50, 0x44, 0x55, 0x42]
    && s[20..24] == [0x50, 0x44, 0x55, 0x42]
  }

  /** Between the two headers no header starts. */
  lemma NothingBetween(total: Option<u32>, s: seq<byte>, k: nat)
    requires TwoHeaders(s) && 1 <= k < 20
    ensures !Starts(total, s[k..])
  {
    hide Starts;
    var m, q, t, inner := s[0..4], s[4..8], s[9..12], s[20..24];
    assert m[1] == s[1] && m[2] == s[2] && m[3] == s[3];
    assert q[0] == s[4] && q[1] == s[5] && q[2] == s[6] && q[3] == s[7];
    assert t[0] == s[9] && t[1] == s[10] && t[2] == s[11];
    assert inner[0] == s[20] && inner[1] == s[21] && inner[2] == s[22];
    var w := s[k..k + 4];
    assert w == [s[k], s[k + 1], s[k + 2], s[k + 3]];
    NoMagic(total, s, k);
  }

  /** The header bytes of batch 0 of 2 or 3. */
  lemma OuterHeader(n: u32, length: u32, crc: bv32, payload: seq<byte>)
    requires n in {2, 3} && length < 0x2_0000
    ensures var s := Layout(0, n, length, crc, payload);
            && s[0..4] == [0x50, 0x44, 0x55, 0x42]
            && s[4..8] == [0, 0, 0, 0] && s[8] == n && s[9..12] == [0, 0, 0]
            && s[14] <= 1 && s[15] == 0 && s[16..20] == BitWordBytes(crc) && s[20..] == payload
  {
    hide BitWordBytes, Word;
    var s := Layout(0, n, length, crc, payload);
    assert WordBytes(MAGIC) == [0x50, 0x44, 0x55, 0x42];
    assert WordBytes(0) == [0, 0, 0, 0] && WordBytes(n) == [n, 0, 0, 0];
    assert s[0..4] == WordBytes(MAGIC) && s[4..8] == WordBytes(0);
    assert s[8..12] == WordBytes(n) && s[12..16] == WordBytes(length);
    assert s[8] == s[8..12][0] && s[9..12] == s[8..12][1..];
    assert s[14] == s[12..16][2] && s[15] == s[12..16][3];
  }

  /** A batch wrapped into the payload of a corrupt one: batch 0 of n with some checksum around batch q. */
  function Wrapped(n: u32, q: u32, crc: bv32, payload: seq<byte>): (s: seq<byte>)
    requires HEADER_SIZE + HEADER_SIZE + |payload| <= MAX_LENGTH
    ensures |s| == HEADER_SIZE + HEADER_SIZE + |payload|
  {
    Layout(0, n, HEADER_SIZE + HEADER_SIZE + |payload|, crc, Built(q, n, payload))
  }

  lemma WrappedHeaders(n: u32, q: u32, crc: bv32, payload: seq<byte>)
    requires HEADER_SIZE + HEADER_SIZE + |payload| <= MAX_LENGTH && LowByte(crc) != 0x50 && n in {2, 3}
    ensures var s := Wrapped(n, q, crc, payload);
            TwoHeaders(s) && s[20..] == Built(q, n, payload) && ReadHeader(s) == Header(MAGIC, 0, n, |s|, crc)
  {
    hide Built, Layout, ReadHeader, BitWordBytes, LowByte;
    var s := Wrapped(n, q, crc, payload);
    var inner := Built(q, n, payload);
    OuterHeader(n, |s|, crc, inner);
    ReadLayout(0, n, |s|, crc, inner);
    MagicOnWire(q, n, payload);
    assert s[20..24] == s[20..][..4];
    FirstChecksumByte(crc);
  }

  lemma FirstChecksumByte(crc: bv32)
    requires LowByte(crc) != 0x50
    ensures BitWordBytes(crc) != [0x50, 0x44, 0x55, 0x42]
  {
    hide LowByte;
  }

  lemma WrappedShape(n: u32, q: u32, crc: bv32, payload: seq<byte>)
    requires HEADER_SIZE + HEADER_SIZE + |payload| <= MAX_LENGTH && LowByte(crc) != 0x50
    requires n in {2, 3} && q < n
    ensures var s := Wrapped(n, q, crc, payload);
            var inner := Built(q, n, payload);
            && TwoHeaders(s) && s[20..] == inner && IsOk(inner) && Starts(Some(n), inner)
            && ReadHeader(inner).seqNo == q && ReadHeader(inner).length == |inner|
            && ReadHeader(s) == Header(MAGIC, 0, n, |s|, crc)
  {
    hide Built, Wrapped, ReadHeader, ValidateBatch, TwoHeaders;
    WrappedHeaders(n, q, crc, payload);
    BuiltVerdict(q, n, payload);
    OkStarts(Built(q, n, payload));
  }

  /** The inner batch is carried if it is the next one. */
  lemma WrappedSalvage(n: u32, crc: bv32, payload: seq<byte>)
    requires HEADER_SIZE + HEADER_SIZE + |payload| <= MAX_LENGTH && LowByte(crc) != 0x50 && n in {2, 3}
    ensures SalvageAt(Wrapped(n, 1, crc, payload), Some(n)) == HEADER_SIZE
  {
    hide Wrapped, Built, ReadHeader, ValidateBatch, Starts, TwoHeaders, Sought;
    var s := Wrapped(n, 1, crc, payload);
    WrappedShape(n, 1, crc, payload);
    forall k | 1 <= k < HEADER_SIZE ensures !Sought(s, Some(n), k) {
      SoughtIsCandidate(s, Some(n), k);
      NothingBetween(Some(n), s, k);
    }
    SoughtIsCandidate(s, Some(n), 20);
    assert s[20..20 + |s[20..]|] == s[20..];
    SalvageExact(s, Some(n), 20);
  }

  /** Batch 2 inside a corrupt batch 0 of 3 is not carried: it is not the next one. */
  lemma WrappedOther(crc: bv32, p: byte)
    requires LowByte(crc) != 0x50
    ensures var s := Wrapped(3, 2, crc, [p]); SalvageAt(s, Some(3)) == |s|
  {
    hide Wrapped, Built, ReadHeader, ValidateBatch, Starts, TwoHeaders, SalvageAt;
    var s := Wrapped(3, 2, crc, [p]);
    WrappedShape(3, 2, crc, [p]);
    var at := SalvageAt(s, Some(3));
    if at < |s| {
      SalvagedNumber(s, Some(3));
      SalvageExact(s, Some(3), at);
      SoughtIsCandidate(s, Some(3), at);
      if at < 20 {
        NothingBetween(Some(3), s, at);
      } else if at == 21 {
        MagicOnWire(2, 3, [p]);
        assert s[21..25][0] == s[20..][..4][1];
        NoMagic(Some(3), s, 21);
      }
      assert false;
    }
  }

  /**
   * A whole run through the salvage path: the corrupt batch counts as bad, the batch inside it is
   * recovered, and the session goes on with nothing pending.
   */
  lemma WrappedBatchRecovered(n: u32, crc: bv32, payload: seq<byte>)
    requires 1 <= |payload| && HEADER_SIZE + HEADER_SIZE + |payload| <= MAX_LENGTH && n in {2, 3}
    requires LowByte(crc) != 0x50 && !IsOk(Wrapped(n, 1, crc, payload))
    ensures var s := Wrapped(n, 1, crc, payload);
            Parse(NEW_SESSION, s) == Parsed(Ledger(|s|, [Span(HEADER_SIZE, |s| - HEADER_SIZE, 1)], 1, 1, Some(n)), [])
  {
    hide Wrapped, Built, ReadHeader, ValidateBatch, TwoHeaders, Parse, SalvageAt;
    var s := Wrapped(n, 1, crc, payload);
    WrappedShape(n, 1, crc, payload);
    WrappedSalvage(n, crc, payload);
    var l := Latch(NEW_SESSION, n);
    var c := Complete(l, s);
    WholeFails(s);
    var inner := s[20..];
    assert c == Parsed(Reject(l, 20, true), inner);
    TakeBatch(c.ledger, inner, []);
    assert inner + [] == inner;
    ParseQuiet(Taken(c.ledger, inner), []);
  }

  /** The same with batch 2 inside batch 0 of 3: nothing is accepted, although batch 2 would pass. */
  lemma WrappedOtherDropped(crc: bv32, p: byte)
    requires LowByte(crc) != 0x50 && !IsOk(Wrapped(3, 2, crc, [p]))
    ensures var s := Wrapped(3, 2, crc, [p]);
            && s[20..] == Built(2, 3, [p]) && IsOk(Built(2, 3, [p]))
            && Parse(NEW_SESSION, s) == Parsed(Ledger(|s|, [], 1, 0, Some(3)), [])
  {
    hide Wrapped, Built, ReadHeader, ValidateBatch, TwoHeaders, Parse, SalvageAt;
    var s := Wrapped(3, 2, crc, [p]);
    WrappedShape(3, 2, crc, [p]);
    WrappedOther(crc, p);
    WholeFails(s);
    var l := Latch(NEW_SESSION, 3);
    assert Complete(l, s) == Parsed(Reject(l, |s|, false), []);
    ParseQuiet(Reject(l, |s|, false), []);
  }

  lemma WholeFails(s: seq<byte>)
    requires Starts(None, s) && ReadHeader(s).length == |s| > HEADER_SIZE
    ensures var c := Complete(Latch(NEW_SESSION, ReadHeader(s).batchTotal), s);
            Parse(NEW_SESSION, s) == Parse(c.ledger, c.pending)
  {
    hide ReadHeader, Complete;
    var c := Complete(Latch(NEW_SESSION, ReadHeader(s).batchTotal), s);
    assert s[..|s|] == s && c.pending + s[|s|..] == c.pending;
  }

  /** Two batches of one payload byte each, the first of which loses that byte. */
  lemma LossInstance(p: byte)
    requires p != 0x50 && Built(0, 2, [p])[16..20] != [0x50, 0x44, 0x55, 0x42]
    ensures Damaged(2, 21, Built(0, 2, [p])[..20], Built(1, 2, [p]), [])
  {
    hide Built, ReadHeader, ValidateBatch, Starts, TwoHeaders;
    var a, next := Built(0, 2, [p]), Built(1, 2, [p]);
    var left := a[..20];
    var t := left + next + [];
    LossHeaders(p);
    assert t == left + next;
    assert left == a[..HEADER_SIZE] && left[..HEADER_SIZE] == left;
    LostByte(p);
    forall i | 1 <= i < 41 && i != 20 ensures !Starts(Some(2), t[i..]) {
      if i < 20 {
        NothingBetween(Some(2), t, i);
      } else if i == 21 {
        assert t[21..25][0] == next[1];
        NoMagic(Some(2), t, 21);
      } else {
        TooShort(Some(2), t[i..]);
      }
    }
  }

  lemma TooShort(total: Option<u32>, s: seq<byte>)
    requires |s| < HEADER_SIZE
    ensures !Starts(total, s)
  {
  }

  lemma LossHeaders(p: byte)
    requires Built(0, 2, [p])[16..20] != [0x50, 0x44, 0x55, 0x42]
    ensures var a, next := Built(0, 2, [p]), Built(1, 2, [p]);
            && IsOk(a) && Starts(Some(2), a[..20]) && ReadHeader(a[..20]).length == 21
            && Starts(Some(2), next) && ReadHeader(next).length == 21 && next[1] == 0x44 && next[0] == 0x50
            && TwoHeaders(a[..20] + next)
  {
    hide Layout, ReadHeader, ValidateBatch, Starts, Word, BitWord, CrcOf;
    var a, next := Built(0, 2, [p]), Built(1, 2, [p]);
    BuiltVerdict(0, 2, [p]);
    BuiltVerdict(1, 2, [p]);
    OkStarts(a);
    OkStarts(next);
    assert a == a[..20] + a[20..];
    StartsPrefix(Some(2), a[..20], a[20..]);
    MagicOnWire(1, 2, [p]);
    OuterHeader(2, 21, BatchCrc(Layout(0, 2, 21, 0, [p])), [p]);
    assert next[..4][0] == next[0] && next[..4][1] == next[1];
    var s := a[..20] + next;
    assert s[0..4] == a[0..4] && s[4..8] == a[4..8] && s[8] == a[8] && s[9..12] == a[9..12];
    assert s[16..20] == a[16..20] && s[20..24] == next[..4];
  }

  /** The slice that takes its last byte from the next batch does not pass. */
  lemma LostByte(p: byte)
    requires p != 0x50 && Built(0, 2, [p])[16..20] != [0x50, 0x44, 0x55, 0x42]
    ensures !IsOk((Built(0, 2, [p])[..20] + Built(1, 2, [p]))[..21])
  {
    hide Built, ReadHeader, ValidateBatch, Starts, TwoHeaders;
    var a, next := Built(0, 2, [p]), Built(1, 2, [p]);
    LossHeaders(p);
    BuiltPayload(0, 2, [p]);
    var spliced := (a[..20] + next)[..21];
    assert a[20] == a[20..][0] && spliced[20] == next[0];
    assert a[..20] == spliced[..20] && a[21..] == spliced[21..] == [];
    BurstRejected(a, spliced, 20, 21);
  }

  /** The hypotheses of the recovery theorem can be met: one of two payloads gives such a loss. */
  lemma LossesExist()
    ensures exists p: byte :: Damaged(2, 21, Built(0, 2, [p])[..20], Built(1, 2, [p]), [])
  {
    hide Built, Damaged, CrcOf, Zeroed, BitWord, Word, Layout;
    var a, b := Built(0, 2, [0]), Built(0, 2, [1]);
    if a[16..20] != [0x50, 0x44, 0x55, 0x42] {
      LossInstance(0);
    } else {
      if b[16..20] == [0x50, 0x44, 0x55, 0x42] {
        SameField(a, b);
        assert false;
      }
      LossInstance(1);
    }
  }

  /** Batches of different payload bytes do not share their checksum. */
  lemma SameField(a: seq<byte>, b: seq<byte>)
    requires a == Built(0, 2, [0]) && b == Built(0, 2, [1])
    ensures a[16..20] != b[16..20]
  {
    hide CrcOf, WordBytes, BitWordBytes, ValidateBatch, ReadHeader;
    BuiltVerdict(0, 2, [0]);
    BuiltVerdict(0, 2, [1]);
    BuiltPayload(0, 2, [0]);
    BuiltPayload(0, 2, [1]);
    assert a[20] == a[20..][0] && b[20] == b[20..][0];
    if a[16..20] == b[16..20] {
      assert a[..16] == b[..16];
      assert a[..20] == a[..16] + a[16..20] && b[..20] == b[..16] + b[16..20];
      assert a[21..] == [] && b[21..] == [];
      BurstRejected(a, b, 20, 21);
    }
  }
}
