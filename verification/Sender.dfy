/** The senders: a batch is built in place, cut into segments and sent; the script does the same. */
module Sender {
  import opened Bytes
  import opened Crc32
  import opened Packet

  datatype BuildError = SizeTooSmall | InvalidSeq

  // ----- building a batch in place -----

  method StoreWord(batch: array<byte>, at: nat, bytes: seq<byte>)
    requires |bytes| == 4 && at + 4 <= batch.Length
    modifies batch
    ensures batch[..] == old(batch[..])[..at] + bytes + old(batch[..])[at + 4..]
  {
    batch[at], batch[at + 1], batch[at + 2], batch[at + 3] := bytes[0], bytes[1], bytes[2], bytes[3];
  }

  /** Overwrites a field between a known prefix and a known suffix. */
  lemma FieldStored(whole: seq<byte>, before: seq<byte>, old4: seq<byte>, after: seq<byte>, new4: seq<byte>)
    requires |old4| == 4 && |new4| == 4 && whole == before + old4 + after
    ensures whole[..|before|] + new4 + whole[|before| + 4..] == before + new4 + after
  {
  }

  /** Writes the next field of a buffer s whose prefix is already written. */
  method StoreNext(batch: array<byte>, ghost prefix: seq<byte>, at: nat, field: seq<byte>, ghost s: seq<byte>)
    requires |field| == 4 && |prefix| == at && at + 4 <= |s| && batch[..] == prefix + s[at..]
    modifies batch
    ensures batch[..] == prefix + field + s[at + 4..]
  {
    StoreWord(batch, at, field);
  }

  /** Writes the header words in front of a payload, the checksum field zero. */
  method WriteFields(batch: array<byte>, seqNo: u32, batchTotal: u32)
    requires HEADER_SIZE <= batch.Length
    modifies batch
    ensures batch[..] == Layout(seqNo, batchTotal, batch.Length % WRAP, 0, old(batch[HEADER_SIZE..]))
  {
    hide WordBytes, BitWordBytes;
    ghost var s := batch[..];
    var m, q, t := WordBytes(MAGIC), WordBytes(seqNo), WordBytes(batchTotal);
    var l, c := WordBytes(batch.Length % WRAP), BitWordBytes(0);
    assert s == [] + s[0..] && [] + m == m;
    StoreNext(batch, [], 0, m, s);
    StoreNext(batch, m, 4, q, s);
    StoreNext(batch, m + q, 8, t, s);
    StoreNext(batch, m + q + t, 12, l, s);
    StoreNext(batch, m + q + t + l, 16, c, s);
  }

  /** Writes the header in front of a payload, the checksum last. */
  method WriteHeader(batch: array<byte>, seqNo: u32, batchTotal: u32)
    requires HEADER_SIZE <= batch.Length
    modifies batch
    ensures batch[..] == Built(seqNo, batchTotal, old(batch[HEADER_SIZE..]))
  {
    hide CrcOf, WordBytes, BitWordBytes;
    ghost var payload := batch[HEADER_SIZE..];
    WriteFields(batch, seqNo, batchTotal);
    var crc := BatchCrc32(batch[..]);
    ghost var length := batch.Length % WRAP;
    ghost var before := WordBytes(MAGIC) + WordBytes(seqNo) + WordBytes(batchTotal) + WordBytes(length);
    FieldStored(batch[..], before, BitWordBytes(0), payload, BitWordBytes(crc));
    StoreWord(batch, 16, BitWordBytes(crc));
  }

  /** Builds a batch in the caller's buffer; random holds the payload bytes that are drawn. */
  method BuildBatch(batch: array<byte>, seqNo: u32, batchTotal: u32, random: seq<byte>)
    returns (error: Option<BuildError>)
    requires batch.Length <= HEADER_SIZE + |random|
    modifies batch
    ensures error == if batch.Length < HEADER_SIZE then Some(SizeTooSmall)
                     else if batchTotal == 0 || seqNo >= batchTotal then Some(InvalidSeq) else None
    ensures error.Some? ==> batch[..] == old(batch[..])
    ensures error.None? ==> batch[..] == Built(seqNo, batchTotal, random[..batch.Length - HEADER_SIZE])
  {
    hide Built;
    if batch.Length < HEADER_SIZE {
      return Some(SizeTooSmall);
    }
    if batchTotal == 0 || seqNo >= batchTotal {
      return Some(InvalidSeq);
    }
    for i := HEADER_SIZE to batch.Length
      invariant batch[HEADER_SIZE..i] == random[..i - HEADER_SIZE]
    {
      batch[i] := random[i - HEADER_SIZE];
    }
    assert batch[HEADER_SIZE..] == batch[HEADER_SIZE..batch.Length];
    WriteHeader(batch, seqNo, batchTotal);
    return None;
  }

  // ----- cutting a batch into datagrams -----

  /** Segments of mss bytes, the last one shorter; one datagram for mss 0. */
  function Segments(data: seq<byte>, mss: nat): seq<seq<byte>> {
    if mss == 0 then [data] else Cut(data, mss)
  }

  function Cut(data: seq<byte>, mss: nat): seq<seq<byte>>
    requires mss > 0
  {
    if data == [] then []
    else if |data| <= mss then [data]
    else [data[..mss]] + Cut(data[mss..], mss)
  }

  lemma CutStep(s: seq<byte>, mss: nat, k: nat)
    requires mss > 0 && s != [] && k == if mss < |s| then mss else |s|
    ensures Cut(s, mss) == [s[..k]] + Cut(s[k..], mss)
  {
    if k == |s| {
      assert s[..k] == s && s[k..] == [];
    }
  }

  lemma {:induction false} CutFlat(data: seq<byte>, mss: nat)
    requires mss > 0
    ensures Flat(Cut(data, mss)) == data
    decreases |data|
  {
    if data != [] {
      var k := if mss < |data| then mss else |data|;
      CutStep(data, mss, k);
      CutFlat(data[k..], mss);
    }
  }

  lemma {:induction false} CutLengths(data: seq<byte>, mss: nat)
    requires mss > 0 && data != []
    ensures var c := Cut(data, mss);
            && c != [] && 1 <= |c[|c| - 1]| <= mss && |data| == Total(|c| - 1, mss) + |c[|c| - 1]|
            && forall i :: 0 <= i < |c| - 1 ==> |c[i]| == mss
    decreases |data|
  {
    hide Cut;
    var k := if mss < |data| then mss else |data|;
    CutStep(data, mss, k);
    if k < |data| {
      CutLengths(data[k..], mss);
    } else {
      CutNothing(mss);
      assert data[k..] == [];
    }
  }

  lemma CutNothing(mss: nat)
    requires mss > 0
    ensures Cut([], mss) == []
  {
  }

  /** The bytes of n full segments. */
  function Total(n: nat, mss: nat): nat {
    if n == 0 then 0 else Total(n - 1, mss) + mss
  }

  lemma {:induction false} TotalIsProduct(n: nat, mss: nat)
    ensures Total(n, mss) == n * mss
  {
    if n > 0 {
      TotalIsProduct(n - 1, mss);
      assert (n - 1) * mss + mss == n * mss;
    }
  }

  /** Cutting loses nothing, and every segment but the last has mss bytes. */
  lemma CutShape(data: seq<byte>, mss: nat)
    requires mss > 0
    ensures var c := Cut(data, mss);
            && Flat(c) == data
            && (forall i :: 0 <= i < |c| - 1 ==> |c[i]| == mss)
            && (data != [] ==> c != [] && 1 <= |c[|c| - 1]| <= mss && |data| == (|c| - 1) * mss + |c[|c| - 1]|)
  {
    CutFlat(data, mss);
    if data != [] {
      CutLengths(data, mss);
      TotalIsProduct(|Cut(data, mss)| - 1, mss);
    }
  }

  lemma SegmentsBytes(data: seq<byte>, mss: nat)
    ensures Flat(Segments(data, mss)) == data
  {
    if mss == 0 {
      assert Flat([data]) == data + Flat<byte>([]);
    } else {
      CutShape(data, mss);
    }
  }

  lemma SegmentsNonempty(b: seq<byte>, mss: nat)
    requires b != []
    ensures forall d :: d in Segments(b, mss) ==> d != []
  {
    if mss > 0 {
      CutShape(b, mss);
      var c := Cut(b, mss);
      forall d | d in c ensures d != [] {
        var i :| 0 <= i < |c| && c[i] == d;
        assert i < |c| - 1 ==> |c[i]| == mss;
      }
    }
  }

  /** The datagrams a batch is sent in. */
  method SendBatch(data: seq<byte>, mss: nat) returns (sent: seq<seq<byte>>)
    ensures sent == Segments(data, mss)
    ensures mss == 0 ==> sent == [data]
  {
    if mss == 0 {
      return [data];
    }
    hide Cut;
    CutNothing(mss);
    var offset := 0;
    sent := [];
    assert data[0..] == data;
    while offset < |data|
      invariant offset <= |data|
      invariant sent + Cut(data[offset..], mss) == Cut(data, mss)
    {
      var chunk := if mss < |data| - offset then mss else |data| - offset;
      assert data[offset..][chunk..] == data[offset + chunk..];
      assert data[offset..][..chunk] == data[offset..offset + chunk];
      CutStep(data[offset..], mss, chunk);
      sent := sent + [data[offset..offset + chunk]];
      offset := offset + chunk;
    }
  }

  // ----- a run of the client -----

  /** The batches numbered 0, 1, ... with these payloads. */
  function Batches(batchTotal: u32, payloads: seq<seq<byte>>): (bs: seq<seq<byte>>)
    requires |payloads| <= WRAP
    ensures |bs| == |payloads|
  {
    seq(|payloads|, i requires 0 <= i < |payloads| => Built(i, batchTotal, payloads[i]))
  }

  /** The datagrams of a list of batches. */
  function Wire(bs: seq<seq<byte>>, mss: nat): seq<seq<byte>> {
    if bs == [] then [] else Wire(bs[..|bs| - 1], mss) + Segments(bs[|bs| - 1], mss)
  }

  /** The datagrams carry the batches' bytes, in order. */
  lemma {:induction false} WireBytes(bs: seq<seq<byte>>, mss: nat)
    ensures Flat(Wire(bs, mss)) == Flat(bs)
  {
    hide Segments;
    if bs != [] {
      var n := |bs| - 1;
      WireBytes(bs[..n], mss);
      FlatAppend(Wire(bs[..n], mss), Segments(bs[n], mss));
      assert bs == bs[..n] + [bs[n]];
      FlatSnoc(bs[..n], bs[n]);
      SegmentsBytes(bs[n], mss);
    }
  }

  /**
   * How many batches a client run sends: the sequence numbers and the total are truncated to 32 bits, so
   * a count of 2^32 or more is cut short by the first number that is not below the truncated total.
   */
  function SentCount(count: nat): nat {
    if count < WRAP then count else count % WRAP
  }

  method RunClient(count: nat, size: nat, mss: nat, payloads: seq<seq<byte>>)
    returns (error: Option<BuildError>, sent: seq<seq<byte>>)
    requires HEADER_SIZE <= size && |payloads| == count
    requires forall i :: 0 <= i < count ==> |payloads[i]| == size - HEADER_SIZE
    ensures error == if count < WRAP then None else Some(InvalidSeq)
    ensures sent == Wire(Batches(count % WRAP, payloads[..SentCount(count)]), mss)
  {
    hide Segments, Built, Wire, Batches;
    WireNothing(count % WRAP, payloads, mss);
    var batch := new byte[size];
    var total := count % WRAP;
    sent := [];
    for i := 0 to count
      invariant i <= SentCount(count)
      invariant sent == Wire(Batches(total, payloads[..i]), mss)
    {
      error := BuildBatch(batch, i % WRAP, total, payloads[i]);
      if error.Some? {
        return;
      }
      assert payloads[i][..size - HEADER_SIZE] == payloads[i];
      var datagrams := SendBatch(batch[..], mss);
      WireNext(total, payloads, i, mss);
      sent := sent + datagrams;
    }
    error := None;
  }

  lemma WireNothing(batchTotal: u32, payloads: seq<seq<byte>>, mss: nat)
    ensures Wire(Batches(batchTotal, payloads[..0]), mss) == []
  {
  }

  lemma WireNext(batchTotal: u32, payloads: seq<seq<byte>>, i: nat, mss: nat)
    requires i < |payloads| && i < WRAP
    ensures Wire(Batches(batchTotal, payloads[..i + 1]), mss) ==
            Wire(Batches(batchTotal, payloads[..i]), mss) + Segments(Built(i, batchTotal, payloads[i]), mss)
  {
    hide Built, Segments;
    var bs, next := Batches(batchTotal, payloads[..i]), Batches(batchTotal, payloads[..i + 1]);
    assert next == bs + [Built(i, batchTotal, payloads[i])];
    assert next[..|next| - 1] == bs;
  }
}
