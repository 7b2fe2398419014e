/** The Python sender used against the Linux server: the same wire bytes, with a generated payload. */
module Script {
  import opened Bytes
  import opened Packet
  import opened Sender

  /** The generator after k steps from a start value. */
  function LcgState(start: int, k: nat): int {
    if k == 0 then start else (LcgState(start, k - 1) * 1103515245 + 12345) % WRAP
  }

  function LcgPayload(start: int, n: nat): (p: seq<byte>)
    ensures |p| == n
  {
    seq(n, k requires 0 <= k < n => LcgState(start, k + 1) % 0x100)
  }

  lemma LcgNone(start: int)
    ensures LcgPayload(start, 0) == []
  {
  }

  lemma LcgNext(start: int, k: nat)
    ensures LcgPayload(start, k + 1) == LcgPayload(start, k) + [LcgState(start, k + 1) % 0x100]
  {
  }

  predicate Packs(x: int) {
    0 <= x < WRAP
  }

  method FillPayload(payload: array<byte>, start: int)
    requires HEADER_SIZE <= payload.Length
    modifies payload
    ensures payload[HEADER_SIZE..] == LcgPayload(start, payload.Length - HEADER_SIZE)
  {
    hide LcgPayload;
    LcgNone(start);
    var state := start;
    for i := HEADER_SIZE to payload.Length
      invariant state == LcgState(start, i - HEADER_SIZE)
      invariant payload[HEADER_SIZE..i] == LcgPayload(start, i - HEADER_SIZE)
    {
      state := (state * 1103515245 + 12345) % WRAP;
      payload[i] := state % 0x100;
      LcgNext(start, i - HEADER_SIZE);
      assert payload[HEADER_SIZE..i + 1] == payload[HEADER_SIZE..i] + [payload[i]];
    }
    assert payload[HEADER_SIZE..payload.Length] == payload[HEADER_SIZE..];
  }

  /** None is the exception: a size below the header, or a field that does not fit 32 bits. */
  method BuildBatch(seqNo: int, batchTotal: int, size: int, seed: int) returns (r: Option<seq<byte>>)
    ensures r.Some? <==> HEADER_SIZE <= size && Packs(seqNo) && Packs(batchTotal) && Packs(size)
    ensures r.Some? ==> r.value == Built(seqNo, batchTotal, LcgPayload(seed + seqNo * 10007, size - HEADER_SIZE))
  {
    hide Built, LcgPayload;
    if size < HEADER_SIZE {
      return None;
    }
    var payload := new byte[size](_ => 0);
    FillPayload(payload, seed + seqNo * 10007);
    if !Packs(seqNo) || !Packs(batchTotal) || !Packs(size) {
      return None;
    }
    WriteHeader(payload, seqNo, batchTotal);
    r := Some(payload[..]);
  }

  /** The slice from off to end, where a negative end counts from the end of the data. */
  function Slice(data: seq<byte>, off: nat, end: int): (s: seq<byte>)
    requires off < |data|
    ensures end > off ==> s != []
    ensures end <= off ==> off + |s| < |data|
  {
    var bound := if end < 0 then end + |data| else end;
    if bound <= off then [] else if bound < |data| then data[off..bound] else data[off..]
  }

  /** The offset after k passes of the sending loop. */
  function OffsetAfter(data: seq<byte>, mss: int, k: nat): (off: nat)
    ensures off <= |data|
  {
    if k == 0 then 0 else
      var off := OffsetAfter(data, mss, k - 1);
      if off < |data| then off + |Slice(data, off, off + mss)| else off
  }

  /** The loop ends exactly when there is something to cut off in every pass, or nothing to send. */
  lemma LoopEnds(data: seq<byte>, mss: int)
    ensures (exists k :: OffsetAfter(data, mss, k) >= |data|) <==> mss >= 1 || data == []
  {
    if mss >= 1 {
      Advances(data, mss, |data|);
    } else if data == [] {
      assert OffsetAfter(data, mss, 0) >= |data|;
    } else {
      forall k ensures OffsetAfter(data, mss, k) < |data| {
        NeverThere(data, mss, k);
      }
    }
  }

  lemma {:induction false} Advances(data: seq<byte>, mss: int, k: nat)
    requires mss >= 1
    ensures OffsetAfter(data, mss, k) >= k || OffsetAfter(data, mss, k) == |data|
  {
    if k > 0 {
      Advances(data, mss, k - 1);
    }
  }

  lemma {:induction false} NeverThere(data: seq<byte>, mss: int, k: nat)
    requires mss <= 0 && data != []
    ensures OffsetAfter(data, mss, k) < |data|
  {
    if k > 0 {
      NeverThere(data, mss, k - 1);
    }
  }

  /**
   * A slice of at most mss bytes is sent until nothing is left. An empty slice leaves the offset where it
   * is, so that empty datagrams follow for ever; this is reported instead.
   */
  method SendUsoLike(data: seq<byte>, mss: int) returns (ends: bool, sent: seq<seq<byte>>, segs: nat)
    ensures ends <==> exists k :: OffsetAfter(data, mss, k) >= |data|
    ensures ends && mss >= 1 ==> sent == Cut(data, mss)
    ensures ends && mss < 1 ==> data == [] && sent == []
    ensures !ends ==> Flat(sent) < data
    ensures segs == |sent|
  {
    hide Cut, Slice, OffsetAfter;
    LoopEnds(data, mss);
    if mss >= 1 {
      CutNothing(mss);
    }
    segs := 0;
    var off := 0;
    sent := [];
    assert data[0..] == data;
    while off < |data|
      invariant off <= |data| && segs == |sent| && Flat(sent) == data[..off]
      invariant mss >= 1 ==> sent + Cut(data[off..], mss) == Cut(data, mss)
      invariant mss < 1 ==> if data == [] then sent == [] else off < |data|
    {
      var chunk := Slice(data, off, off + mss);
      if chunk == [] {
        return false, sent, segs;
      }
      SliceIsNext(data, off, mss);
      if mss >= 1 {
        CutStep(data[off..], mss, |chunk|);
      }
      FlatSnoc(sent, chunk);
      sent := sent + [chunk];
      segs := segs + 1;
      off := off + |chunk|;
    }
    assert data[off..] == [] && sent + [] == sent && data[..off] == data;
    ends := true;
  }

  lemma SliceIsNext(data: seq<byte>, off: nat, mss: int)
    requires off < |data|
    ensures var chunk := Slice(data, off, off + mss);
            && off + |chunk| <= |data| && data[..off] + chunk == data[..off + |chunk|]
            && data[off..][..|chunk|] == chunk && data[off..][|chunk|..] == data[off + |chunk|..]
            && (mss >= 1 ==> |chunk| == if mss < |data| - off then mss else |data| - off)
  {
  }
}
