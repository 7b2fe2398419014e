/** Segment size detection from the sender's cut to the receiver's report. */
module Detection {
  import opened Bytes
  import opened Packet
  import opened StreamParser
  import opened Recovery
  import opened Mss
  import opened Reassembly
  import opened Sender

  // ----- a batch that arrives in any datagrams -----

  /** The slices recorded for a batch that arrives in these datagrams. */
  function Recorded(ds: seq<seq<byte>>): seq<nat> {
    if ds == [] then [] else
      var before := ds[..|ds| - 1];
      FlatStep(ds);
      Slices(Recorded(before), |Flat(before)|, |Flat(ds)|)
  }

  lemma FlatStep(ds: seq<seq<byte>>)
    requires ds != []
    ensures Flat(ds) == Flat(ds[..|ds| - 1]) + ds[|ds| - 1]
  {
    assert ds == ds[..|ds| - 1] + [ds[|ds| - 1]];
    FlatSnoc(ds[..|ds| - 1], ds[|ds| - 1]);
  }

  lemma RecordedNext(ds: seq<seq<byte>>, i: nat)
    requires i < |ds|
    ensures Flat(ds[..i + 1]) == Flat(ds[..i]) + ds[i]
    ensures Recorded(ds[..i + 1]) == Slices(Recorded(ds[..i]), |Flat(ds[..i])|, |Flat(ds[..i + 1])|)
  {
    FlatStep(ds[..i + 1]);
    assert ds[..i + 1][..i] == ds[..i];
  }

  /** Part of a batch of the session stays pending and changes nothing but the latch. */
  lemma PartKept(g: Ledger, batch: seq<byte>, m: nat)
    requires Fits(g.total, batch) && m < |batch|
    ensures var p := Parse(g, batch[..m]);
            p.pending == batch[..m] && Fits(p.ledger.total, batch) && p.ledger == g.(total := p.ledger.total)
    ensures HEADER_SIZE <= m ==> Growing(g.total, batch[..m])
  {
    assert ReadHeader(batch).length == |batch|;
    hide ReadHeader, IsOk;
    if HEADER_SIZE <= m {
      assert batch == batch[..m] + batch[m..];
      StartsPrefix(g.total, batch[..m], batch[m..]);
    }
  }

  /** How far a receiver has got with a batch after these datagrams. */
  ghost predicate Holding(stats: ServerStats, r: BatchReassembly, g: Ledger, batch: seq<byte>, ds: seq<seq<byte>>)
    reads stats, r
  {
    && Consistent(stats, r) && Standing(stats, r) == Parse(g, Flat(ds))
    && Fits(stats.wireBatchTotal, batch) && r.Pending() == Flat(ds) && r.fragmentSizes == Recorded(ds)
  }

  /** The next datagram, which does not complete the batch. */
  method ReceivePart(ghost g: Ledger, ghost batch: seq<byte>, ds: seq<seq<byte>>, i: nat,
                     stats: ServerStats, r: BatchReassembly) returns (lines: seq<OkLine>)
    requires i < |ds| && ds[i] != [] && Fits(g.total, batch) && |Flat(ds[..i + 1])| < |batch|
    requires Flat(ds[..i + 1]) == batch[..|Flat(ds[..i + 1])|] && Holding(stats, r, g, batch, ds[..i])
    modifies stats, r
    ensures lines == [] && Holding(stats, r, g, batch, ds[..i + 1])
  {
    hide ReadHeader, IsOk, Parse, Growing, Fits, Recorded;
    RecordedNext(ds, i);
    ghost var m := |Flat(ds[..i + 1])|;
    PartKept(g, batch, m);
    PartKept(stats.View(), batch, m);
    ParseAppend(g, Flat(ds[..i]), ds[i]);
    NothingFramed(stats, r);
    lines := IngestFragment(ds[i], stats, r);
    NothingFramed(stats, r);
  }

  /** Before the header is complete no slices are recorded. */
  lemma NothingFramed(stats: ServerStats, r: BatchReassembly)
    requires Consistent(stats, r)
    ensures |r.Pending()| < HEADER_SIZE ==> r.fragmentSizes == []
  {
    hide ReadHeader, Starts, Sum, AllZero;
  }

  /**
   * An idle receiver that gets one batch in any non-empty datagrams prints one line for it, with the
   * slices it arrived in, unless it is a bare header, which waits for one more byte.
   */
  method ReceiveBatch(ghost batch: seq<byte>, ds: seq<seq<byte>>, stats: ServerStats, r: BatchReassembly)
    returns (lines: seq<OkLine>)
    requires Consistent(stats, r) && !r.active && r.buffer == [] && Fits(stats.wireBatchTotal, batch)
    requires Flat(ds) == batch && forall d :: d in ds ==> d != []
    modifies stats, r
    ensures if HEADER_SIZE < |batch| then
              !r.active && r.buffer == [] && |lines| == 1 && OkLineOf(lines[0], batch, Recorded(ds))
            else r.active && r.Pending() == batch && lines == []
    ensures Consistent(stats, r) && Standing(stats, r) == Parse(old(stats.View()), batch)
  {
    hide ReadHeader, IsOk, Parse, Growing, Fits, Recorded, Consistent, Holding;
    ghost var g := stats.View();
    HoldingNothing(stats, r, g, batch, ds);
    var n := |ds| - 1;
    for i := 0 to n
      invariant Holding(stats, r, g, batch, ds[..i])
    {
      PartSize(ds, i);
      var none := ReceivePart(g, batch, ds, i, stats, r);
    }
    assert ds[n] in ds;
    lines := ReceiveLast(g, batch, ds, stats, r);
  }

  lemma HoldingNothing(stats: ServerStats, r: BatchReassembly, g: Ledger, batch: seq<byte>, ds: seq<seq<byte>>)
    requires Consistent(stats, r) && !r.active && r.buffer == [] && Fits(stats.wireBatchTotal, batch)
    requires g == stats.View() && Flat(ds) == batch
    ensures Holding(stats, r, g, batch, ds[..0]) && ds != []
  {
    hide ReadHeader, IsOk, Parse;
    ParseQuiet(g, []);
    NothingFramed(stats, r);
  }

  lemma PartSize(ds: seq<seq<byte>>, i: nat)
    requires i < |ds| - 1 && forall d :: d in ds ==> d != []
    ensures |Flat(ds[..i + 1])| < |Flat(ds)| && Flat(ds[..i + 1]) == Flat(ds)[..|Flat(ds[..i + 1])|] && ds[i] != []
  {
    assert ds == ds[..i + 1] + ds[i + 1..];
    FlatAppend(ds[..i + 1], ds[i + 1..]);
    assert ds[i + 1] in ds && ds[i] in ds;
  }

  /** The datagram that completes the batch. */
  method ReceiveLast(ghost g: Ledger, ghost batch: seq<byte>, ds: seq<seq<byte>>,
                     stats: ServerStats, r: BatchReassembly) returns (lines: seq<OkLine>)
    requires ds != [] && Flat(ds) == batch && ds[|ds| - 1] != [] && Fits(g.total, batch)
    requires Holding(stats, r, g, batch, ds[..|ds| - 1])
    modifies stats, r
    ensures if HEADER_SIZE < |batch| then
              !r.active && r.buffer == [] && |lines| == 1 && OkLineOf(lines[0], batch, Recorded(ds))
            else r.active && r.Pending() == batch && lines == []
    ensures Consistent(stats, r) && Standing(stats, r) == Parse(g, batch)
  {
    hide ReadHeader, IsOk, Parse, Starts, Recorded, OkLineOf;
    var n := |ds| - 1;
    RecordedNext(ds, n);
    assert ds[..n + 1] == ds;
    ParseAppend(g, Flat(ds[..n]), ds[n]);
    StartsSize(g.total, batch);
    if |batch| == HEADER_SIZE {
      ParseBareHeader(stats.View(), batch);
    }
    lines := IngestFragment(ds[n], stats, r);
    ActiveIffHeader(stats, r);
  }

  // ----- a batch that arrives as it was cut by the sender -----

  /** The slices recorded after i full segments. */
  function FullSlices(i: nat, mss: nat): seq<nat>
    requires 1 <= mss
  {
    if i <= HEADER_SIZE / mss then [] else
      [mss - HEADER_SIZE % mss] + seq(i - HEADER_SIZE / mss - 1, k => mss)
  }

  /** How many segments of this size the header fills, and where in the next one it ends. */
  lemma HeaderSegments(i: nat, mss: nat)
    requires 1 <= mss
    ensures HEADER_SIZE == (HEADER_SIZE / mss) * mss + HEADER_SIZE % mss
    ensures i <= HEADER_SIZE / mss <==> i * mss <= HEADER_SIZE
    ensures (i + 1) * mss == i * mss + mss
  {
    var q := HEADER_SIZE / mss;
    Divided(HEADER_SIZE, mss);
    TimesMonotone(i, q, mss);
    TimesMonotone(q + 1, i, mss);
  }

  lemma FullSlicesNext(i: nat, mss: nat)
    requires 1 <= mss
    ensures Slices(FullSlices(i, mss), i * mss, (i + 1) * mss) == FullSlices(i + 1, mss)
  {
    HeaderSegments(i, mss);
    HeaderSegments(i + 1, mss);
  }

  lemma NoSlices(c: seq<seq<byte>>, mss: nat)
    requires 1 <= mss
    ensures |Flat(c[..0])| == 0 && Recorded(c[..0]) == FullSlices(0, mss) == []
  {
  }

  lemma {:induction false} RecordedFull(c: seq<seq<byte>>, mss: nat, i: nat)
    requires 1 <= mss && i <= |c| && forall k :: 0 <= k < i ==> |c[k]| == mss
    ensures |Flat(c[..i])| == i * mss && Recorded(c[..i]) == FullSlices(i, mss)
  {
    hide Recorded, FullSlices, Slices, Flat;
    if i == 0 {
      NoSlices(c, mss);
    } else {
      RecordedFull(c, mss, i - 1);
      RecordedNext(c, i - 1);
      FullSlicesNext(i - 1, mss);
      assert |c[i - 1]| == mss;
      assert (i - 1) * mss + mss == i * mss;
    }
  }

  /** The number of segments of a batch, and the size of its last one. */
  function SegmentCount(size: nat, mss: nat): nat
    requires 1 <= mss && 1 <= size
  {
    (size - 1) / mss + 1
  }

  function LastSegment(size: nat, mss: nat): nat
    requires 1 <= mss && 1 <= size
  {
    (size - 1) % mss + 1
  }

  /** The slices of a batch of this size cut into segments: the first one starts behind the header. */
  function SegmentSlices(size: nat, mss: nat): seq<nat>
    requires 1 <= mss && HEADER_SIZE < size
  {
    var k, l := SegmentCount(size, mss) - HEADER_SIZE / mss, LastSegment(size, mss);
    if k < 2 then [size - HEADER_SIZE] else AlignedSizes(k, mss - HEADER_SIZE % mss, mss, l)
  }

  lemma SegmentLengths(batch: seq<byte>, mss: nat)
    requires 1 <= mss && batch != []
    ensures var c := Cut(batch, mss);
            && c != [] && |c| == SegmentCount(|batch|, mss) && |c[|c| - 1]| == LastSegment(|batch|, mss)
            && (forall i :: 0 <= i < |c| - 1 ==> |c[i]| == mss) && Flat(c) == batch
            && |batch| == (|c| - 1) * mss + |c[|c| - 1]|
  {
    hide Cut, Flat;
    CutShape(batch, mss);
    var c := Cut(batch, mss);
    assert |c| * mss == (|c| - 1) * mss + mss;
    Quotient(|batch| - 1, mss, |c| - 1);
  }

  /** The slices recorded for a batch cut by the sender. */
  lemma RecordedCut(batch: seq<byte>, mss: nat)
    requires 1 <= mss && HEADER_SIZE < |batch|
    ensures Recorded(Cut(batch, mss)) == SegmentSlices(|batch|, mss)
  {
    hide Recorded, Cut, Flat, SegmentCount, LastSegment;
    var c := Cut(batch, mss);
    SegmentLengths(batch, mss);
    var n := |c| - 1;
    RecordedFull(c, mss, n);
    RecordedNext(c, n);
    assert c[..n + 1] == c;
    HeaderSegments(n, mss);
    HeaderSegments(n + 1, mss);
  }

  lemma RecordedOne(batch: seq<byte>)
    requires HEADER_SIZE < |batch|
    ensures Recorded([batch]) == [|batch| - HEADER_SIZE]
  {
    RecordedNext([batch], 0);
    assert [batch][..1] == [batch] && Recorded([batch][..0]) == [];
  }

  /**
   * Exactly when the report for a batch of this size is the sender's segment size: at least two slices,
   * and enough full ones to outvote the first and the last, unless the header ends with a segment.
   */
  predicate Reported(size: nat, mss: nat)
    requires HEADER_SIZE < size
  {
    1 <= mss &&
    var k, l := SegmentCount(size, mss) - HEADER_SIZE / mss, LastSegment(size, mss);
    var first := mss - HEADER_SIZE % mss;
    k >= 4 || (k >= 2 && first == mss) || (k == 3 && l != first) || (k == 2 && l == mss)
  }

  /** The number of slices: the segments, without those that hold header bytes only. */
  function SliceCount(size: nat, mss: nat): int
    requires HEADER_SIZE < size
  {
    if mss == 0 then 1 else SegmentCount(size, mss) - HEADER_SIZE / mss
  }

  lemma OneSlice(size: nat, mss: nat)
    requires 1 <= mss && HEADER_SIZE < size
    ensures SegmentCount(size, mss) > HEADER_SIZE / mss
  {
    var q, n := HEADER_SIZE / mss, SegmentCount(size, mss);
    Divided(HEADER_SIZE, mss);
    Divided(size - 1, mss);
    TimesMonotone(n, q, mss);
  }

  lemma SegmentDetection(batch: seq<byte>, mss: nat, report: Option<nat>)
    requires HEADER_SIZE < |batch| && Detects(Recorded(Segments(batch, mss)), report)
    ensures report == Some(mss) <==> Reported(|batch|, mss)
    ensures SliceCount(|batch|, mss) == |Recorded(Segments(batch, mss))|
  {
    hide Recorded, Cut, SegmentCount, AlignedSizes;
    if mss == 0 {
      RecordedOne(batch);
    } else {
      RecordedCut(batch, mss);
      OneSlice(|batch|, mss);
      var k, l := SegmentCount(|batch|, mss) - HEADER_SIZE / mss, LastSegment(|batch|, mss);
      if k >= 2 {
        AlignedDetection(k, mss - HEADER_SIZE % mss, mss, l, report);
      }
    }
  }

  /**
   * An idle receiver that gets one batch as the sender cut it prints one line for it, and the segment
   * size on that line is the sender's exactly under the condition above, for every segment size.
   */
  method ReceiveSegments(batch: seq<byte>, mss: nat, stats: ServerStats, r: BatchReassembly)
    returns (lines: seq<OkLine>)
    requires Consistent(stats, r) && !r.active && r.buffer == [] && Fits(stats.wireBatchTotal, batch)
    modifies stats, r
    ensures if HEADER_SIZE < |batch| then
              && !r.active && r.buffer == [] && |lines| == 1
              && OkLineOf(lines[0], batch, Recorded(Segments(batch, mss)))
              && (lines[0].mss == Some(mss) <==> Reported(|batch|, mss))
              && lines[0].seqNo == ReadHeader(batch).seqNo
              && lines[0].batchTotal == ReadHeader(batch).batchTotal && lines[0].length == |batch|
              && lines[0].segs ==
                 (if SliceCount(|batch|, mss) >= 2 then Some(SliceCount(|batch|, mss)) else None)
            else r.active && r.Pending() == batch && lines == []
    ensures Consistent(stats, r) && Standing(stats, r) == Parse(old(stats.View()), batch)
  {
    hide ReadHeader, IsOk, Parse, Detects, Segments, Recorded, Consistent, OkLineOf, Reported, SliceCount;
    var segments := SendBatch(batch, mss);
    SegmentsBytes(batch, mss);
    SegmentsNonempty(batch, mss);
    lines := ReceiveBatch(batch, segments, stats, r);
    if HEADER_SIZE < |batch| {
      LineTells(lines[0], batch, Recorded(segments));
      SegmentDetection(batch, mss, lines[0].mss);
    }
  }

  lemma LineTells(line: OkLine, batch: seq<byte>, sizes: seq<nat>)
    requires OkLineOf(line, batch, sizes)
    ensures |batch| >= HEADER_SIZE && line.length == |batch|
    ensures line.seqNo == ReadHeader(batch).seqNo && line.batchTotal == ReadHeader(batch).batchTotal
    ensures Detects(sizes, line.mss) && line.segs == if |sizes| >= 2 then Some(|sizes|) else None
  {
  }
}
