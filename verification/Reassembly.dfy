/** The receiver's mutable state and the loops that reassemble batches from datagrams. */
module Reassembly {
  import opened Bytes
  import opened Packet
  import opened History
  import opened StreamParser
  import opened Recovery
  import opened Mss

  /** The session counters. The ghost fields record what was consumed and accepted, for the specification. */
  class ServerStats {
    var batches: nat
    var fragments: nat
    var badBatches: nat
    var lost: nat
    var duplicates: nat
    var outOfOrder: nat
    var seenSeq: set<u32>
    var haveSeq: bool
    var highestSeq: u32
    var wireBatchTotal: Option<u32>
    ghost var pos: nat
    ghost var log: seq<Span>
    ghost var carries: nat

    constructor ()
      ensures Valid() && View() == NEW_SESSION && fragments == 0 && lost == 0
    {
      batches, fragments, badBatches, lost, duplicates, outOfOrder := 0, 0, 0, 0, 0, 0;
      seenSeq, haveSeq, highestSeq, wireBatchTotal := {}, false, 0, None;
      pos, log, carries := 0, [], 0;
      EmptyHistory();
    }

    ghost function View(): Ledger
      reads this
    {
      Ledger(pos, log, badBatches, carries, wireBatchTotal)
    }

    /** The tracking fields say what they should about the accepted sequence numbers q. */
    ghost predicate Tracks(q: seq<u32>)
      reads this
    {
      && seenSeq == SeenSet(q)
      && duplicates == Duplicates(q)
      && outOfOrder == OutOfOrder(q)
      && haveSeq == (q != [])
      && (if haveSeq then IsHighest(q, highestSeq) else highestSeq == 0)
    }

    ghost predicate Valid()
      reads this
    {
      batches == |log| && Tracks(Seqs(log))
    }

    method TrackSequence(ghost q: seq<u32>, seqNo: u32)
      requires Tracks(q)
      modifies `duplicates, `outOfOrder, `seenSeq, `haveSeq, `highestSeq
      ensures Tracks(q + [seqNo])
    {
      hide Duplicates, OutOfOrder;
      SeenAppend(q, seqNo);
      DuplicatesAppend(q, seqNo);
      OutOfOrderAppend(q, seqNo);
      assert seqNo in seenSeq <==> seqNo in q;
      if seqNo in seenSeq {
        duplicates := duplicates + 1;
        assert seenSeq + {seqNo} == seenSeq;
        return;
      }
      if haveSeq && seqNo < highestSeq {
        outOfOrder := outOfOrder + 1;
      }
      seenSeq := seenSeq + {seqNo};
      if !haveSeq {
        haveSeq := true;
        highestSeq := seqNo;
      } else {
        highestSeq := if highestSeq < seqNo then seqNo else highestSeq;
      }
    }

    method CountFragment()
      requires Valid()
      modifies `fragments
      ensures Valid() && fragments == old(fragments) + 1
    {
      fragments := fragments + 1;
    }

    method CountFailure()
      requires Valid()
      modifies `badBatches
      ensures Valid() && View() == old(View()).(bad := old(badBatches) + 1)
    {
      badBatches := badBatches + 1;
    }

    /** Records how far a failed batch was skipped, and whether its tail is parsed again. */
    ghost method Skip(n: nat, resumed: bool)
      requires Valid()
      modifies `pos, `carries
      ensures Valid() && View() == old(View()).(pos := old(pos) + n, carries := old(carries) + if resumed then 1 else 0)
    {
      pos := pos + n;
      carries := carries + if resumed then 1 else 0;
    }

    /** Counts an accepted batch of this length. */
    method CountBatch(length: nat, seqNo: u32)
      requires Valid()
      modifies `batches, `duplicates, `outOfOrder, `seenSeq, `haveSeq, `highestSeq, `log, `pos
      ensures Valid() && View() == Accept(old(View()), length, seqNo)
    {
      hide Duplicates, OutOfOrder, SeenSet, IsHighest;
      TrackSequence(Seqs(log), seqNo);
      assert Seqs(log + [Span(pos, length, seqNo)]) == Seqs(log) + [seqNo];
      batches := batches + 1;
      log := log + [Span(pos, length, seqNo)];
      pos := pos + length;
    }
  }

  function Sum(sizes: seq<nat>): nat {
    if sizes == [] then 0 else Sum(sizes[..|sizes| - 1]) + sizes[|sizes| - 1]
  }

  lemma SumAppend(sizes: seq<nat>, x: nat)
    ensures Sum(sizes + [x]) == Sum(sizes) + x
  {
  }

  /** A buffer of the announced length whose first bytes have been received. */
  ghost predicate Frame(total: Option<u32>, buffer: seq<byte>, filled: nat, sizes: seq<nat>) {
    && HEADER_SIZE <= filled <= |buffer|
    && total.Some?
    && Starts(total, buffer)
    && ReadHeader(buffer).length == |buffer|
    && Sum(sizes) == filled - HEADER_SIZE
    && AllZero(buffer[filled..])
  }

  ghost predicate AllZero(s: seq<byte>) {
    forall k :: 0 <= k < |s| ==> s[k] == 0
  }

  /** The batch under reassembly, or the bytes held back while looking for a header. */
  class BatchReassembly {
    var buffer: seq<byte>
    var filled: nat
    var expected: nat
    var active: bool
    var fragmentSizes: seq<nat>

    constructor ()
      ensures buffer == [] && filled == 0 && expected == 0 && !active && fragmentSizes == []
    {
      buffer, filled, expected, active, fragmentSizes := [], 0, 0, false, [];
    }

    /** The received bytes that wait for more. */
    ghost function Pending(): seq<byte>
      reads this
    {
      if active && filled <= |buffer| then buffer[..filled] else buffer
    }

    /**
     * A batch is being filled: the buffer has its announced length, starts with a header of the session,
     * is zero where nothing was received, and the recorded slices add up to the bytes after the header.
     */
    ghost predicate Framed(total: Option<u32>)
      reads this
    {
      active && expected == |buffer| && Frame(total, buffer, filled, fragmentSizes)
    }

    ghost predicate Idle()
      reads this
    {
      !active && filled == 0 && expected == 0 && fragmentSizes == [] && |buffer| < HEADER_SIZE
    }

    /** Between datagrams: idle with a short tail, or filling; only a bare header may wait complete. */
    ghost predicate Valid(total: Option<u32>)
      reads this
    {
      if active then Framed(total) && (filled < expected || filled == HEADER_SIZE) else Idle()
    }

    method Reset()
      modifies this
      ensures Idle() && buffer == []
    {
      buffer := [];
      filled := 0;
      expected := 0;
      active := false;
      fragmentSizes := [];
    }
  }

  /** The line printed for an accepted batch; slice counts are printed for two or more slices. */
  datatype OkLine = OkLine(seqNo: u32, batchTotal: u32, length: nat, mss: Option<nat>, segs: Option<nat>)

  /** The log has grown by one span for every line, in order. */
  ghost predicate Logged(before: seq<Span>, lines: seq<OkLine>, after: seq<Span>) {
    && before <= after && |after| == |before| + |lines|
    && forall i :: 0 <= i < |lines| ==>
         lines[i].seqNo == after[|before| + i].seqNo && lines[i].length == after[|before| + i].len
  }

  // ----- scanning -----

  method FindBatchHeaderOffset(data: seq<byte>) returns (r: nat)
    ensures r <= |data|
    ensures r < |data| ==> Starts(None, data[r..])
    ensures NoStart(None, data, r)
    ensures r == |data| ==> NoStart(None, data, |data|)
  {
    hide ReadHeader, MetaPlausible;
    if |data| < HEADER_SIZE {
      return |data|;
    }
    var last := |data| - HEADER_SIZE;
    for i := 0 to last + 1
      invariant NoStart(None, data, i)
    {
      var batchLen := PeekLength(data[i..]);
      if HEADER_SIZE <= batchLen <= MAX_LENGTH {
        return i;
      }
    }
    return |data|;
  }

  method FindNextBatchHeaderOffset(data: seq<byte>, want: Option<u32>, total: Option<u32>)
    returns (r: nat, latched: Option<u32>)
    ensures r == if data == [] then 0 else FirstCandidate(data, 1, want, total)
    ensures latched == if r < |data| && total.None? then Some(ReadHeader(data[r..]).batchTotal) else total
  {
    hide ReadHeader, MetaPlausible;
    if |data| < HEADER_SIZE {
      if data != [] {
        NoRoom(data, 1, want, total);
      }
      return |data|, total;
    }
    var last := |data| - HEADER_SIZE;
    var i := 1;
    while i <= last
      invariant 1 <= i <= |data|
      invariant FirstCandidate(data, 1, want, total) == FirstCandidate(data, i, want, total)
    {
      var batchLen := PeekLength(data[i..]);
      if HEADER_SIZE <= batchLen <= MAX_LENGTH {
        var candidate := ReadHeader(data[i..]);
        if MetaPlausible(candidate.seqNo, candidate.batchTotal, candidate.length)
           && (want.Some? ==> candidate.seqNo == want.value)
           && (total.Some? ==> candidate.batchTotal == total.value)
        {
          var (verdict, session) := ValidateSession(candidate, total);
          if verdict == Ok && candidate.length == batchLen {
            return i, session;
          }
        }
      }
      i := i + 1;
    }
    NoRoom(data, i, want, total);
    return |data|, total;
  }

  lemma {:induction false} NoRoom(data: seq<byte>, i: nat, want: Option<u32>, total: Option<u32>)
    requires |data| < i + HEADER_SIZE && i <= |data|
    ensures FirstCandidate(data, i, want, total) == |data|
    decreases |data| - i
  {
  }

  // ----- completing a batch -----

  function Zeros(n: nat): (z: seq<byte>)
    ensures |z| == n && forall k :: 0 <= k < n ==> z[k] == 0
  {
    seq(n, _ => 0)
  }

  ghost predicate Consistent(stats: ServerStats, r: BatchReassembly)
    reads stats, r
  {
    stats.Valid() && r.Valid(stats.wireBatchTotal)
  }

  /** Where stats and r stand, as a state of the specification parser. */
  ghost function Standing(stats: ServerStats, r: BatchReassembly): Parsed
    reads stats, r
  {
    Parsed(stats.View(), r.Pending())
  }

  /** The line for an accepted batch that arrived in these slices. */
  ghost predicate OkLineOf(line: OkLine, batch: seq<byte>, sizes: seq<nat>) {
    && |batch| >= HEADER_SIZE
    && line.seqNo == ReadHeader(batch).seqNo && line.batchTotal == ReadHeader(batch).batchTotal
    && line.length == |batch|
    && Detects(sizes, line.mss)
    && line.segs == if |sizes| > 1 then Some(|sizes|) else None
  }

  /** The tail of a failed batch that is pushed back through the receiver; empty if there is none. */
  method SalvageTail(buffer: seq<byte>, header: Header, total: Option<u32>)
    returns (carry: seq<byte>, latched: Option<u32>)
    requires |buffer| >= HEADER_SIZE && header == ReadHeader(buffer) && total.Some? && Starts(total, buffer)
    ensures latched == total
    ensures carry == buffer[SalvageAt(buffer, total)..]
    ensures carry != [] && header.seqNo + 1 < header.batchTotal ==>
              |carry| >= HEADER_SIZE && ReadHeader(carry).seqNo == header.seqNo + 1
  {
    hide ReadHeader, Starts, MetaPlausible, FirstCandidate, ValidateBatch;
    carry := [];
    latched := total;
    var batchLen := |buffer|;
    if batchLen > HEADER_SIZE {
      var want := None;
      MetaOfStart(total, buffer);
      if MetaPlausible(header.seqNo, header.batchTotal, header.length) {
        if header.seqNo + 1 < header.batchTotal {
          want := Some(header.seqNo + 1);
        }
      }
      var salvageAt;
      salvageAt, latched := FindNextBatchHeaderOffset(buffer, want, total);
      if salvageAt < batchLen {
        assert Candidate(buffer, salvageAt, want, total);
        var candidate := ReadHeader(buffer[salvageAt..]);
        var suffix := batchLen - salvageAt;
        if suffix >= candidate.length && ValidateBatch(buffer[salvageAt..salvageAt + candidate.length]) == Ok {
          carry := buffer[salvageAt..];
        }
      }
    } else {
      NoRoom(buffer, 1, Wanted(header), total);
    }
  }

  lemma MetaOfStart(total: Option<u32>, s: seq<byte>)
    requires Starts(total, s)
    ensures var h := ReadHeader(s); MetaPlausible(h.seqNo, h.batchTotal, h.length) && h.magic == MAGIC
    ensures var h := ReadHeader(s); ValidateSession(h, total) == (Ok, Some(h.batchTotal))
  {
    hide ReadHeader;
  }

  method PrintOk(header: Header, length: nat, sizes: seq<nat>) returns (line: OkLine)
    ensures line.seqNo == header.seqNo && line.batchTotal == header.batchTotal && line.length == length
    ensures Detects(sizes, line.mss)
    ensures line.segs == if |sizes| > 1 then Some(|sizes|) else None
  {
    var mss: Option<nat> := None;
    var segs: Option<nat> := None;
    if |sizes| > 1 {
      mss := InferDetectedMss(sizes);
      segs := Some(|sizes|);
    }
    line := OkLine(header.seqNo, header.batchTotal, length, mss, segs);
  }

  lemma CompleteShrinks(g: Ledger, slice: seq<byte>)
    requires |slice| >= HEADER_SIZE
    ensures var c := Complete(g, slice); |Parse(c.ledger, c.pending).pending| < |slice|
    ensures IsOk(slice) ==> var c := Complete(g, slice); Parse(c.ledger, c.pending) == c
  {
    hide ReadHeader, IsOk, Parse, SalvageAt;
    var c := Complete(g, slice);
    ParseIsQuiet(c.ledger, c.pending);
    if c.pending == [] {
      ParseQuiet(c.ledger, []);
    }
  }

  method TryCompleteBatch(stats: ServerStats, r: BatchReassembly) returns (ok: bool, lines: seq<OkLine>)
    requires stats.Valid() && r.Framed(stats.wireBatchTotal) && r.filled == r.expected
    modifies stats, r
    ensures ok == IsOk(old(r.buffer))
    ensures ok ==> r.buffer == [] && !r.active && |lines| == 1
                   && OkLineOf(lines[0], old(r.buffer), old(r.fragmentSizes))
    ensures stats.fragments - stats.carries == old(stats.fragments - stats.carries)
    ensures stats.lost == old(stats.lost)
    ensures Logged(old(stats.log), lines, stats.log)
    ensures |r.Pending()| < old(|r.buffer|)
    ensures Consistent(stats, r)
    ensures var c := Complete(old(stats.View()), old(r.buffer));
            Standing(stats, r) == Parse(c.ledger, c.pending)
    decreases |r.buffer|, 1
  {
    hide ReadHeader, MetaPlausible, Parse, SalvageAt, Starts, ValidateBatch, ValidateSession;
    ghost var g, slice := stats.View(), r.buffer;
    CompleteShrinks(g, slice);
    if r.expected < HEADER_SIZE {
      assert false;
    }
    var header := ReadHeader(r.buffer);
    var (sessionCheck, session) := ValidateSession(header, stats.wireBatchTotal);
    MetaOfStart(stats.wireBatchTotal, r.buffer);
    stats.wireBatchTotal := session;
    if sessionCheck != Ok {
      assert false;
    }
    assert r.buffer[..r.expected] == r.buffer;
    var validation := ValidateBatch(r.buffer[..r.expected]);
    ok := validation == Ok;
    if !ok {
      lines := FailBatch(stats, r, header);
    } else {
      lines := AcceptBatch(stats, r, header);
    }
  }

  method AcceptBatch(stats: ServerStats, r: BatchReassembly, header: Header) returns (lines: seq<OkLine>)
    requires stats.Valid() && |r.buffer| == r.expected >= HEADER_SIZE
    requires IsOk(r.buffer) && header == ReadHeader(r.buffer) && stats.wireBatchTotal == Some(header.batchTotal)
    modifies stats, r
    ensures stats.Valid() && r.Idle() && r.buffer == []
    ensures |lines| == 1 && OkLineOf(lines[0], old(r.buffer), old(r.fragmentSizes))
    ensures stats.View() == Accept(old(stats.View()), old(r.expected), header.seqNo)
    ensures stats.fragments == old(stats.fragments) && stats.lost == old(stats.lost)
    ensures Logged(old(stats.log), lines, stats.log)
  {
    hide ReadHeader, IsOk;
    stats.CountBatch(r.expected, header.seqNo);
    assert stats.log[|old(stats.log)|..] == [Span(old(stats.pos), r.expected, header.seqNo)];
    var line := PrintOk(header, r.expected, r.fragmentSizes);
    r.Reset();
    lines := [line];
  }

  method FailBatch(stats: ServerStats, r: BatchReassembly, header: Header) returns (lines: seq<OkLine>)
    requires stats.Valid() && |r.buffer| >= HEADER_SIZE && stats.wireBatchTotal.Some?
    requires !IsOk(r.buffer) && header == ReadHeader(r.buffer) && Starts(stats.wireBatchTotal, r.buffer)
    modifies stats, r
    ensures Consistent(stats, r)
    ensures var c := Complete(old(stats.View()), old(r.buffer));
            Standing(stats, r) == Parse(c.ledger, c.pending)
    ensures stats.fragments - stats.carries == old(stats.fragments - stats.carries)
    ensures stats.lost == old(stats.lost)
    ensures Logged(old(stats.log), lines, stats.log)
    decreases |r.buffer|, 0
  {
    hide ReadHeader, IsOk, Parse, SalvageAt, Starts, ServerStats.Tracks;
    ghost var c := Complete(stats.View(), r.buffer);
    stats.CountFailure();
    var carry, latched := SalvageTail(r.buffer, header, stats.wireBatchTotal);
    stats.wireBatchTotal := latched;
    stats.Skip(|r.buffer| - |carry|, carry != []);
    r.Reset();
    assert stats.View() == c.ledger && carry == c.pending;
    lines := [];
    if carry != [] {
      assert [] + carry == carry;
      lines := IngestFragment(carry, stats, r);
    } else {
      ParseQuiet(c.ledger, []);
    }
  }

  // ----- ingesting a datagram -----

  /** No header in the rest of the datagram: keep a short tail for a split header. */
  lemma KeepTail(g: Ledger, s: seq<byte>)
    requires NoStart(None, s, |s|)
    ensures var keep := if |s| < HEADER_SIZE then |s| else HEADER_SIZE - 1;
            Parse(g, s) == Parsed(Drop(g, |s| - keep), s[|s| - keep..])
  {
    hide ReadHeader, Starts;
    if |s| >= HEADER_SIZE {
      var n := |s| - (HEADER_SIZE - 1);
      NoStartAny(g.total, s, n);
      SkipJunk(g, s, n);
    } else {
      assert s[0..] == s && Drop(g, 0) == g;
    }
  }

  lemma NoStartAny(total: Option<u32>, s: seq<byte>, n: nat)
    requires NoStart(None, s, n)
    ensures NoStart(total, s, n)
  {
  }

  /** With nothing held back: skip to the next header, or keep a short tail and be done. */
  method AlignToHeader(data: seq<byte>, offset: nat, stats: ServerStats, r: BatchReassembly)
    returns (next: nat, done: bool)
    requires r.Idle() && r.buffer == [] && offset < |data|
    modifies stats`pos, r`buffer
    ensures r.Idle() && offset <= next <= |data|
    ensures done ==> next == |data| && |r.buffer| <= |data| - offset
    ensures !done ==> r.buffer == [] && Starts(None, data[next..])
    ensures Starts(None, data[offset..]) ==> !done && next == offset
    ensures Parse(stats.View(), r.buffer + data[next..]) == Parse(old(stats.View()), data[offset..])
  {
    hide ReadHeader, MetaPlausible, Parse, NoStart, Starts;
    ghost var g, s := stats.View(), data[offset..];
    var remaining := data[offset..];
    var aligned := FindBatchHeaderOffset(remaining);
    FirstStart(remaining, aligned);
    if aligned >= |remaining| {
      var keep := if |remaining| < HEADER_SIZE - 1 then |remaining| else HEADER_SIZE - 1;
      KeepTail(g, s);
      if keep > 0 {
        r.buffer := r.buffer + data[|data| - keep..];
      }
      stats.pos := stats.pos + |remaining| - keep;
      assert r.buffer == s[|s| - keep..] && r.buffer + data[|data|..] == r.buffer;
      assert stats.View() == Drop(g, |s| - keep);
      ParseQuiet(stats.View(), r.buffer);
      return |data|, true;
    }
    next, done := offset + aligned, false;
    NoStartAny(g.total, s, aligned);
    StartsSize(None, s[aligned..]);
    SkipJunk(g, s, aligned);
    stats.pos := stats.pos + aligned;
    assert s[aligned..] == data[next..] && [] + data[next..] == data[next..];
  }

  lemma FirstStart(s: seq<byte>, n: nat)
    requires n <= |s| && NoStart(None, s, n)
    ensures Starts(None, s) && s != [] ==> n == 0
  {
    hide ReadHeader;
    assert s[0..] == s;
  }

  lemma ParseWindow(g: Ledger, w: seq<byte>, rest: seq<byte>)
    requires |w| == HEADER_SIZE
    ensures if Starts(g.total, w) then Parse(g, w + rest) == Parse(Latch(g, ReadHeader(w).batchTotal), w + rest)
            else Parse(g, w + rest) == Parse(Drop(g, 1), w[1..] + rest)
  {
    hide ReadHeader;
    StartsPrefix(g.total, w, rest);
    if Starts(g.total, w) {
      LatchTwice(g, w + rest);
    } else {
      assert (w + rest)[1..] == w[1..] + rest;
    }
  }

  /** With a whole window: drop its first byte, or latch the session total and start filling. */
  method CheckWindow(stats: ServerStats, r: BatchReassembly)
    requires !r.active && r.filled == 0 && r.expected == 0 && r.fragmentSizes == [] && |r.buffer| == HEADER_SIZE
    modifies stats`wireBatchTotal, stats`pos, r
    ensures if Starts(old(stats.wireBatchTotal), old(r.buffer)) then
              r.Framed(stats.wireBatchTotal) && r.filled == HEADER_SIZE && r.fragmentSizes == [] &&
              r.Pending() == old(r.buffer) && r.expected == ReadHeader(old(r.buffer)).length &&
              stats.View() == Latch(old(stats.View()), ReadHeader(old(r.buffer)).batchTotal)
            else r.Idle() && r.buffer == old(r.buffer[1..]) && stats.View() == Drop(old(stats.View()), 1)
  {
    hide ReadHeader, MetaPlausible;
    var expectedLength := PeekLength(r.buffer);
    if expectedLength == 0 {
      if |r.buffer| > 1 {
        var aligned := FindBatchHeaderOffset(r.buffer);
        if aligned > 0 && aligned < |r.buffer| {
          assert false;
        }
      }
      r.buffer := r.buffer[1..];
      stats.pos := stats.pos + 1;
      return;
    }
    var header := ReadHeader(r.buffer);
    var (sessionCheck, session) := ValidateSession(header, stats.wireBatchTotal);
    stats.wireBatchTotal := session;
    if sessionCheck != Ok {
      r.buffer := r.buffer[1..];
      stats.pos := stats.pos + 1;
      return;
    }
    if expectedLength < HEADER_SIZE || expectedLength > MAX_LENGTH {
      assert false;
    }
    r.expected := expectedLength;
    StartsPrefix(stats.wireBatchTotal, r.buffer, Zeros(expectedLength - HEADER_SIZE));
    r.buffer := r.buffer + Zeros(expectedLength - HEADER_SIZE);
    r.filled := HEADER_SIZE;
    r.active := true;
  }

  /** Push bytes until the window holds a header, or the datagram ends. */
  method FillWindow(data: seq<byte>, from: nat, r: BatchReassembly) returns (next: nat, done: bool)
    requires r.Idle() && from <= |data|
    modifies r`buffer
    ensures from <= next <= |data| && |r.buffer| - |old(r.buffer)| == next - from
    ensures r.buffer + data[next..] == old(r.buffer) + data[from..]
    ensures if done then next == |data| && |r.buffer| < HEADER_SIZE else |r.buffer| == HEADER_SIZE
  {
    next := from;
    while |r.buffer| < HEADER_SIZE
      invariant from <= next <= |data| && |r.buffer| <= HEADER_SIZE
      invariant |r.buffer| - |old(r.buffer)| == next - from
      invariant r.buffer + data[next..] == old(r.buffer) + data[from..]
    {
      if next >= |data| {
        return next, true;
      }
      ghost var b := r.buffer;
      r.buffer := r.buffer + [data[next]];
      assert b + data[next..] == r.buffer + data[next + 1..];
      next := next + 1;
    }
    done := false;
  }

  lemma StartsAnySession(total: Option<u32>, s: seq<byte>)
    ensures Starts(total, s) ==> Starts(None, s) && HEADER_SIZE <= |s|
  {
  }

  /** The recorded slices after a batch has grown from m to n received bytes: its header is not recorded. */
  function Slices(sizes: seq<nat>, m: nat, n: nat): seq<nat>
    requires m <= n
  {
    if n <= HEADER_SIZE then sizes else sizes + [n - if m < HEADER_SIZE then HEADER_SIZE else m]
  }

  /** The pending bytes start a batch of the session that is still incomplete. */
  ghost predicate Growing(total: Option<u32>, s: seq<byte>) {
    Starts(total, s) && |s| < ReadHeader(s).length
  }

  /** The pending bytes are a batch of the session that passes, and more than a header. */
  ghost predicate Whole(total: Option<u32>, s: seq<byte>) {
    Fits(total, s) && HEADER_SIZE < |s|
  }

  lemma BatchRest(total: Option<u32>, s: seq<byte>)
    ensures Growing(total, s) ==> Starts(total, s) && |s| < ReadHeader(s).length
    ensures Whole(total, s) ==> Starts(total, s) && HEADER_SIZE < |s| == ReadHeader(s).length && IsOk(s)
  {
    hide ReadHeader;
  }

  lemma SameBatch(total: Option<u32>, s: seq<byte>)
    requires Starts(total, s)
    ensures var latched := Some(ReadHeader(s).batchTotal);
            Growing(latched, s) == Growing(total, s) && Whole(latched, s) == Whole(total, s)
  {
    hide ReadHeader, IsOk;
  }

  /** A batch under reassembly announces the length its bytes announce. */
  lemma ExpectedLength(total: Option<u32>, r: BatchReassembly, rest: seq<byte>)
    requires r.Framed(total)
    ensures r.expected == ReadHeader(r.Pending() + rest).length && HEADER_SIZE <= |r.Pending()| == r.filled
  {
    hide ReadHeader, Starts;
    assert (r.Pending() + rest)[..HEADER_SIZE] == r.buffer[..HEADER_SIZE];
    SameHeader(total, r.Pending() + rest, r.buffer);
  }

  /**
   * One pass of the receiver while it is looking for a header: skip to a candidate, complete the
   * 20-byte window, and check it. The bytes from next on remain to be read.
   */
  method LookForHeader(data: seq<byte>, offset: nat, stats: ServerStats, r: BatchReassembly)
    returns (next: nat, done: bool)
    requires stats.Valid() && r.Idle() && offset < |data|
    modifies stats`wireBatchTotal, stats`pos, r
    ensures Consistent(stats, r) && offset <= next <= |data|
    ensures done ==> next == |data|
    ensures Parse(stats.View(), r.Pending() + data[next..]) == Parse(old(stats.View()), old(r.buffer) + data[offset..])
    ensures |r.Pending()| + (|data| - next) <= |old(r.buffer)| + (|data| - offset)
    ensures !done ==> next > offset || |r.Pending()| < |old(r.buffer)|
    ensures var s := old(r.buffer) + data[offset..];
            Growing(old(stats.wireBatchTotal), s) || Whole(old(stats.wireBatchTotal), s) ==>
              && !done && r.active && r.fragmentSizes == []
              && r.Pending() + data[next..] == s && |r.Pending()| == HEADER_SIZE
              && Growing(stats.wireBatchTotal, s) == Growing(old(stats.wireBatchTotal), s)
              && Whole(stats.wireBatchTotal, s) == Whole(old(stats.wireBatchTotal), s)
  {
    hide ReadHeader, MetaPlausible, Parse, Starts, Growing, Whole;
    next, done := offset, false;
    ghost var total, s := stats.wireBatchTotal, r.buffer + data[offset..];
    StartsAnySession(total, s);
    BatchRest(total, s);
    if r.buffer == [] {
      assert s == data[offset..];
      next, done := AlignToHeader(data, offset, stats, r);
      if done {
        return;
      }
      assert r.buffer + data[next..] == data[next..];
    }
    var aligned := next;
    next, done := FillWindow(data, aligned, r);
    if done {
      return;
    }
    ghost var w := r.buffer;
    ParseWindow(stats.View(), w, data[next..]);
    if Starts(total, s) {
      assert w + data[next..] == s;
      StartsPrefix(total, w, data[next..]);
      SameBatch(total, s);
    }
    CheckWindow(stats, r);
  }

  /** The buffer after the next slice has been copied in. */
  function Filled(buffer: seq<byte>, filled: nat, slice: seq<byte>): (b: seq<byte>)
    requires filled + |slice| <= |buffer|
    ensures |b| == |buffer| && b[..filled + |slice|] == buffer[..filled] + slice
  {
    buffer[..filled] + slice + buffer[filled + |slice|..]
  }

  lemma FillKeepsFrame(total: Option<u32>, buffer: seq<byte>, filled: nat, sizes: seq<nat>, slice: seq<byte>)
    requires Frame(total, buffer, filled, sizes) && filled + |slice| <= |buffer|
    ensures Frame(total, Filled(buffer, filled, slice), filled + |slice|, sizes + [|slice|])
  {
    hide ReadHeader, Starts, Sum;
    var b := Filled(buffer, filled, slice);
    assert b[..HEADER_SIZE] == buffer[..HEADER_SIZE];
    SameHeader(total, b, buffer);
    SumAppend(sizes, |slice|);
    assert b[filled + |slice|..] == buffer[filled..][|slice|..];
  }

  /** A complete batch at the start of s is resolved, and parsing goes on where that leaves off. */
  lemma ParseComplete(g: Ledger, slice: seq<byte>, rest: seq<byte>)
    requires Starts(g.total, slice) && g.total.Some? && ReadHeader(slice).length == |slice|
    requires HEADER_SIZE < |slice| || rest != []
    ensures var c := Complete(g, slice);
            var p := Parse(c.ledger, c.pending);
            Parse(g, slice + rest) == Parse(p.ledger, p.pending + rest)
  {
    hide ReadHeader, Complete;
    StartsPrefix(g.total, slice, rest);
    assert (slice + rest)[..|slice|] == slice && (slice + rest)[|slice|..] == rest;
    var c := Complete(g, slice);
    assert Latch(g, ReadHeader(slice).batchTotal) == g;
    ParseAppend(c.ledger, c.pending, rest);
  }

  /** Copy the next slice of the datagram into the batch under reassembly. */
  method CopySlice(data: seq<byte>, offset: nat, total: Option<u32>, r: BatchReassembly) returns (next: nat)
    requires r.Framed(total) && r.filled <= r.expected && offset <= |data|
    modifies r`buffer, r`filled, r`fragmentSizes
    ensures r.Framed(total) && r.filled <= r.expected && offset <= next <= |data|
    ensures next - offset == r.filled - old(r.filled)
    ensures next == |data| || r.filled == r.expected
    ensures r.buffer[..r.filled] == old(r.buffer[..r.filled]) + data[offset..next]
    ensures r.buffer[..r.filled] + data[next..] == old(r.buffer[..r.filled]) + data[offset..]
    ensures r.fragmentSizes == old(r.fragmentSizes) + [next - offset]
  {
    hide Frame;
    var space := r.expected - r.filled;
    var take := if |data| - offset < space then |data| - offset else space;
    next := offset + take;
    FillKeepsFrame(total, r.buffer, r.filled, r.fragmentSizes, data[offset..next]);
    assert data[offset..next] + data[next..] == data[offset..];
    r.fragmentSizes := r.fragmentSizes + [take];
    r.buffer := Filled(r.buffer, r.filled, data[offset..next]);
    r.filled := r.filled + take;
  }

  /** One pass of the receiver while it is filling a batch. */
  method FillBatch(data: seq<byte>, offset: nat, stats: ServerStats, r: BatchReassembly)
    returns (next: nat, lines: seq<OkLine>)
    requires Consistent(stats, r) && r.active && offset < |data|
    modifies stats, r
    ensures offset <= next <= |data|
    ensures |r.Pending()| + (|data| - next) <= old(|r.Pending()|) + (|data| - offset)
    ensures next > offset || |r.Pending()| < old(|r.Pending()|)
    ensures stats.fragments - stats.carries == old(stats.fragments - stats.carries)
    ensures stats.lost == old(stats.lost)
    ensures Logged(old(stats.log), lines, stats.log)
    ensures var s := old(r.Pending()) + data[offset..];
            var sizes := Slices(old(r.fragmentSizes), old(|r.Pending()|), |s|);
            && (Growing(old(stats.wireBatchTotal), s) ==>
                  next == |data| && lines == [] && r.active && r.fragmentSizes == sizes)
            && (Whole(old(stats.wireBatchTotal), s) ==>
                  next == |data| && !r.active && r.buffer == [] && |lines| == 1 && OkLineOf(lines[0], s, sizes))
    ensures Consistent(stats, r)
    ensures Parse(stats.View(), r.Pending() + data[next..]) ==
            Parse(old(stats.View()), old(r.Pending()) + data[offset..])
    decreases |r.Pending()| + (|data| - offset), 2
  {
    hide ReadHeader, Parse, Starts, IsOk, Complete, Growing, Whole, AllZero, Sum, Filled, OkLineOf, Logged;
    hide ServerStats.Tracks;
    ghost var was := r.Pending();
    NothingLogged(stats.log);
    ExpectedLength(stats.wireBatchTotal, r, data[offset..]);
    BatchRest(stats.wireBatchTotal, was + data[offset..]);
    next := CopySlice(data, offset, stats.wireBatchTotal, r);
    lines := [];
    assert data[|data|..] == [] && data[offset..|data|] == data[offset..];
    if r.filled >= r.expected {
      assert r.buffer[..r.filled] == r.buffer;
      assert r.buffer == was + data[offset..next];
      ParseComplete(stats.View(), r.buffer, data[next..]);
      var ok;
      ok, lines := TryCompleteBatch(stats, r);
    }
  }

  lemma LoggedAppend(start: seq<Span>, a: seq<OkLine>, mid: seq<Span>, b: seq<OkLine>, end: seq<Span>)
    requires Logged(start, a, mid) && Logged(mid, b, end)
    ensures Logged(start, a + b, end)
  {
  }

  /** Between datagrams the pending bytes wait for more. */
  lemma ConsistentIsQuiet(stats: ServerStats, r: BatchReassembly)
    requires Consistent(stats, r)
    ensures Quiet(stats.wireBatchTotal, r.Pending())
  {
    hide ReadHeader, Starts;
    if r.active {
      SameHeader(stats.wireBatchTotal, r.Pending(), r.buffer);
    }
  }

  /**
   * Ingesting a datagram refines the specification parser on the pending bytes followed by the datagram.
   * While a batch grows its slices are recorded, and the line printed when it is whole shows them.
   */
  method IngestFragment(data: seq<byte>, stats: ServerStats, r: BatchReassembly) returns (lines: seq<OkLine>)
    requires Consistent(stats, r)
    modifies stats, r
    ensures stats.fragments - stats.carries == old(stats.fragments - stats.carries) + 1
    ensures stats.lost == old(stats.lost)
    ensures Logged(old(stats.log), lines, stats.log)
    ensures var s := old(r.Pending()) + data;
            var sizes := Slices(old(r.fragmentSizes), |old(r.Pending())|, |s|);
            && (data != [] && Growing(old(stats.wireBatchTotal), s) ==>
                  r.active && r.fragmentSizes == sizes && lines == [])
            && (data != [] && Whole(old(stats.wireBatchTotal), s) ==>
                  !r.active && r.buffer == [] && |lines| == 1 && OkLineOf(lines[0], s, sizes))
    ensures Consistent(stats, r)
    ensures Standing(stats, r) == Parse(old(stats.View()), old(r.Pending()) + data)
    decreases |r.Pending()| + |data|, 3
  {
    hide ReadHeader, Parse, Starts, IsOk, Frame, OkLineOf, Logged, ServerStats.Valid, Quiet, Growing, Whole;
    ghost var s, base := r.Pending() + data, stats.log;
    ghost var target := Parse(stats.View(), s);
    ghost var sizes := Slices(r.fragmentSizes, |r.Pending()|, |s|);
    ghost var growing := data != [] && Growing(stats.wireBatchTotal, s);
    ghost var whole := data != [] && Whole(stats.wireBatchTotal, s);
    BatchRest(stats.wireBatchTotal, s);
    stats.CountFragment();
    lines := [];
    NothingLogged(base);
    var offset := 0;
    assert data[0..] == data;
    while offset < |data|
      invariant offset <= |data|
      invariant Consistent(stats, r)
      invariant Parse(stats.View(), r.Pending() + data[offset..]) == target
      invariant |r.Pending()| + (|data| - offset) <= |s|
      invariant stats.fragments - stats.carries == old(stats.fragments - stats.carries) + 1
      invariant stats.lost == old(stats.lost)
      invariant Logged(base, lines, stats.log)
      invariant (growing || whole) && offset < |data| ==>
        && lines == [] && r.Pending() + data[offset..] == s
        && Slices(r.fragmentSizes, |r.Pending()|, |s|) == sizes
      invariant offset < |data| ==>
        && (growing ==> Growing(stats.wireBatchTotal, s)) && (whole ==> Whole(stats.wireBatchTotal, s))
      invariant growing && offset == |data| ==> r.active && r.fragmentSizes == sizes && lines == []
      invariant whole && offset == |data| ==>
        !r.active && r.buffer == [] && |lines| == 1 && OkLineOf(lines[0], s, sizes)
      decreases |r.Pending()| + (|data| - offset), |data| - offset
    {
      if !r.active {
        var done;
        offset, done := LookForHeader(data, offset, stats, r);
        if done {
          break;
        }
      } else {
        ghost var before := stats.log;
        var more;
        offset, more := FillBatch(data, offset, stats, r);
        LoggedAppend(base, lines, before, more, stats.log);
        lines := lines + more;
      }
    }
    assert data[|data|..] == [] && r.Pending() + [] == r.Pending();
    ConsistentIsQuiet(stats, r);
    ParseQuiet(stats.View(), r.Pending());
  }

  lemma NothingLogged(log: seq<Span>)
    ensures Logged(log, [], log)
  {
  }

  // ----- the state is a function of the stream -----

  /** Whether a batch is under reassembly can be read off the pending bytes. */
  lemma ActiveIffHeader(stats: ServerStats, r: BatchReassembly)
    requires Consistent(stats, r)
    ensures r.active <==> |r.Pending()| >= HEADER_SIZE
  {
    hide ReadHeader, Starts, Sum, AllZero;
  }

  lemma HighestUnique(q: seq<u32>, a: u32, b: u32)
    requires IsHighest(q, a) && IsHighest(q, b)
    ensures a == b
  {
  }

  lemma ZeroTailsEqual(a: seq<byte>, b: seq<byte>, n: nat)
    requires n <= |a| == |b| && a[..n] == b[..n] && AllZero(a[n..]) && AllZero(b[n..])
    ensures a == b
  {
  }

  /**
   * Where a session stands in the parser fixes every field of the receiver but the fragment count, the
   * loss count and the recorded slices.
   */
  lemma StandingFixesState(s1: ServerStats, r1: BatchReassembly, s2: ServerStats, r2: BatchReassembly)
    requires Consistent(s1, r1) && Consistent(s2, r2) && Standing(s1, r1) == Standing(s2, r2)
    ensures s1.batches == s2.batches && s1.badBatches == s2.badBatches && s1.duplicates == s2.duplicates
    ensures s1.outOfOrder == s2.outOfOrder && s1.seenSeq == s2.seenSeq && s1.wireBatchTotal == s2.wireBatchTotal
    ensures s1.haveSeq == s2.haveSeq && s1.highestSeq == s2.highestSeq
    ensures r1.active == r2.active && r1.buffer == r2.buffer && r1.filled == r2.filled && r1.expected == r2.expected
  {
    hide ReadHeader, Starts, AllZero, Duplicates, OutOfOrder, SeenSet, IsHighest;
    if s1.haveSeq {
      HighestUnique(Seqs(s1.log), s1.highestSeq, s2.highestSeq);
    }
    if r1.active {
      SameHeader(s1.wireBatchTotal, r1.buffer, r1.Pending());
      SameHeader(s2.wireBatchTotal, r2.buffer, r2.Pending());
      ZeroTailsEqual(r1.buffer, r2.buffer, r1.filled);
    }
  }
}
