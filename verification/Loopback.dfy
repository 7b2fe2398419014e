/** A client run received in order: what the session reports for any wanted count. */
module Loopback {
  import opened Bytes
  import opened Packet
  import opened StreamParser
  import opened Session
  import opened Sender
  import opened EndToEnd
  import opened Counting
  import opened History

  lemma {:induction false} WireNonempty(bs: seq<seq<byte>>, mss: nat)
    requires forall b :: b in bs ==> b != []
    ensures forall d :: d in Wire(bs, mss) ==> d != []
  {
    hide Segments;
    if bs != [] {
      var n := |bs| - 1;
      assert bs[n] in bs && forall b :: b in bs[..n] ==> b in bs;
      WireNonempty(bs[..n], mss);
      SegmentsNonempty(bs[n], mss);
    }
  }

  /** The datagrams of the first batches come first. */
  lemma {:induction false} WirePrefix(bs: seq<seq<byte>>, a: nat, mss: nat)
    requires a <= |bs|
    ensures Wire(bs[..a], mss) <= Wire(bs, mss)
    decreases |bs| - a
  {
    hide Segments;
    if a < |bs| {
      WirePrefix(bs, a + 1, mss);
      assert bs[..a + 1][..a] == bs[..a];
    } else {
      assert bs[..a] == bs;
    }
  }

  /** Fewer non-empty datagrams carry fewer bytes. */
  lemma FewerBytes(ds: seq<seq<byte>>, m: nat)
    requires m < |ds| && forall d :: d in ds ==> d != []
    ensures |Flat(ds[..m])| < |Flat(ds)|
  {
    assert ds == ds[..m] + ds[m..];
    FlatAppend(ds[..m], ds[m..]);
    assert ds[m] in ds;
  }

  /** The datagrams of the first a batches are the fewest that complete a batches. */
  lemma FirstBatches(n: u32, bs: seq<seq<byte>>, size: nat, mss: nat, a: nat)
    requires Numbered(n, bs, size) && HEADER_SIZE < size && a <= |bs|
    ensures var cut, first := Wire(bs, mss), Wire(bs[..a], mss);
            && first <= cut && Accepted(cut, |first|) == a
            && forall m :: 0 <= m < |first| ==> Accepted(cut, m) < a
  {
    hide Numbered, Accepted, Wire;
    var cut, first := Wire(bs, mss), Wire(bs[..a], mss);
    SizeOfRun(n, bs, size);
    WirePrefix(bs, a, mss);
    assert cut[..|first|] == first;
    WireBytes(bs, mss);
    WireBytes(bs[..a], mss);
    FlatSize(bs[..a], size);
    AcceptedInRun(n, bs, size, cut, |first|);
    Exactly(a, size);
    forall m | 0 <= m < |first| ensures Accepted(cut, m) < a {
      WireNonempty(bs[..a], mss);
      FewerBytes(first, m);
      assert first[..m] == cut[..m];
      AcceptedInRun(n, bs, size, cut, m);
      Below(|Flat(cut[..m])|, a, size);
    }
  }

  /**
   * The client's own datagrams never carry bytes of two batches, so a session that gets them in order
   * stops right behind the wanted batch, or reads everything if more are wanted than sent.
   */
  lemma ClientStops(n: u32, bs: seq<seq<byte>>, size: nat, mss: nat, c: nat, read: nat)
    requires Numbered(n, bs, size) && HEADER_SIZE < size && StopsAfter(Wire(bs, mss), Some(c), read)
    ensures var a := if c < |bs| then c else |bs|;
            Wire(bs, mss)[..read] == Wire(bs[..a], mss)
  {
    hide Numbered, StopsAfter, Accepted, Wire;
    var a := if c < |bs| then c else |bs|;
    FirstBatches(n, bs, size, mss, a);
    if c <= |bs| {
      StopsAtFirst(Wire(bs, mss), c, read, |Wire(bs[..a], mss)|);
    } else {
      assert bs[..a] == bs;
      NeverEnough(Wire(bs, mss), c, read, |bs|);
    }
  }

  lemma Exactly(a: nat, size: nat)
    requires HEADER_SIZE < size
    ensures Completed(a * size, size) == a
  {
    assert a * size < (a + 1) * size;
    ReachesIffCompleted(a, size, a * size);
  }

  lemma Below(t: nat, a: nat, size: nat)
    requires HEADER_SIZE < size && t < a * size
    ensures Completed(t, size) < a
  {
    var k := t / size;
    assert k * size <= t;
    assert a <= k ==> a * size <= k * size;
  }

  /** A session that never has enough reads all datagrams. */
  lemma NeverEnough(cut: seq<seq<byte>>, c: nat, read: nat, most: nat)
    requires StopsAfter(cut, Some(c), read) && Accepted(cut, |cut|) <= most < c
    ensures cut[..read] == cut
  {
    hide After;
    if read < |cut| {
      AcceptedGrows(cut, read, |cut|);
    }
  }

  /**
   * The summary for a client run in order: exactly the wanted batches, or all if fewer were sent. The
   * loss count is taken up to the wanted count in 32-bit arithmetic, and never ends where that wraps.
   */
  function ClientEnd(bs: seq<seq<byte>>, mss: nat, want: Option<nat>): SessionEnd {
    match want
    case None => Summary(|bs|, |Wire(bs, mss)|, 0, 0, 0, 0)
    case Some(c) =>
      var a := if c < |bs| then c else |bs|;
      var expected := c % WRAP;
      if 0 < c && expected == 0 then NeverEnds
      else Summary(a, |Wire(bs[..a], mss)|, 0, if a < expected then expected - a else 0, 0, 0)
  }

  lemma ClientSession(n: u32, bs: seq<seq<byte>>, size: nat, mss: nat, want: Option<nat>, read: nat)
    requires Numbered(n, bs, size) && HEADER_SIZE < size && 1 <= n == |bs|
    requires StopsAfter(Wire(bs, mss), want, read)
    ensures SummaryOf(After(Wire(bs, mss)[..read]), read, want) == ClientEnd(bs, mss, want)
  {
    hide Numbered, StopsAfter, SummaryOf, Wire, After;
    var cut := Wire(bs, mss);
    if want.None? {
      ReadsAll(cut, read);
      WireBytes(bs, mss);
      FullSession(n, bs, size, cut, None);
    } else {
      var c := want.value;
      var a := if c < |bs| then c else |bs|;
      StopsInside(cut, c, read);
      ClientStops(n, bs, size, mss, c, read);
      WireBytes(bs[..a], mss);
      WantedSession(n, bs, size, cut[..read], c, a);
    }
  }

  lemma ReadsAll(cut: seq<seq<byte>>, read: nat)
    requires StopsAfter(cut, None, read)
    ensures read == |cut| && cut[..read] == cut
  {
    hide After;
  }

  lemma WantedSession(n: u32, bs: seq<seq<byte>>, size: nat, cut: seq<seq<byte>>, c: nat, a: nat)
    requires Numbered(n, bs, size) && HEADER_SIZE < size && 1 <= n == |bs|
    requires a == (if c < |bs| then c else |bs|) && Flat(cut) == Flat(bs[..a])
    ensures SummaryOf(After(cut), |cut|, Some(c)) ==
            if 0 < c && c % WRAP == 0 then NeverEnds
            else Summary(a, |cut|, 0, if a < c % WRAP then c % WRAP - a else 0, 0, 0)
  {
    hide ReadHeader, Parse, SummaryOf, Numbered, LostUpper, Seqs;
    if a == 0 {
      assert bs[..a] == [];
      NothingWanted(cut);
    } else {
      hide Flat;
      NumberedPrefix(n, bs, size, a);
      FullParse(n, bs[..a], size);
      UpperOfCount(c, After(cut).ledger.total);
      BoundedSummary(After(cut), a, c % WRAP, |cut|, Some(c));
    }
  }

  /** The summary when a batches numbered from 0 were accepted and the loss count looks below a bound. */
  lemma BoundedSummary(p: Parsed, a: nat, bound: u32, read: nat, count: Option<nat>)
    requires LostUpper(count, p.ledger.total, false, 0) == Some(if bound == 0 then LAST_U32 else bound - 1)
    requires 1 <= a <= LAST_U32 && |p.ledger.log| == a && forall i :: 0 <= i < a ==> Seqs(p.ledger.log)[i] == i
    requires p.pending == [] && p.ledger.bad == 0 && p.ledger.carries == 0
    ensures SummaryOf(p, read, count) ==
            if bound == 0 then NeverEnds else Summary(a, read, 0, if a < bound then bound - a else 0, 0, 0)
  {
    if bound == 0 {
    } else if a <= bound {
      hide SummaryOf, LostUpper;
      IncreasingBelow(p, bound, read, count);
    } else {
      hide SummaryOf, LostUpper;
      FullBelow(p, a, bound, read, count);
    }
  }

  lemma NothingWanted(cut: seq<seq<byte>>)
    requires Flat(cut) == []
    ensures SummaryOf(After(cut), |cut|, Some(0)) == Summary(0, |cut|, 0, 0, 0, 0)
  {
    hide Parse;
    ParseQuiet(NEW_SESSION, []);
    EmptyHistory();
    assert Seqs(NEW_SESSION.log) == [];
  }

  lemma NumberedPrefix(n: u32, bs: seq<seq<byte>>, size: nat, a: nat)
    requires Numbered(n, bs, size) && a <= |bs|
    ensures Numbered(n, bs[..a], size)
  {
    hide ReadHeader;
  }

  /** The client's loop feeding the receive loop, for any segment size and any wanted count. */
  method Loopback(count: nat, size: nat, mss: nat, payloads: seq<seq<byte>>, want: Option<nat>)
    returns (end: SessionEnd)
    requires 1 <= count <= LAST_U32 && HEADER_SIZE < size <= MAX_LENGTH
    requires |payloads| == count && Sized(payloads, size)
    ensures end == ClientEnd(Batches(count, payloads), mss, want)
  {
    hide Parse, SummaryOf, Built, Segments, Numbered, StopsAfter, ClientEnd, Batches, Wire;
    var error, datagrams := RunClient(count, size, mss, payloads);
    assert payloads[..count] == payloads;
    BatchesRun(count, payloads, size);
    var read, lines;
    end, read, lines := RunReceiveLoop(datagrams, want);
    BatchesCount(count, payloads);
    ClientSession(count, Batches(count, payloads), size, mss, want, read);
  }
}
