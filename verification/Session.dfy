/** A receive session: a finite list of datagrams, then the accounting of what is incomplete and lost. */
module Session {
  import opened Bytes
  import opened Packet
  import opened History
  import opened StreamParser
  import opened StreamProperties
  import opened Reassembly

  const LAST_U32: u32 := 0xFFFF_FFFF

  /** The printed summary, or a session whose loss count never ends. */
  datatype SessionEnd =
    | Summary(batches: nat, fragments: nat, bad: nat, lost: nat, duplicates: nat, outOfOrder: nat)
    | NeverEnds

  // ----- the loss count -----

  /** The largest sequence number expected, in 32-bit arithmetic. */
  function LostUpper(count: Option<nat>, total: Option<u32>, haveSeq: bool, highest: u32): Option<u32> {
    match count
    case Some(c) => if c == 0 then None else Some((c - 1) % WRAP)
    case None =>
      match total
      case Some(t) => Some((t + WRAP - 1) % WRAP)
      case None => if haveSeq then Some(highest) else None
  }

  /** The 32-bit loop counter after k increments. */
  function Counter(k: nat): u32 {
    if k == 0 then 0 else (Counter(k - 1) + 1) % WRAP
  }

  lemma {:induction false} CounterBelowWrap(k: nat)
    ensures k < WRAP ==> Counter(k) == k
  {
    if k > 0 {
      CounterBelowWrap(k - 1);
    }
  }

  /** The loop `seq <= upper` over a 32-bit counter ends exactly when upper is not the largest number. */
  lemma CounterPasses(upper: u32)
    ensures (exists k :: Counter(k) > upper) <==> upper < LAST_U32
  {
    if upper < LAST_U32 {
      CounterBelowWrap(upper + 1);
      assert Counter(upper + 1) > upper;
    }
  }

  /** Returns false where the source's loop never ends. */
  method FinalizeLost(stats: ServerStats, count: Option<nat>) returns (ends: bool)
    requires stats.Valid()
    modifies stats`lost
    ensures stats.Valid() && stats.View() == old(stats.View()) && stats.fragments == old(stats.fragments)
    ensures var upper := LostUpper(count, stats.wireBatchTotal, stats.haveSeq, stats.highestSeq);
            var missing := if upper == None then 0 else |Missing(stats.seenSeq, upper.value + 1)|;
            ends == (upper != Some(LAST_U32)) && (ends ==> stats.lost == old(stats.lost) + missing)
  {
    hide Duplicates, OutOfOrder, SeenSet, IsHighest;
    var upper: u32 := 0;
    if count.Some? {
      if count.value == 0 {
        return true;
      }
      upper := (count.value - 1) % WRAP;
    } else if stats.wireBatchTotal.Some? {
      upper := (stats.wireBatchTotal.value + WRAP - 1) % WRAP;
    } else if stats.haveSeq {
      upper := stats.highestSeq;
    } else {
      return true;
    }
    CounterPasses(upper);
    if upper == LAST_U32 {
      return false;
    }
    var seqNo: u32 := 0;
    NothingMissing(stats.seenSeq);
    while seqNo <= upper
      invariant seqNo <= upper + 1
      invariant stats.lost == old(stats.lost) + |Missing(stats.seenSeq, seqNo)|
    {
      MissingNext(stats.seenSeq, seqNo);
      if seqNo !in stats.seenSeq {
        stats.lost := stats.lost + 1;
      }
      seqNo := (seqNo + 1) % WRAP;
    }
    return true;
  }

  lemma NothingMissing(seen: set<u32>)
    ensures |Missing(seen, 0)| == 0
  {
  }

  lemma MissingNext(seen: set<u32>, n: u32)
    ensures |Missing(seen, n + 1)| == |Missing(seen, n)| + (if n in seen then 0 else 1)
  {
    if n in seen {
      assert Missing(seen, n + 1) == Missing(seen, n);
    } else {
      assert Missing(seen, n + 1) == Missing(seen, n) + {n as nat};
    }
  }

  // ----- the session -----

  /** The state of the parser after these datagrams. */
  function After(datagrams: seq<seq<byte>>): Parsed {
    Parse(NEW_SESSION, Flat(datagrams))
  }

  /** What the summary says, from the accepted batches, the failures and the pending bytes alone. */
  function SummaryOf(p: Parsed, read: nat, count: Option<nat>): SessionEnd {
    var q := Seqs(p.ledger.log);
    var upper := LostUpper(count, p.ledger.total, false, 0);
    var incomplete := if |p.pending| >= HEADER_SIZE then 1 else 0;
    if upper == Some(LAST_U32) then NeverEnds
    else
      Summary(|q|, read + p.ledger.carries, p.ledger.bad + incomplete,
              if upper == None then 0 else |Missing(SeenSet(q), upper.value + 1)|, Duplicates(q), OutOfOrder(q))
  }

  /** How many datagrams a session reads: all of them, or up to the one that completes the wanted count. */
  ghost predicate StopsAfter(datagrams: seq<seq<byte>>, count: Option<nat>, read: nat) {
    && read <= |datagrams|
    && (read < |datagrams| ==> count.Some? && |After(datagrams[..read]).ledger.log| >= count.value)
    && (count.Some? ==> forall m :: 0 <= m < read ==> |After(datagrams[..m]).ledger.log| < count.value)
  }

  lemma AfterNext(datagrams: seq<seq<byte>>, n: nat)
    requires n < |datagrams|
    ensures var p := After(datagrams[..n]);
            After(datagrams[..n + 1]) == Parse(p.ledger, p.pending + datagrams[n])
  {
    hide Parse;
    assert datagrams[..n + 1] == datagrams[..n] + [datagrams[n]];
    FlatSnoc(datagrams[..n], datagrams[n]);
    ParseAppend(NEW_SESSION, Flat(datagrams[..n]), datagrams[n]);
  }

  lemma AfterNothing()
    ensures After([]) == Parsed(NEW_SESSION, [])
  {
  }

  /** The accounting at the end of a session: an incomplete batch counts as bad, then the lost are counted. */
  method EndSession(stats: ServerStats, r: BatchReassembly, read: nat, count: Option<nat>) returns (end: SessionEnd)
    requires Consistent(stats, r) && Budgeted(stats.View())
    requires stats.fragments == read + stats.carries && stats.lost == 0
    modifies stats, r
    ensures end == SummaryOf(old(Standing(stats, r)), read, count)
    ensures end.Summary? ==>
              && end.batches == old(stats.batches) && end.fragments == old(stats.fragments)
              && end.bad == old(stats.badBatches) + (if old(r.active) then 1 else 0)
              && end.duplicates == old(stats.duplicates) && end.outOfOrder == old(stats.outOfOrder)
  {
    hide Duplicates, OutOfOrder, SeenSet, IsHighest, LostUpper, Budgeted, Seqs, Missing;
    ghost var g := stats.View();
    ActiveIffHeader(stats, r);
    UpperFromTotal(count, g, stats.haveSeq, stats.highestSeq);
    if r.active {
      stats.CountFailure();
      r.Reset();
    }
    var ends := FinalizeLost(stats, count);
    if ends {
      end := Summary(stats.batches, stats.fragments, stats.badBatches, stats.lost, stats.duplicates, stats.outOfOrder);
    } else {
      end := NeverEnds;
    }
  }

  /** The branch on the highest number alone is never taken: an accepted batch has latched a total. */
  lemma UpperFromTotal(count: Option<nat>, g: Ledger, haveSeq: bool, highest: u32)
    requires Budgeted(g) && haveSeq == (g.log != [])
    ensures LostUpper(count, g.total, haveSeq, highest) == LostUpper(count, g.total, false, 0)
  {
  }

  lemma AfterBudgeted(datagrams: seq<seq<byte>>)
    ensures Budgeted(After(datagrams).ledger)
  {
    hide Parse;
    ParseKeeps(NEW_SESSION, Flat(datagrams));
  }

  /** What a printed summary says, apart from the loss count: the conservation laws below determine that. */
  ghost predicate Tells(end: SessionEnd, p: Parsed, read: nat) {
    var q := Seqs(p.ledger.log);
    end.Summary? ==>
      && end.batches == |q| && end.fragments == read + p.ledger.carries
      && end.bad == p.ledger.bad + (if |p.pending| >= HEADER_SIZE then 1 else 0)
      && end.duplicates == Duplicates(q) && end.outOfOrder == OutOfOrder(q)
  }

  /** One session over the datagrams that arrive before the idle timeout. */
  method RunReceiveLoop(datagrams: seq<seq<byte>>, count: Option<nat>)
    returns (end: SessionEnd, read: nat, lines: seq<OkLine>)
    ensures StopsAfter(datagrams, count, read)
    ensures end == SummaryOf(After(datagrams[..read]), read, count)
    ensures Tells(end, After(datagrams[..read]), read)
    ensures Logged([], lines, After(datagrams[..read]).ledger.log)
  {
    hide Parse, SummaryOf, Logged, ServerStats.Tracks, Budgeted, Tells;
    var stats := new ServerStats();
    var r := new BatchReassembly();
    read, lines := 0, [];
    AfterNothing();
    NothingLogged([]);
    assert datagrams[..0] == [];
    while read < |datagrams| && (count.Some? ==> stats.batches < count.value)
      invariant read <= |datagrams|
      invariant fresh(stats) && fresh(r) && Consistent(stats, r)
      invariant Standing(stats, r) == After(datagrams[..read])
      invariant stats.fragments == read + stats.carries && stats.lost == 0
      invariant Logged([], lines, stats.log)
      invariant count.Some? ==> forall m :: 0 <= m < read ==> |After(datagrams[..m]).ledger.log| < count.value
    {
      ghost var before := stats.log;
      var more := IngestFragment(datagrams[read], stats, r);
      LoggedAppend([], lines, before, more, stats.log);
      lines := lines + more;
      AfterNext(datagrams, read);
      read := read + 1;
    }
    AfterBudgeted(datagrams[..read]);
    end := EndSession(stats, r, read, count);
    SummaryTells(After(datagrams[..read]), read, count);
  }

  lemma SummaryTells(p: Parsed, read: nat, count: Option<nat>)
    ensures Tells(SummaryOf(p, read, count), p, read)
  {
  }

  // ----- what the summary adds up to -----

  lemma SeenBelowTotal(g: Ledger)
    requires Budgeted(g) && g.total.Some?
    ensures forall x :: x in SeenSet(Seqs(g.log)) ==> x < g.total.value
  {
  }

  /**
   * Without a count, once any header was taken, distinct accepted batches and lost batches add up to the
   * latched total; if none was, the summary is all zero.
   */
  lemma IdleConservation(datagrams: seq<seq<byte>>)
    ensures var p := After(datagrams);
            var end := SummaryOf(p, |datagrams|, None);
            match p.ledger.total
            case Some(total) => end.Summary? && end.batches + end.lost == total + end.duplicates
            case None => end == Summary(0, |datagrams|, 0, 0, 0, 0)
  {
    hide Parse, OutOfOrder, LateFirst;
    var p := After(datagrams);
    AfterBudgeted(datagrams);
    ParseIsQuiet(NEW_SESSION, Flat(datagrams));
    if p.ledger.total.Some? {
      var total, seen := p.ledger.total.value, SeenSet(Seqs(p.ledger.log));
      SeenBelowTotal(p.ledger);
      MissingPartition(seen, total);
      assert (set x | x in seen && x < total) == seen;
      TotalPositive(NEW_SESSION, Flat(datagrams));
      assert Some((total + WRAP - 1) % WRAP) == Some(total - 1);
    } else {
      EmptyHistory();
      assert Seqs(p.ledger.log) == [];
    }
  }

  /** A latched total is never zero. */
  lemma {:induction false} TotalPositive(g: Ledger, s: seq<byte>)
    requires g.total != Some(0)
    ensures Parse(g, s).ledger.total != Some(0)
    decreases |s|
  {
    hide ReadHeader, IsOk, SalvageAt;
    if |s| < HEADER_SIZE {
    } else if !Starts(g.total, s) {
      TotalPositive(Drop(g, 1), s[1..]);
    } else if Ready(s) {
      var h := ReadHeader(s);
      var c := Complete(Latch(g, h.batchTotal), s[..h.length]);
      TotalPositive(c.ledger, c.pending + s[h.length..]);
    }
  }

  /**
   * With a count c >= 1 the loss count accounts for every number below c exactly when c fits 32 bits:
   * it never ends for a multiple of 2^32, and above 2^32 it counts up to a truncated bound.
   */
  lemma CountConservation(datagrams: seq<seq<byte>>, read: nat, c: nat)
    requires 1 <= c
    ensures var p := After(datagrams);
            var end := SummaryOf(p, read, Some(c));
            (end.NeverEnds? <==> c % WRAP == 0) &&
            (end.Summary? && end.lost + |set x | x in SeenSet(Seqs(p.ledger.log)) && x < c| == c <==> c < WRAP)
  {
    hide Parse, OutOfOrder, LateFirst;
    var p := After(datagrams);
    var seen := SeenSet(Seqs(p.ledger.log));
    var n := (c - 1) % WRAP + 1;
    MissingPartition(seen, n);
    if c % WRAP != 0 && c > WRAP {
      MissingPartition(seen, WRAP);
      assert |seen| <= WRAP by { assert (set x | x in seen && x < WRAP) == seen; }
      assert (set x | x in seen && x < c) == seen;
      TruncatedCount(seen, c, n);
    }
  }

  lemma TruncatedCount(seen: set<u32>, c: nat, n: nat)
    requires c > WRAP && c % WRAP != 0 && n == (c - 1) % WRAP + 1
    ensures |Missing(seen, n)| + |seen| != c
  {
    MissingPartition(seen, n);
    MissingPartition(seen, WRAP);
    var below := set x | x in seen && x < n;
    assert (set x | x in seen && x < WRAP) == seen;
    assert n <= c - WRAP;
    assert Missing(seen, n) <= Missing(seen, WRAP);
    if Missing(seen, n) != {} {
      var x :| x in Missing(seen, n);
      assert x in Missing(seen, WRAP);
    }
  }
}
