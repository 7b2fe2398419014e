/** Recovery after bytes of one batch are lost: exactly that batch and the next one are lost. */
module Resync {
  import opened Bytes
  import opened Packet
  import opened StreamParser
  import opened Recovery
  import opened Session
  import opened EndToEnd

  /**
   * The rest of a stream in which bytes behind a batch's header were lost: what is left of the batch,
   * then the following batches. The first size bytes do not pass, and up to the second batch after the
   * loss no header of the session starts except the true ones.
   */
  ghost predicate Damaged(n: u32, size: nat, left: seq<byte>, next: seq<byte>, others: seq<byte>) {
    var t := left + next + others;
    && HEADER_SIZE <= |left| < size == |next|
    && Starts(Some(n), left) && ReadHeader(left).length == size
    && Starts(Some(n), next) && ReadHeader(next).length == size
    && !IsOk(t[..size])
    && forall i :: 1 <= i < |left| + size && i != |left| ==> !Starts(Some(n), t[i..])
  }

  /** The only candidate inside the failed slice is too long for it. */
  lemma NothingSalvaged(n: u32, size: nat, left: seq<byte>, next: seq<byte>, others: seq<byte>)
    requires Damaged(n, size, left, next, others)
    ensures SalvageAt((left + next + others)[..size], Some(n)) == size
  {
    hide ReadHeader, IsOk;
    var t := left + next + others;
    var slice := t[..size];
    var at := SalvageAt(slice, Some(n));
    if at < size {
      assert slice[at..] + t[size..] == t[at..];
      StartsPrefix(Some(n), slice[at..], t[size..]);
      assert at == |left|;
      assert t[at..] == next + others;
      StartsPrefix(Some(n), next, others);
      assert false;
    }
  }

  /** The failed slice is counted once and dropped whole. */
  lemma SpliceFails(g: Ledger, n: u32, size: nat, left: seq<byte>, next: seq<byte>, others: seq<byte>)
    requires Damaged(n, size, left, next, others) && (g.total.Some? ==> g.total.value == n)
    ensures Parse(g, left + next + others) ==
            Parse(Reject(Latch(g, n), size, false), next[size - |left|..] + others)
  {
    hide ReadHeader, IsOk, SalvageAt;
    var t := left + next + others;
    assert t == left + (next + others);
    StartsPrefix(g.total, left, next + others);
    NothingSalvaged(n, size, left, next, others);
    assert t[size..] == next[size - |left|..] + others;
    assert [] + t[size..] == t[size..];
  }

  /** No header of the session starts in the orphaned end of the next batch. */
  lemma OrphanIsJunk(n: u32, size: nat, left: seq<byte>, next: seq<byte>, others: seq<byte>)
    requires Damaged(n, size, left, next, others)
    ensures NoStart(Some(n), next[size - |left|..] + others, |left|)
  {
    hide ReadHeader, IsOk, Starts;
    var t := left + next + others;
    var u := next[size - |left|..] + others;
    forall i | 0 <= i < |left| && i <= |u| ensures !Starts(Some(n), u[i..]) {
      assert u[i..] == t[size + i..];
    }
  }

  /** Junk before a run of batches is skipped, and leaves at most a short tail if no batch follows. */
  lemma JunkThenRun(g: Ledger, n: u32, junk: seq<byte>, bs: seq<seq<byte>>)
    requires g.total == Some(n) && Run(n, bs) && NoStart(Some(n), junk + Flat(bs), |junk|)
    requires forall i :: 0 <= i < |bs| ==> HEADER_SIZE < |bs[i]|
    ensures var p := Parse(g, junk + Flat(bs));
            |p.pending| < HEADER_SIZE && exists pos :: p.ledger == TakenAll(g.(pos := pos), bs).(pos := p.ledger.pos)
  {
    hide ReadHeader, IsOk, Parse, Starts, TakenAll, NoStart;
    if bs == [] {
      assert junk + Flat(bs) == junk;
      SkipAllJunk(g, junk);
      TakenNone(g, bs);
      assert Parse(g, junk).ledger == TakenAll(g.(pos := g.pos), bs).(pos := Parse(g, junk).ledger.pos);
    } else {
      var u := junk + Flat(bs);
      FlatLong(n, bs);
      SkipJunk(g, u, |junk|);
      assert u[|junk|..] == Flat(bs) + [];
      var g' := Drop(g, |junk|);
      ParseRun(g', n, bs, []);
      ParseQuiet(TakenAll(g', bs), []);
      assert g' == g.(pos := g'.pos);
    }
  }

  lemma TakenNone(g: Ledger, bs: seq<seq<byte>>)
    requires bs == []
    ensures TakenAll(g, bs) == g
  {
  }

  lemma FlatLong(n: u32, bs: seq<seq<byte>>)
    requires Run(n, bs) && bs != []
    ensures HEADER_SIZE <= |Flat(bs)|
  {
  }

  /**
   * If a non-empty part of batch k behind its header is lost, leaving left, then, however the stream is
   * cut, exactly batches k and k + 1 are lost, one failure is counted, and every other batch is accepted
   * in order.
   */
  lemma ResyncAfterLoss(n: u32, size: nat, bs: seq<seq<byte>>, k: nat, left: seq<byte>,
                        cut: seq<seq<byte>>, count: Option<nat>)
    requires HEADER_SIZE < size && n == |bs| && k + 2 <= n && Numbered(n, bs, size)
    requires Damaged(n, size, left, bs[k + 1], Flat(bs[k + 2..]))
    requires Flat(cut) == Flat(bs[..k]) + (left + bs[k + 1] + Flat(bs[k + 2..]))
    requires count in {None, Some(n as nat)}
    ensures var log := After(cut).ledger.log;
            |log| == n - 2 && forall i :: 0 <= i < n - 2 ==> log[i].seqNo == if i < k then i else i + 2
    ensures SummaryOf(After(cut), |cut|, count) == Summary(n - 2, |cut|, 1, 2, 0, 0)
  {
    hide ReadHeader, IsOk, Parse, SummaryOf, Damaged;
    ResyncLedger(n, size, bs, k, left);
    var p := After(cut);
    forall i | 0 <= i < n - 2 ensures Seqs(p.ledger.log)[i] == p.ledger.log[i].seqNo {
    }
    IncreasingSession(p, n, |cut|, count);
  }

  lemma ResyncLedger(n: u32, size: nat, bs: seq<seq<byte>>, k: nat, left: seq<byte>)
    requires HEADER_SIZE < size && n == |bs| && k + 2 <= n && Numbered(n, bs, size)
    requires Damaged(n, size, left, bs[k + 1], Flat(bs[k + 2..]))
    ensures var p := Parse(NEW_SESSION, Flat(bs[..k]) + (left + bs[k + 1] + Flat(bs[k + 2..])));
            && |p.pending| < HEADER_SIZE && p.ledger.total == Some(n) && p.ledger.bad == 1 && p.ledger.carries == 0
            && |p.ledger.log| == n - 2
            && forall i :: 0 <= i < n - 2 ==> Seqs(p.ledger.log)[i] == if i < k then i else i + 2
  {
    hide ReadHeader, Parse, Damaged, Fits, TakenAll;
    var t := left + bs[k + 1] + Flat(bs[k + 2..]);
    DamagedNonempty(n, size, left, bs[k + 1], Flat(bs[k + 2..]));
    ParseRun(NEW_SESSION, n, bs[..k], t);
    TakenAllFields(NEW_SESSION, n, bs[..k]);
    var g := TakenAll(NEW_SESSION, bs[..k]);
    SpliceFails(g, n, size, left, bs[k + 1], Flat(bs[k + 2..]));
    var r := Reject(Latch(g, n), size, false);
    OrphanIsJunk(n, size, left, bs[k + 1], Flat(bs[k + 2..]));
    JunkThenRun(r, n, bs[k + 1][size - |left|..], bs[k + 2..]);
    var p := Parse(r, bs[k + 1][size - |left|..] + Flat(bs[k + 2..]));
    var pos :| p.ledger == TakenAll(r.(pos := pos), bs[k + 2..]).(pos := p.ledger.pos);
    TakenAllFields(r.(pos := pos), n, bs[k + 2..]);
    assert Seqs(p.ledger.log) == Seqs([]) + NumbersOf(bs[..k]) + NumbersOf(bs[k + 2..]);
  }

  lemma DamagedNonempty(n: u32, size: nat, left: seq<byte>, next: seq<byte>, others: seq<byte>)
    requires Damaged(n, size, left, next, others)
    ensures HEADER_SIZE <= |left| < size == |next| && left + next + others != []
  {
    hide ReadHeader, IsOk, Starts;
  }
}
