/** Which batches count as failed: exactly the complete slices behind a session header that do not pass. */
module Corruption {
  import opened Bytes
  import opened Packet
  import opened StreamParser
  import opened StreamProperties
  import opened Recovery
  import opened Session
  import opened EndToEnd

  // ----- the failures of any stream -----

  /** Where in the stream the failed batches start. */
  function Failures(g: Ledger, s: seq<byte>): seq<nat>
    decreases |s|
  {
    if |s| < HEADER_SIZE then []
    else if !Starts(g.total, s) then Failures(Drop(g, 1), s[1..])
    else if !Ready(s) then []
    else
      var h := ReadHeader(s);
      var slice := s[..h.length];
      var c := Complete(Latch(g, h.batchTotal), slice);
      (if IsOk(slice) then [] else [g.pos]) + Failures(c.ledger, c.pending + s[h.length..])
  }

  /** Every failure is counted once, and nothing else is. */
  lemma {:induction false} FailuresCounted(g: Ledger, s: seq<byte>)
    ensures Parse(g, s).ledger.bad == g.bad + |Failures(g, s)|
    decreases |s|
  {
    hide ReadHeader, IsOk, SalvageAt;
    if |s| < HEADER_SIZE {
    } else if !Starts(g.total, s) {
      FailuresCounted(Drop(g, 1), s[1..]);
    } else if Ready(s) {
      var h := ReadHeader(s);
      var c := Complete(Latch(g, h.batchTotal), s[..h.length]);
      FailuresCounted(c.ledger, c.pending + s[h.length..]);
    }
  }

  /** A complete slice behind a header of the session starts here and does not pass. */
  ghost predicate FailsAt(stream: seq<byte>, total: Option<u32>, at: nat) {
    && at + HEADER_SIZE <= |stream|
    && Starts(total, stream[at..])
    && var n := ReadHeader(stream[at..]).length;
    && at + n <= |stream| && !IsOk(stream[at..at + n])
  }

  lemma {:induction false} TotalKept(g: Ledger, s: seq<byte>)
    requires g.total.Some?
    ensures Parse(g, s).ledger.total == g.total
    decreases |s|
  {
    hide ReadHeader, IsOk, SalvageAt;
    if |s| < HEADER_SIZE {
    } else if !Starts(g.total, s) {
      TotalKept(Drop(g, 1), s[1..]);
    } else if Ready(s) {
      var h := ReadHeader(s);
      var c := Complete(Latch(g, h.batchTotal), s[..h.length]);
      TotalKept(c.ledger, c.pending + s[h.length..]);
    }
  }

  /** Such slices, each once and in order, none before a position. */
  ghost predicate FailureList(stream: seq<byte>, total: Option<u32>, from: nat, f: seq<nat>) {
    && (forall i :: 0 <= i < |f| ==> from <= f[i] && FailsAt(stream, total, f[i]))
    && (forall i, j :: 0 <= i < j < |f| ==> f[i] < f[j])
  }

  lemma Prepend(stream: seq<byte>, total: Option<u32>, at: nat, from: nat, f: seq<nat>)
    requires FailureList(stream, total, from, f) && at < from
    ensures FailureList(stream, total, at, f)
    ensures FailsAt(stream, total, at) ==> FailureList(stream, total, at, [at] + f)
  {
    hide FailsAt;
  }

  /** The failures from any point of a stream on are such a list. */
  lemma {:induction false} FailuresSound(stream: seq<byte>, g: Ledger, s: seq<byte>)
    requires g.pos <= |stream| && s == stream[g.pos..]
    ensures FailureList(stream, Parse(g, s).ledger.total, g.pos, Failures(g, s))
    decreases |s|
  {
    hide ReadHeader, IsOk, SalvageAt, FailsAt, FailureList;
    if |s| < HEADER_SIZE {
      NoFailures(stream, Parse(g, s).ledger.total, g.pos);
    } else if !Starts(g.total, s) {
      assert s[1..] == stream[g.pos + 1..];
      FailuresSound(stream, Drop(g, 1), s[1..]);
      Prepend(stream, Parse(g, s).ledger.total, g.pos, g.pos + 1, Failures(g, s));
    } else if !Ready(s) {
      NoFailures(stream, Parse(g, s).ledger.total, g.pos);
    } else {
      var h := ReadHeader(s);
      var l := Latch(g, h.batchTotal);
      var slice := s[..h.length];
      var c := Complete(l, slice);
      var rest := c.pending + s[h.length..];
      Position(stream, l, slice);
      TotalKept(c.ledger, rest);
      FailuresSound(stream, c.ledger, rest);
      if !IsOk(slice) {
        FailsHere(stream, g, s);
      } else {
        assert Failures(g, s) == Failures(c.ledger, rest);
      }
      Prepend(stream, l.total, g.pos, c.ledger.pos, Failures(c.ledger, rest));
    }
  }

  lemma NoFailures(stream: seq<byte>, total: Option<u32>, from: nat)
    ensures FailureList(stream, total, from, [])
  {
  }

  /** Parsing goes on behind the start of a complete batch, where the ledger says. */
  lemma Position(stream: seq<byte>, g: Ledger, slice: seq<byte>)
    requires g.pos + |slice| <= |stream| && slice == stream[g.pos..g.pos + |slice|] && HEADER_SIZE <= |slice|
    ensures var c := Complete(g, slice);
            && g.pos < c.ledger.pos <= |stream| && c.ledger.total == g.total
            && c.pending + stream[g.pos..][|slice|..] == stream[c.ledger.pos..]
  {
    hide ReadHeader, IsOk;
    var c := Complete(g, slice);
    if !IsOk(slice) {
      assert slice[SalvageAt(slice, g.total)..] + stream[g.pos + |slice|..] == stream[c.ledger.pos..];
    }
  }

  lemma FailsHere(stream: seq<byte>, g: Ledger, s: seq<byte>)
    requires g.pos <= |stream| && s == stream[g.pos..] && Starts(g.total, s) && Ready(s)
    requires !IsOk(s[..ReadHeader(s).length])
    ensures FailsAt(stream, Some(ReadHeader(s).batchTotal), g.pos)
  {
    hide ReadHeader, IsOk;
    var n := ReadHeader(s).length;
    assert stream[g.pos..g.pos + n] == s[..n];
  }

  /**
   * Over a whole session the bad count is the length of a list of positions, in increasing order, at each of
   * which a complete batch of the session starts that does not pass.
   */
  lemma BadAreFailures(stream: seq<byte>)
    ensures var p, f := Parse(NEW_SESSION, stream), Failures(NEW_SESSION, stream);
            && p.ledger.bad == |f|
            && (forall i :: 0 <= i < |f| ==> FailsAt(stream, p.ledger.total, f[i]))
            && (forall i, j :: 0 <= i < j < |f| ==> f[i] < f[j])
  {
    hide Parse, Failures, FailsAt;
    FailuresCounted(NEW_SESSION, stream);
    assert stream[0..] == stream;
    FailuresSound(stream, NEW_SESSION, stream);
  }

  // ----- a run corrupted in place -----

  /** What is received for batch i: its header is intact, and it holds no header of another length. */
  ghost predicate Framing(n: u32, size: nat, i: nat, r: seq<byte>) {
    && |r| == size > HEADER_SIZE
    && Starts(Some(n), r) && ReadHeader(r).seqNo == i && UniformLength(Some(n), r, size)
  }

  /** A batch with an intact header is accepted if it passes, and else is one failure and dropped whole. */
  lemma OneBatch(g: Ledger, n: u32, size: nat, i: nat, r: seq<byte>)
    requires Framing(n, size, i, r) && (g.total.Some? ==> g.total.value == n)
    ensures Parse(g, r) ==
            Parsed(if IsOk(r) then Accept(Latch(g, n), size, i) else Reject(Latch(g, n), size, false), [])
  {
    hide ReadHeader, IsOk, UniformLength, SalvageAt;
    UniformHere(Some(n), r, size);
    UniformNoSalvage(Some(n), r, size);
    assert r[..size] == r && [] + r[size..] == [];
    ParseQuiet(if IsOk(r) then Accept(Latch(g, n), size, i) else Reject(Latch(g, n), size, false), []);
  }

  /** The numbers below k that are not in broken, in increasing order. */
  function Kept(broken: set<nat>, k: nat): seq<nat> {
    if k == 0 then [] else Kept(broken, k - 1) + if k - 1 in broken then [] else [k - 1]
  }

  ghost predicate IncreasingOutside(q: seq<nat>, broken: set<nat>, k: nat) {
    && (forall i, j :: 0 <= i < j < |q| ==> q[i] < q[j])
    && forall i :: 0 <= i < |q| ==> q[i] < k && q[i] !in broken
  }

  lemma Extend(q: seq<nat>, broken: set<nat>, k: nat)
    requires IncreasingOutside(q, broken, k)
    ensures IncreasingOutside(q, broken, k + 1)
    ensures k !in broken ==> IncreasingOutside(q + [k], broken, k + 1)
  {
  }

  lemma {:induction false} KeptIncreases(broken: set<nat>, k: nat)
    ensures IncreasingOutside(Kept(broken, k), broken, k)
  {
    if k > 0 {
      KeptIncreases(broken, k - 1);
      Extend(Kept(broken, k - 1), broken, k - 1);
      assert k - 1 in broken ==> Kept(broken, k) == Kept(broken, k - 1);
    }
  }

  /** Every other number is kept. */
  lemma {:induction false} KeptAll(broken: set<nat>, k: nat, x: nat)
    requires x < k && x !in broken
    ensures x in Kept(broken, k)
  {
    if x < k - 1 {
      KeptAll(broken, k - 1, x);
    }
  }

  lemma {:induction false} KeptCount(broken: set<nat>, k: nat)
    ensures |Kept(broken, k)| + |set x | x in broken && x < k| == k
  {
    var below := set x | x in broken && x < k;
    if k == 0 {
      assert below == {};
    } else {
      KeptCount(broken, k - 1);
      var less := set x | x in broken && x < k - 1;
      if k - 1 in broken {
        assert below == less + {k - 1};
      } else {
        assert below == less;
      }
    }
  }

  /** The batches received for a run, of which exactly those in broken do not pass. */
  ghost predicate Received(n: u32, size: nat, rs: seq<seq<byte>>, broken: set<nat>) {
    && n == |rs|
    && (forall i :: 0 <= i < |rs| ==> Framing(n, size, i, rs[i]) && (IsOk(rs[i]) <==> i !in broken))
    && forall i :: i in broken ==> i < |rs|
  }

  /** Where the parser stands after the first k batches of such a run. */
  ghost predicate Through(p: Parsed, n: u32, broken: set<nat>, k: nat) {
    && p.pending == [] && p.ledger.carries == 0 && p.ledger.total == (if k == 0 then None else Some(n))
    && Seqs(p.ledger.log) == Kept(broken, k) && p.ledger.bad + |Kept(broken, k)| == k
  }

  lemma ThroughNext(p: Parsed, n: u32, size: nat, broken: set<nat>, k: nat, r: seq<byte>)
    requires Through(p, n, broken, k) && Framing(n, size, k, r) && (IsOk(r) <==> k !in broken)
    ensures Through(Parse(p.ledger, p.pending + r), n, broken, k + 1)
  {
    hide Framing, IsOk, Parse;
    assert p.pending + r == r;
    OneBatch(p.ledger, n, size, k, r);
  }

  lemma {:induction false} RunThrough(n: u32, size: nat, rs: seq<seq<byte>>, broken: set<nat>, k: nat)
    requires Received(n, size, rs, broken) && k <= n
    ensures Through(Parse(NEW_SESSION, Flat(rs[..k])), n, broken, k)
  {
    hide Framing, IsOk, Parse, Through;
    if k == 0 {
      ThroughNothing(n, broken);
      assert Flat(rs[..0]) == [];
    } else {
      RunThrough(n, size, rs, broken, k - 1);
      assert rs[..k] == rs[..k - 1] + [rs[k - 1]];
      FlatSnoc(rs[..k - 1], rs[k - 1]);
      ParseAppend(NEW_SESSION, Flat(rs[..k - 1]), rs[k - 1]);
      ThroughNext(Parse(NEW_SESSION, Flat(rs[..k - 1])), n, size, broken, k - 1, rs[k - 1]);
    }
  }

  lemma ThroughNothing(n: u32, broken: set<nat>)
    ensures Through(Parse(NEW_SESSION, []), n, broken, 0)
  {
  }

  /**
   * A run in which any batches are corrupted behind their headers, however it is cut: as many are bad and
   * lost as are corrupted, and all others are accepted in order.
   */
  lemma CorruptedRun(n: u32, size: nat, rs: seq<seq<byte>>, broken: set<nat>, cut: seq<seq<byte>>,
                     count: Option<nat>)
    requires 1 <= n <= LAST_U32 && Received(n, size, rs, broken) && Flat(cut) == Flat(rs)
    requires count in {None, Some(n as nat)}
    ensures |broken| <= n && Seqs(After(cut).ledger.log) == Kept(broken, n)
    ensures SummaryOf(After(cut), |cut|, count) ==
            Summary(n - |broken|, |cut|, |broken|, |broken|, 0, 0)
  {
    hide Framing, IsOk, Parse, SummaryOf, Kept, Seqs;
    assert rs[..n] == rs;
    RunThrough(n, size, rs, broken, n);
    KeptIncreases(broken, n);
    KeptCount(broken, n);
    assert (set x | x in broken && x < n) == broken;
    IncreasingSession(After(cut), n, |cut|, count);
  }

  // ----- bursts in the payloads of a sent run -----

  /** The same batch, or one that differs from it within four consecutive payload bytes. */
  ghost predicate BurstInPayload(sent: seq<byte>, received: seq<byte>) {
    |received| == |sent| &&
    exists lo, hi :: HEADER_SIZE <= lo <= hi <= |sent| && hi - lo <= 4 &&
                     received[..lo] == sent[..lo] && received[hi..] == sent[hi..]
  }

  lemma BurstBreaks(n: u32, size: nat, i: nat, sent: seq<byte>, received: seq<byte>)
    requires Fits(Some(n), sent) && |sent| == size && ReadHeader(sent).seqNo == i && HEADER_SIZE < size
    requires BurstInPayload(sent, received) && UniformLength(Some(n), received, size)
    ensures Framing(n, size, i, received) && (IsOk(received) <==> received == sent)
  {
    hide ReadHeader, IsOk, Starts, UniformLength;
    var lo, hi :| HEADER_SIZE <= lo <= hi <= |sent| && hi - lo <= 4 &&
                  received[..lo] == sent[..lo] && received[hi..] == sent[hi..];
    assert received[..HEADER_SIZE] == received[..lo][..HEADER_SIZE] == sent[..HEADER_SIZE];
    SameHeader(Some(n), sent, received);
    if received != sent {
      BurstRejected(sent, received, lo, hi);
    }
  }

  /**
   * What the checksum is for: when each batch of a sent run arrives whole or with a change of up to four
   * consecutive payload bytes, exactly the changed ones are bad and lost, whichever they are.
   */
  lemma BurstsCaught(n: u32, size: nat, bs: seq<seq<byte>>, rs: seq<seq<byte>>, cut: seq<seq<byte>>,
                     count: Option<nat>)
    requires 1 <= n == |bs| && n <= LAST_U32 && HEADER_SIZE < size && Numbered(n, bs, size) && |rs| == |bs|
    requires forall i :: 0 <= i < n ==> BurstInPayload(bs[i], rs[i]) && UniformLength(Some(n), rs[i], size)
    requires Flat(cut) == Flat(rs) && count in {None, Some(n as nat)}
    ensures var changed := set i: nat | i < n && rs[i] != bs[i];
            && |changed| <= n && Seqs(After(cut).ledger.log) == Kept(changed, n)
            && SummaryOf(After(cut), |cut|, count) ==
               Summary(n - |changed|, |cut|, |changed|, |changed|, 0, 0)
  {
    hide ReadHeader, IsOk, Starts, Parse, SummaryOf, BurstInPayload, UniformLength, Framing, Kept;
    var changed := set i: nat | i < n && rs[i] != bs[i];
    forall i | 0 <= i < n ensures Framing(n, size, i, rs[i]) && (IsOk(rs[i]) <==> i !in changed) {
      BurstBreaks(n, size, i, bs[i], rs[i]);
    }
    CorruptedRun(n, size, rs, changed, cut, count);
  }
}
