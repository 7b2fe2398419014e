/** When a session that wants a number of batches accepts exactly that number. */
module Counting {
  import opened Bytes
  import opened Packet
  import opened StreamParser
  import opened StreamProperties
  import opened Recovery
  import opened Session
  import opened EndToEnd
  import opened Sender
  import opened History

  // ----- any stream -----

  /** The number of batches accepted from the first m datagrams. */
  function Accepted(datagrams: seq<seq<byte>>, m: nat): nat
    requires m <= |datagrams|
  {
    |After(datagrams[..m]).ledger.log|
  }

  lemma AcceptedGrows(datagrams: seq<seq<byte>>, k: nat, m: nat)
    requires k <= m <= |datagrams|
    ensures Accepted(datagrams, k) <= Accepted(datagrams, m)
  {
    hide Parse;
    var a, b := datagrams[..k], datagrams[k..m];
    assert datagrams[..m] == a + b;
    FlatAppend(a, b);
    ParseAppend(NEW_SESSION, Flat(a), Flat(b));
    LogGrows(After(a).ledger, After(a).pending + Flat(b));
  }

  /** The session stops at the first datagram after which enough batches are accepted. */
  lemma StopsAtFirst(datagrams: seq<seq<byte>>, c: nat, read: nat, m: nat)
    requires StopsAfter(datagrams, Some(c), read) && m <= |datagrams|
    requires c <= Accepted(datagrams, m) && forall k :: 0 <= k < m ==> Accepted(datagrams, k) < c
    ensures read == m
  {
    hide Parse;
    assert read < m ==> Accepted(datagrams, read) < c;
  }

  /** For any stream the count is met exactly if some number of datagrams holds exactly that many batches. */
  lemma MetIfReached(datagrams: seq<seq<byte>>, c: nat, read: nat)
    requires StopsAfter(datagrams, Some(c), read)
    ensures Accepted(datagrams, read) == c <==> exists m :: 0 <= m <= |datagrams| && Accepted(datagrams, m) == c
  {
    hide Parse;
    if m :| 0 <= m <= |datagrams| && Accepted(datagrams, m) == c {
      if read <= m {
        AcceptedGrows(datagrams, read, m);
      }
    }
  }

  // ----- a lossless run -----

  /** How many batches of this size the first t bytes of a run complete; a bare header waits for a byte more. */
  function Completed(t: nat, size: nat): nat
    requires HEADER_SIZE <= size
  {
    if size > HEADER_SIZE then t / size else if t == 0 then 0 else (t - 1) / size
  }

  /** The part of a batch that has arrived stays pending. */
  lemma PartWaits(g: Ledger, total: u32, b: seq<byte>, r: nat)
    requires Fits(Some(total), b) && (g.total.Some? ==> g.total.value == total)
    requires r < |b| || r == |b| == HEADER_SIZE
    ensures Parse(g, b[..r]).ledger.log == g.log
  {
    assert ReadHeader(b).length == |b|;
    hide ReadHeader, IsOk;
    if HEADER_SIZE <= r {
      assert b == b[..r] + b[r..];
      StartsPrefix(g.total, b[..r], b[r..]);
    }
  }

  /** How the first t bytes of a run split into whole batches and a part of the next one. */
  lemma SplitRun(bs: seq<seq<byte>>, size: nat, t: nat)
    requires HEADER_SIZE <= size && (forall i :: 0 <= i < |bs| ==> |bs[i]| == size) && t <= |Flat(bs)|
    ensures var k := Completed(t, size);
            && k <= |bs|
            && if k == |bs| then Flat(bs)[..t] == Flat(bs) && (HEADER_SIZE < size || k == 0) else
                 k * size <= t && (t - k * size < size || (t - k * size == size == HEADER_SIZE))
                 && (size == HEADER_SIZE && 0 < k ==> k * size < t)
                 && Flat(bs)[..t] == Flat(bs[..k]) + bs[k][..t - k * size]
  {
    var k := Completed(t, size);
    FlatSize(bs, size);
    DivisionBounds(t, size, |bs|);
    if k < |bs| {
      FlatSize(bs[..k], size);
      FlatAppend(bs[..k], bs[k..]);
      assert bs == bs[..k] + bs[k..];
      var b, others := bs[k], Flat(bs[k..][1..]);
      assert Flat(bs[k..]) == b + others;
      CutInside(Flat(bs[..k]), b, others, t);
    }
  }

  lemma CutInside(a: seq<byte>, b: seq<byte>, c: seq<byte>, t: nat)
    requires |a| <= t <= |a| + |b|
    ensures (a + (b + c))[..t] == a + b[..t - |a|]
  {
  }

  lemma DivisionBounds(t: nat, size: nat, n: nat)
    requires HEADER_SIZE <= size && t <= n * size
    ensures var k := Completed(t, size);
            && k <= n && k * size <= t && (k == n ==> t == n * size)
            && (t - k * size < size || (t - k * size == size == HEADER_SIZE))
            && (size == HEADER_SIZE && 0 < k ==> k * size < t)
  {
  }

  /** The first t bytes of a run are accepted up to the last whole batch. */
  lemma PrefixAccepts(n: u32, bs: seq<seq<byte>>, size: nat, t: nat)
    requires Numbered(n, bs, size) && t <= |Flat(bs)|
    ensures |Parse(NEW_SESSION, Flat(bs)[..t]).ledger.log| == Completed(t, size)
  {
    hide Parse, Fits, ReadHeader, TakenAll, Completed;
    var k := Completed(t, size);
    SplitRun(bs, size, t);
    CompletedParts(n, bs, size, t, k);
  }

  lemma CompletedParts(n: u32, bs: seq<seq<byte>>, size: nat, t: nat, k: nat)
    requires Numbered(n, bs, size) && k <= |bs| && t <= |Flat(bs)|
    requires if k == |bs| then Flat(bs)[..t] == Flat(bs) && (HEADER_SIZE < size || k == 0) else
               k * size <= t && (t - k * size < size || (t - k * size == size == HEADER_SIZE))
               && (size == HEADER_SIZE && 0 < k ==> k * size < t)
               && Flat(bs)[..t] == Flat(bs[..k]) + bs[k][..t - k * size]
    ensures |Parse(NEW_SESSION, Flat(bs)[..t]).ledger.log| == k
  {
    hide Parse, Fits, ReadHeader, TakenAll;
    var rest := if k == |bs| then [] else bs[k][..t - k * size];
    assert bs[..|bs|] == bs && Flat(bs) + [] == Flat(bs);
    ParseRun(NEW_SESSION, n, bs[..k], rest);
    NumberedTaken(n, bs[..k], size);
    var g := TakenAll(NEW_SESSION, bs[..k]);
    if k == |bs| {
      ParseQuiet(g, []);
    } else {
      PartWaits(g, n, bs[k], t - k * size);
    }
  }

  /** How many batches the first datagrams of a lossless run hold, however it is cut. */
  lemma AcceptedInRun(n: u32, bs: seq<seq<byte>>, size: nat, cut: seq<seq<byte>>, m: nat)
    requires Numbered(n, bs, size) && Flat(cut) == Flat(bs) && m <= |cut|
    ensures Accepted(cut, m) == Completed(|Flat(cut[..m])|, size)
  {
    hide Parse, Numbered, Completed;
    assert cut == cut[..m] + cut[m..];
    FlatAppend(cut[..m], cut[m..]);
    var t := |Flat(cut[..m])|;
    assert Flat(bs)[..t] == Flat(cut[..m]);
    PrefixAccepts(n, bs, size, t);
  }

  /** The first t bytes of a run of batches of this size complete exactly c of them. */
  predicate Reaches(c: nat, size: nat, t: nat) {
    if size > HEADER_SIZE then c * size <= t < (c + 1) * size
    else (c == 0 || c * size < t) && t <= (c + 1) * size
  }

  lemma ReachesIffCompleted(c: nat, size: nat, t: nat)
    requires HEADER_SIZE <= size
    ensures Reaches(c, size, t) <==> Completed(t, size) == c
  {
    var u := if size > HEADER_SIZE then t else t - 1;
    if u >= 0 {
      Quotient(u, size, c);
    }
  }

  /**
   * When a wanted count is met. Over any cutting of a lossless run a session that wants c batches accepts
   * exactly c of them if and only if some number of datagrams carries at least c batches and less than
   * c + 1, which can be read off the datagram lengths before anything is received.
   */
  lemma CountMet(n: u32, bs: seq<seq<byte>>, size: nat, c: nat, cut: seq<seq<byte>>, read: nat)
    requires Numbered(n, bs, size) && Flat(cut) == Flat(bs) && StopsAfter(cut, Some(c), read)
    ensures |After(cut[..read]).ledger.log| == c <==>
            exists m :: 0 <= m <= |cut| && Reaches(c, size, |Flat(cut[..m])|)
  {
    hide After, Numbered, StopsAfter, Reaches, Completed;
    StopsInside(cut, c, read);
    MetIfReached(cut, c, read);
    SizeOfRun(n, bs, size);
    forall m | 0 <= m <= |cut| ensures Reaches(c, size, |Flat(cut[..m])|) <==> Accepted(cut, m) == c {
      AcceptedInRun(n, bs, size, cut, m);
      ReachesIffCompleted(c, size, |Flat(cut[..m])|);
    }
  }

  lemma StopsInside(cut: seq<seq<byte>>, c: nat, read: nat)
    requires StopsAfter(cut, Some(c), read)
    ensures read <= |cut|
  {
  }

  lemma SizeOfRun(n: u32, bs: seq<seq<byte>>, size: nat)
    requires Numbered(n, bs, size)
    ensures HEADER_SIZE <= size && forall i :: 0 <= i < |bs| ==> |bs[i]| == size
  {
    hide Run, ReadHeader;
  }

  // ----- a count that is overshot -----

  /** The bound of the loss count for a wanted count c, in 32-bit arithmetic. */
  lemma UpperOfCount(c: nat, total: Option<u32>)
    requires 1 <= c
    ensures LostUpper(Some(c), total, false, 0) == Some(if c % WRAP == 0 then LAST_U32 else c % WRAP - 1)
  {
    assert (c - 1) % WRAP == if c % WRAP == 0 then LAST_U32 else c % WRAP - 1;
  }

  /** With a batches numbered from 0, nothing is missing below a smaller bound. */
  lemma FullBelow(p: Parsed, a: nat, bound: nat, read: nat, count: Option<nat>)
    requires 1 <= bound < a <= LAST_U32 && LostUpper(count, p.ledger.total, false, 0) == Some(bound - 1)
    requires |p.ledger.log| == a && forall i :: 0 <= i < a ==> Seqs(p.ledger.log)[i] == i
    requires p.pending == [] && p.ledger.bad == 0 && p.ledger.carries == 0
    ensures SummaryOf(p, read, count) == Summary(a, read, 0, 0, 0, 0)
  {
    hide Duplicates, OutOfOrder, SeenSet, LostUpper;
    var q := Seqs(p.ledger.log);
    IncreasingSummary(q, a);
    assert Missing(SeenSet(q), bound) <= Missing(SeenSet(q), a);
    assert |Missing(SeenSet(q), a)| == 0;
  }

  /**
   * The count is not always met: when one datagram carries all the batches of a run, a session that wants
   * fewer still accepts and reports every one of them.
   */
  lemma CountOvershoot(payloads: seq<seq<byte>>, size: nat, c: nat)
    requires 1 <= c < |payloads| <= LAST_U32 && Sized(payloads, size) && HEADER_SIZE < size <= MAX_LENGTH
    ensures var coalesced := [Flat(Batches(|payloads|, payloads))];
            StopsAfter(coalesced, Some(c), 1) &&
            SummaryOf(After(coalesced), 1, Some(c)) == Summary(|payloads|, 1, 0, 0, 0, 0)
  {
    hide ReadHeader, Built, Parse, SummaryOf, Batches, Numbered;
    var bs := Batches(|payloads|, payloads);
    var coalesced := [Flat(bs)];
    BatchesRun(|payloads|, payloads, size);
    BatchesCount(|payloads|, payloads);
    FullParse(|payloads|, bs, size);
    assert Flat(coalesced) == Flat(bs) + Flat<byte>([]) == Flat(bs);
    assert After(coalesced) == Parse(NEW_SESSION, Flat(bs));
    assert coalesced[..1] == coalesced && coalesced[..0] == [];
    AfterNothing();
    UpperOfCount(c, After(coalesced).ledger.total);
    FullBelow(After(coalesced), |payloads|, c, 1, Some(c));
  }

  lemma BatchesCount(count: u32, payloads: seq<seq<byte>>)
    requires |payloads| <= count
    ensures |Batches(count, payloads)| == |payloads|
  {
    hide Built;
  }
}
