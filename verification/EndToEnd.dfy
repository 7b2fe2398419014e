/** Sender and receiver together: runs without a loss, however the bytes are cut. */
module EndToEnd {
  import opened Bytes
  import opened Packet
  import opened History
  import opened StreamParser
  import opened Recovery
  import opened Session
  import opened Sender

  /** Payloads for batches of one size. */
  predicate Sized(payloads: seq<seq<byte>>, size: nat) {
    HEADER_SIZE <= size && forall i :: 0 <= i < |payloads| ==> |payloads[i]| == size - HEADER_SIZE
  }

  /** Batches of one size, numbered from 0. */
  ghost predicate Numbered(total: u32, bs: seq<seq<byte>>, size: nat) {
    && HEADER_SIZE <= size
    && Run(total, bs)
    && forall i :: 0 <= i < |bs| ==> |bs[i]| == size && ReadHeader(bs[i]).seqNo == i
  }

  /** What a sender builds is a run of batches that pass, numbered from 0. */
  lemma BatchesRun(batchTotal: u32, payloads: seq<seq<byte>>, size: nat)
    requires Sized(payloads, size) && size <= MAX_LENGTH && |payloads| <= batchTotal
    ensures Numbered(batchTotal, Batches(batchTotal, payloads), size)
  {
    hide ReadHeader, Built, ValidateBatch;
    var bs := Batches(batchTotal, payloads);
    forall i | 0 <= i < |bs|
      ensures Fits(Some(batchTotal), bs[i]) && |bs[i]| == size && ReadHeader(bs[i]).seqNo == i
    {
      BuiltVerdict(i, batchTotal, payloads[i]);
      OkStarts(bs[i]);
    }
  }

  lemma OkStarts(b: seq<byte>)
    requires IsOk(b)
    ensures Starts(Some(ReadHeader(b).batchTotal), b) && ReadHeader(b).length == |b|
  {
  }

  /** The summary of a session that accepted increasing numbers below the bound of its loss count. */
  lemma IncreasingBelow(p: Parsed, bound: nat, read: nat, count: Option<nat>)
    requires 1 <= bound <= LAST_U32 && LostUpper(count, p.ledger.total, false, 0) == Some(bound - 1)
    requires var q := Seqs(p.ledger.log);
             (forall i, j :: 0 <= i < j < |q| ==> q[i] < q[j]) && (forall i :: 0 <= i < |q| ==> q[i] < bound)
    ensures |p.ledger.log| <= bound
    ensures SummaryOf(p, read, count) ==
            Summary(|p.ledger.log|, read + p.ledger.carries,
                    p.ledger.bad + (if |p.pending| >= HEADER_SIZE then 1 else 0), bound - |p.ledger.log|, 0, 0)
  {
    hide Duplicates, OutOfOrder, SeenSet, Missing, LostUpper;
    IncreasingSummary(Seqs(p.ledger.log), bound);
  }

  /** The same for a session without a count, or with the sender's count. */
  lemma IncreasingSession(p: Parsed, total: u32, read: nat, count: Option<nat>)
    requires p.ledger.total == Some(total) && total >= 1 && count in {None, Some(total as nat)}
    requires var q := Seqs(p.ledger.log);
             (forall i, j :: 0 <= i < j < |q| ==> q[i] < q[j]) && (forall i :: 0 <= i < |q| ==> q[i] < total)
    ensures |p.ledger.log| <= total
    ensures SummaryOf(p, read, count) ==
            Summary(|p.ledger.log|, read + p.ledger.carries,
                    p.ledger.bad + (if |p.pending| >= HEADER_SIZE then 1 else 0), total - |p.ledger.log|, 0, 0)
  {
    hide SummaryOf, Seqs;
    assert (total - 1) % WRAP == total - 1 && (total + WRAP - 1) % WRAP == total - 1;
    IncreasingBelow(p, total, read, count);
  }

  lemma NumberedTaken(total: u32, bs: seq<seq<byte>>, size: nat)
    requires Numbered(total, bs, size)
    ensures var t := TakenAll(NEW_SESSION, bs);
            && |t.log| == |bs| && (forall i :: 0 <= i < |bs| ==> Seqs(t.log)[i] == i)
            && t.bad == 0 && t.carries == 0 && t.total == if bs == [] then None else Some(total)
  {
    hide ReadHeader, Fits;
    TakenAllFields(NEW_SESSION, total, bs);
    var t := TakenAll(NEW_SESSION, bs);
    assert Seqs(NEW_SESSION.log) + NumbersOf(bs) == NumbersOf(bs);
    assert |Seqs(t.log)| == |bs|;
  }

  /**
   * Lossless runs: however the sent byte stream is cut, every batch is accepted once, in order, and
   * nothing is left over, for any number of batches of any size above the bare header.
   */
  lemma LosslessRun(payloads: seq<seq<byte>>, size: nat, cut: seq<seq<byte>>, count: Option<nat>)
    requires 1 <= |payloads| <= LAST_U32 && Sized(payloads, size) && HEADER_SIZE < size <= MAX_LENGTH
    requires Flat(cut) == Flat(Batches(|payloads|, payloads)) && count in {None, Some(|payloads|)}
    ensures After(cut).pending == []
    ensures SummaryOf(After(cut), |cut|, count) == Summary(|payloads|, |cut|, 0, 0, 0, 0)
  {
    hide ReadHeader, Built, Parse, SummaryOf, Batches, Numbered;
    BatchesRun(|payloads|, payloads, size);
    FullSession(|payloads|, Batches(|payloads|, payloads), size, cut, count);
  }

  lemma FullSession(n: u32, bs: seq<seq<byte>>, size: nat, cut: seq<seq<byte>>, count: Option<nat>)
    requires 1 <= n == |bs| && HEADER_SIZE < size && Numbered(n, bs, size)
    requires Flat(cut) == Flat(bs) && count in {None, Some(n as nat)}
    ensures After(cut).pending == []
    ensures SummaryOf(After(cut), |cut|, count) == Summary(n, |cut|, 0, 0, 0, 0)
  {
    hide ReadHeader, Parse, SummaryOf, Numbered;
    FullParse(n, bs, size);
    IncreasingSession(After(cut), n, |cut|, count);
  }

  lemma FullParse(total: u32, bs: seq<seq<byte>>, size: nat)
    requires Numbered(total, bs, size) && bs != [] && HEADER_SIZE < size
    ensures var p := Parse(NEW_SESSION, Flat(bs));
            && p.pending == [] && |p.ledger.log| == |bs|
            && (forall i :: 0 <= i < |bs| ==> Seqs(p.ledger.log)[i] == i)
            && p.ledger.bad == 0 && p.ledger.carries == 0 && p.ledger.total == Some(total)
  {
    hide ReadHeader, Parse, Fits, TakenAll;
    NumberedTaken(total, bs, size);
    assert Flat(bs) + [] == Flat(bs);
    ParseRun(NEW_SESSION, total, bs, []);
    ParseQuiet(TakenAll(NEW_SESSION, bs), []);
  }

  /** Bare headers: every batch is accepted except the last, which stays pending and counts as bad and lost. */
  lemma BareHeaderRun(payloads: seq<seq<byte>>, cut: seq<seq<byte>>, count: Option<nat>)
    requires 1 <= |payloads| <= LAST_U32 && Sized(payloads, HEADER_SIZE)
    requires Flat(cut) == Flat(Batches(|payloads|, payloads)) && count in {None, Some(|payloads|)}
    ensures After(cut).pending == Batches(|payloads|, payloads)[|payloads| - 1]
    ensures SummaryOf(After(cut), |cut|, count) == Summary(|payloads| - 1, |cut|, 1, 1, 0, 0)
  {
    hide ReadHeader, Built, Parse, SummaryOf, Batches, Numbered;
    BatchesRun(|payloads|, payloads, HEADER_SIZE);
    BareSession(|payloads|, Batches(|payloads|, payloads), cut, count);
  }

  lemma BareSession(n: u32, bs: seq<seq<byte>>, cut: seq<seq<byte>>, count: Option<nat>)
    requires 1 <= n == |bs| && Numbered(n, bs, HEADER_SIZE)
    requires Flat(cut) == Flat(bs) && count in {None, Some(n as nat)}
    ensures After(cut).pending == bs[n - 1]
    ensures SummaryOf(After(cut), |cut|, count) == Summary(n - 1, |cut|, 1, 1, 0, 0)
  {
    hide ReadHeader, Parse, SummaryOf, Numbered;
    LastHeader(n, bs);
    BareParse(n, bs);
    IncreasingSession(After(cut), n, |cut|, count);
  }

  lemma LastHeader(n: u32, bs: seq<seq<byte>>)
    requires 1 <= n == |bs| && Numbered(n, bs, HEADER_SIZE)
    ensures |bs[n - 1]| == HEADER_SIZE
  {
  }

  lemma BareParse(total: u32, bs: seq<seq<byte>>)
    requires Numbered(total, bs, HEADER_SIZE) && bs != []
    ensures var p := Parse(NEW_SESSION, Flat(bs));
            && p.pending == bs[|bs| - 1] && |p.ledger.log| == |bs| - 1
            && (forall i :: 0 <= i < |bs| - 1 ==> Seqs(p.ledger.log)[i] == i)
            && p.ledger.bad == 0 && p.ledger.carries == 0 && p.ledger.total == Some(total)
  {
    hide ReadHeader, Parse, Fits, TakenAll;
    var n := |bs| - 1;
    assert bs == bs[..n] + [bs[n]];
    FlatSnoc(bs[..n], bs[n]);
    NumberedTaken(total, bs[..n], HEADER_SIZE);
    ParseBareRun(NEW_SESSION, total, bs[..n], bs[n]);
  }
}
