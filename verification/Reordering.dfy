/** Whole batches that arrive in any order, repeated or not at all. */
module Reordering {
  import opened Bytes
  import opened Packet
  import opened History
  import opened StreamParser
  import opened Recovery
  import opened Session
  import opened Sender
  import opened EndToEnd

  /** Batches of a session that pass and are more than a header. */
  ghost predicate Delivered(n: u32, bs: seq<seq<byte>>) {
    Run(n, bs) && forall i :: 0 <= i < |bs| ==> HEADER_SIZE < |bs[i]|
  }

  lemma DeliveredNumbers(n: u32, bs: seq<seq<byte>>)
    requires Delivered(n, bs)
    ensures forall i :: 0 <= i < |bs| ==> |bs[i]| >= HEADER_SIZE
    ensures forall x :: x in NumbersOf(bs) ==> x < n
  {
    hide ReadHeader, IsOk;
    var q := NumbersOf(bs);
    forall x | x in q ensures x < n {
      var i :| 0 <= i < |bs| && q[i] == x;
      assert Fits(Some(n), bs[i]);
    }
  }

  lemma DeliveredParse(n: u32, bs: seq<seq<byte>>)
    requires Delivered(n, bs) && bs != []
    ensures forall i :: 0 <= i < |bs| ==> |bs[i]| >= HEADER_SIZE
    ensures var p := Parse(NEW_SESSION, Flat(bs));
            && p.pending == [] && Seqs(p.ledger.log) == NumbersOf(bs)
            && p.ledger.bad == 0 && p.ledger.carries == 0 && p.ledger.total == Some(n)
  {
    hide ReadHeader, Parse, Fits, TakenAll;
    DeliveredNumbers(n, bs);
    assert Flat(bs) + [] == Flat(bs);
    ParseRun(NEW_SESSION, n, bs, []);
    TakenAllFields(NEW_SESSION, n, bs);
    ParseQuiet(TakenAll(NEW_SESSION, bs), []);
    assert Seqs(NEW_SESSION.log) + NumbersOf(bs) == NumbersOf(bs);
  }

  /** The summary of accepted numbers below the total, with nothing bad or pending. */
  lemma CleanSummary(p: Parsed, n: u32, read: nat, count: Option<nat>)
    requires 1 <= n <= LAST_U32 && count in {None, Some(n as nat)} && p.ledger.total == Some(n)
    requires p.pending == [] && p.ledger.bad == 0 && p.ledger.carries == 0
    requires forall x :: x in Seqs(p.ledger.log) ==> x < n
    ensures var q := Seqs(p.ledger.log);
            |SeenSet(q)| <= n && |SeenSet(q)| <= |q| &&
            SummaryOf(p, read, count) ==
            Summary(|q|, read, 0, n - |SeenSet(q)|, |q| - |SeenSet(q)|, OutOfOrder(q))
  {
    hide OutOfOrder, Missing;
    var q := Seqs(p.ledger.log);
    SeenAtMost(q);
    assert (n - 1) % WRAP == n - 1 && (n + WRAP - 1) % WRAP == n - 1;
    MissingPartition(SeenSet(q), n);
    assert (set x | x in SeenSet(q) && x < n) == SeenSet(q);
  }

  /**
   * However whole batches are reordered, repeated or lost, and however their bytes are cut: every arrival is
   * accepted, the numbers that never arrive are lost, repetitions are duplicates, and what comes after a
   * larger number is out of order.
   */
  lemma AnyOrder(n: u32, bs: seq<seq<byte>>, cut: seq<seq<byte>>, count: Option<nat>)
    requires 1 <= n <= LAST_U32 && Delivered(n, bs) && bs != [] && Flat(cut) == Flat(bs)
    requires count in {None, Some(n as nat)}
    ensures forall i :: 0 <= i < |bs| ==> |bs[i]| >= HEADER_SIZE
    ensures var q := NumbersOf(bs);
            var distinct := |SeenSet(q)|;
            distinct <= n && distinct <= |bs| &&
            SummaryOf(After(cut), |cut|, count) ==
            Summary(|bs|, |cut|, 0, n - distinct, |bs| - distinct, OutOfOrder(q))
  {
    hide ReadHeader, Parse, SummaryOf, Delivered, OutOfOrder, SeenSet;
    DeliveredNumbers(n, bs);
    DeliveredParse(n, bs);
    CleanSummary(After(cut), n, |cut|, count);
  }

  // ----- a complete run in another order -----

  /** Strictly increasing numbers below n, n of them, are 0, 1, ... */
  lemma {:induction false} IncreasingAll(q: seq<u32>, i: nat)
    requires i < |q| && (forall j, k :: 0 <= j < k < |q| ==> q[j] < q[k]) && forall x :: x in q ==> x < |q|
    ensures q[i] == i
  {
    AtLeast(q, i);
    AtMost(q, i);
  }

  lemma {:induction false} AtLeast(q: seq<u32>, i: nat)
    requires i < |q| && forall j, k :: 0 <= j < k < |q| ==> q[j] < q[k]
    ensures i <= q[i]
  {
    if i > 0 {
      AtLeast(q, i - 1);
    }
  }

  lemma {:induction false} AtMost(q: seq<u32>, i: nat)
    requires i < |q| && (forall j, k :: 0 <= j < k < |q| ==> q[j] < q[k]) && forall x :: x in q ==> x < |q|
    ensures q[i] <= i
    decreases |q| - i
  {
    if i + 1 < |q| {
      AtMost(q, i + 1);
    } else {
      assert q[i] in q;
    }
  }

  /** All numbers once: nothing is out of order exactly if they come as 0, 1, ... */
  lemma PermutedOrder(q: seq<u32>)
    requires (forall j, k :: 0 <= j < k < |q| ==> q[j] != q[k]) && forall x :: x in q ==> x < |q|
    ensures OutOfOrder(q) == 0 <==> forall i :: 0 <= i < |q| ==> q[i] == i
  {
    hide OutOfOrder;
    InOrderIff(q);
    forall i | 0 <= i < |q| ensures q[i] !in q[..i] {
    }
    if FirstsIncreasing(q) {
      forall i | 0 <= i < |q| ensures q[i] == i {
        IncreasingAll(q, i);
      }
    }
  }

  /** A complete run in any order loses and repeats nothing, and is in order exactly if it arrives as sent. */
  lemma PermutedRun(n: u32, bs: seq<seq<byte>>, cut: seq<seq<byte>>, count: Option<nat>)
    requires 1 <= n == |bs| && n <= LAST_U32 && Delivered(n, bs) && Flat(cut) == Flat(bs)
    requires count in {None, Some(n as nat)}
    requires forall i :: 0 <= i < |bs| ==> |bs[i]| >= HEADER_SIZE
    requires forall j, k :: 0 <= j < k < |bs| ==> ReadHeader(bs[j]).seqNo != ReadHeader(bs[k]).seqNo
    ensures var late := OutOfOrder(NumbersOf(bs));
            && SummaryOf(After(cut), |cut|, count) == Summary(n, |cut|, 0, 0, 0, late)
            && (late == 0 <==> forall i :: 0 <= i < n ==> ReadHeader(bs[i]).seqNo == i)
  {
    hide ReadHeader, SummaryOf, Delivered, OutOfOrder, After;
    var q := NumbersOf(bs);
    DeliveredNumbers(n, bs);
    assert forall i :: 0 <= i < n ==> q[i] == ReadHeader(bs[i]).seqNo;
    DistinctHistory(q);
    AnyOrder(n, bs, cut, count);
    PermutedOrder(q);
  }

  // ----- a run in reverse order -----

  /** In a decreasing list every number but the first is out of order. */
  lemma {:induction false} DecreasingHistory(q: seq<u32>)
    requires q != [] && forall j, k :: 0 <= j < k < |q| ==> q[j] > q[k]
    ensures OutOfOrder(q) == |q| - 1
  {
    hide OutOfOrder;
    var n := |q| - 1;
    assert q == q[..n] + [q[n]];
    OutOfOrderAppend(q[..n], q[n]);
    if n == 0 {
      EmptyHistory();
    } else {
      DecreasingHistory(q[..n]);
      assert q[0] in q[..n];
    }
  }

  function Backwards(bs: seq<seq<byte>>): (r: seq<seq<byte>>)
    ensures |r| == |bs|
  {
    seq(|bs|, i requires 0 <= i < |bs| => bs[|bs| - 1 - i])
  }

  /** A whole run in reverse order: all accepted, and all but the first arrival out of order. */
  lemma ReverseRun(payloads: seq<seq<byte>>, size: nat, cut: seq<seq<byte>>, count: Option<nat>)
    requires 1 <= |payloads| <= LAST_U32 && Sized(payloads, size) && HEADER_SIZE < size <= MAX_LENGTH
    requires Flat(cut) == Flat(Backwards(Batches(|payloads|, payloads))) && count in {None, Some(|payloads|)}
    ensures SummaryOf(After(cut), |cut|, count) == Summary(|payloads|, |cut|, 0, 0, 0, |payloads| - 1)
  {
    hide ReadHeader, Built, Batches, Delivered, Numbered, Backwards, SummaryOf, After;
    var n, sent := |payloads|, Batches(|payloads|, payloads);
    BatchesRun(n, payloads, size);
    BackwardsRun(n, sent, size);
    DecreasingRun(n, Backwards(sent), cut, count);
  }

  lemma DecreasingRun(n: u32, bs: seq<seq<byte>>, cut: seq<seq<byte>>, count: Option<nat>)
    requires 1 <= n == |bs| && n <= LAST_U32 && Delivered(n, bs) && Flat(cut) == Flat(bs)
    requires count in {None, Some(n as nat)}
    requires forall i :: 0 <= i < n ==> |bs[i]| >= HEADER_SIZE && ReadHeader(bs[i]).seqNo == n - 1 - i
    ensures SummaryOf(After(cut), |cut|, count) == Summary(n, |cut|, 0, 0, 0, n - 1)
  {
    hide ReadHeader, SummaryOf, OutOfOrder, After, Delivered;
    DecreasingHistory(NumbersOf(bs));
    PermutedRun(n, bs, cut, count);
  }

  lemma BackwardsRun(n: u32, sent: seq<seq<byte>>, size: nat)
    requires Numbered(n, sent, size) && HEADER_SIZE < size
    ensures var bs := Backwards(sent);
            && Delivered(n, bs)
            && forall i :: 0 <= i < |bs| ==> |bs[i]| >= HEADER_SIZE && ReadHeader(bs[i]).seqNo == |bs| - 1 - i
  {
    hide ReadHeader, Fits;
  }
}
