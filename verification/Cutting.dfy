/** The receiver itself does not see how the stream was cut into datagrams. */
module Cutting {
  import opened Bytes
  import opened Packet
  import opened StreamParser
  import opened Reassembly

  /** A new receiver that ingests these datagrams in order. */
  method IngestAll(cut: seq<seq<byte>>) returns (stats: ServerStats, r: BatchReassembly)
    ensures fresh(stats) && fresh(r) && Consistent(stats, r)
    ensures stats.fragments == |cut| + stats.carries && stats.lost == 0
    ensures Standing(stats, r) == Parse(NEW_SESSION, Flat(cut))
  {
    hide Parse, ServerStats.Valid, Logged, Growing, Whole, OkLineOf, Slices;
    stats := new ServerStats();
    r := new BatchReassembly();
    ParseQuiet(NEW_SESSION, []);
    assert Flat(cut[..0]) == [] && cut[..|cut|] == cut;
    for i := 0 to |cut|
      invariant fresh(stats) && fresh(r) && Consistent(stats, r)
      invariant stats.fragments == i + stats.carries && stats.lost == 0
      invariant Standing(stats, r) == Parse(NEW_SESSION, Flat(cut[..i]))
    {
      var lines := IngestFragment(cut[i], stats, r);
      assert cut[..i + 1] == cut[..i] + [cut[i]];
      FlatSnoc(cut[..i], cut[i]);
      ParseAppend(NEW_SESSION, Flat(cut[..i]), cut[i]);
    }
  }

  /** Every field of the two receivers agrees, except the fragment counts and the recorded slices. */
  ghost predicate Agree(s1: ServerStats, r1: BatchReassembly, s2: ServerStats, r2: BatchReassembly)
    reads s1, r1, s2, r2
  {
    && s1.batches == s2.batches && s1.badBatches == s2.badBatches && s1.lost == s2.lost
    && s1.duplicates == s2.duplicates && s1.outOfOrder == s2.outOfOrder && s1.seenSeq == s2.seenSeq
    && s1.haveSeq == s2.haveSeq && s1.highestSeq == s2.highestSeq && s1.wireBatchTotal == s2.wireBatchTotal
    && r1.active == r2.active && r1.buffer == r2.buffer && r1.filled == r2.filled && r1.expected == r2.expected
  }

  /**
   * Two receivers that get the same bytes in different datagrams end in the same state. Their fragment
   * counts differ by the numbers of datagrams.
   */
  method IngestTwoCuts(one: seq<seq<byte>>, other: seq<seq<byte>>)
    returns (s1: ServerStats, r1: BatchReassembly, s2: ServerStats, r2: BatchReassembly)
    requires Flat(one) == Flat(other)
    ensures Agree(s1, r1, s2, r2)
    ensures s1.fragments - |one| == s2.fragments - |other|
    ensures Sum(r1.fragmentSizes) == Sum(r2.fragmentSizes)
  {
    hide Parse, ServerStats.Valid, Sum;
    s1, r1 := IngestAll(one);
    s2, r2 := IngestAll(other);
    StandingFixesState(s1, r1, s2, r2);
    SlicesAddUp(s1, r1);
    SlicesAddUp(s2, r2);
  }

  lemma SlicesAddUp(stats: ServerStats, r: BatchReassembly)
    requires Consistent(stats, r)
    ensures Sum(r.fragmentSizes) == if r.active then r.filled - HEADER_SIZE else 0
  {
    hide ReadHeader, Starts, AllZero;
  }
}
