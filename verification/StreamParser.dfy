/**
 * The specification of the receiver: a recursive parser over the whole byte stream, blind to how the
 * stream was cut into datagrams.
 */
module StreamParser {
  import opened Bytes
  import opened Packet

  /** An accepted batch: where it starts in the received stream, its length and its sequence number. */
  datatype Span = Span(pos: nat, len: nat, seqNo: u32)

  /**
   * What a session knows after consuming pos bytes: the accepted batches in order, the number of failed
   * batches, how many failures were resumed from a salvaged tail, and the latched session total.
   */
  datatype Ledger = Ledger(pos: nat, log: seq<Span>, bad: nat, carries: nat, total: Option<u32>)

  datatype Parsed = Parsed(ledger: Ledger, pending: seq<byte>)

  const NEW_SESSION := Ledger(0, [], 0, 0, None)

  function Seqs(log: seq<Span>): (q: seq<u32>)
    ensures |q| == |log|
  {
    seq(|log|, i requires 0 <= i < |log| => log[i].seqNo)
  }

  /** A plausible header of this session starts here. */
  predicate Starts(total: Option<u32>, s: seq<byte>) {
    |s| >= HEADER_SIZE && HeaderPlausible(ReadHeader(s))
    && (total.Some? ==> total.value == ReadHeader(s).batchTotal)
  }

  /** The batch that starts here is complete; a bare header is completed only by a byte that follows it. */
  predicate Ready(s: seq<byte>)
    requires |s| >= HEADER_SIZE
  {
    ReadHeader(s).length <= |s| && HEADER_SIZE < |s|
  }

  function Drop(g: Ledger, n: nat): Ledger {
    g.(pos := g.pos + n)
  }

  function Latch(g: Ledger, total: u32): Ledger {
    g.(total := Some(total))
  }

  function Accept(g: Ledger, len: nat, seqNo: u32): Ledger {
    g.(pos := g.pos + len, log := g.log + [Span(g.pos, len, seqNo)])
  }

  function Reject(g: Ledger, skipped: nat, resumed: bool): Ledger {
    g.(pos := g.pos + skipped, bad := g.bad + 1, carries := g.carries + if resumed then 1 else 0)
  }

  // ----- salvage -----

  /** The sequence number a resumed tail must carry, if the failed batch was not the last one. */
  function Wanted(h: Header): Option<u32> {
    if h.seqNo + 1 < h.batchTotal then Some(h.seqNo + 1) else None
  }

  predicate Candidate(slice: seq<byte>, i: nat, want: Option<u32>, total: Option<u32>) {
    i + HEADER_SIZE <= |slice| && Starts(total, slice[i..])
    && (want.Some? ==> ReadHeader(slice[i..]).seqNo == want.value)
  }

  /** The first candidate at or after i, or |slice|. */
  function FirstCandidate(slice: seq<byte>, i: nat, want: Option<u32>, total: Option<u32>): (r: nat)
    requires i <= |slice|
    ensures i <= r <= |slice|
    ensures r < |slice| ==> Candidate(slice, r, want, total)
    ensures forall k :: i <= k < r ==> !Candidate(slice, k, want, total)
    decreases |slice| - i
  {
    if i == |slice| || Candidate(slice, i, want, total) then i else FirstCandidate(slice, i + 1, want, total)
  }

  /** A complete batch that passes starts at this offset. */
  predicate CompleteAt(slice: seq<byte>, at: nat)
    requires at + HEADER_SIZE <= |slice|
  {
    var length := ReadHeader(slice[at..]).length;
    at + length <= |slice| && IsOk(slice[at..at + length])
  }

  /** Where parsing resumes inside a failed batch; its end if nothing can be salvaged. */
  function SalvageAt(slice: seq<byte>, total: Option<u32>): (at: nat)
    requires |slice| >= HEADER_SIZE
    ensures 1 <= at <= |slice|
  {
    var at := FirstCandidate(slice, 1, Wanted(ReadHeader(slice)), total);
    if at < |slice| && CompleteAt(slice, at) then at else |slice|
  }

  // ----- the parser -----

  /** The outcome of a complete batch: accepted, or failed with the bytes that are parsed again. */
  function Complete(g: Ledger, slice: seq<byte>): (p: Parsed)
    requires |slice| >= HEADER_SIZE
    ensures |p.pending| < |slice|
  {
    if IsOk(slice) then Parsed(Accept(g, |slice|, ReadHeader(slice).seqNo), [])
    else
      var at := SalvageAt(slice, g.total);
      Parsed(Reject(g, at, at < |slice|), slice[at..])
  }

  function Parse(g: Ledger, s: seq<byte>): Parsed
    decreases |s|
  {
    if |s| < HEADER_SIZE then Parsed(g, s)
    else if !Starts(g.total, s) then Parse(Drop(g, 1), s[1..])
    else
      var h := ReadHeader(s);
      var latched := Latch(g, h.batchTotal);
      if !Ready(s) then Parsed(latched, s)
      else
        var c := Complete(latched, s[..h.length]);
        Parse(c.ledger, c.pending + s[h.length..])
  }

  lemma StartsPrefix(total: Option<u32>, s: seq<byte>, t: seq<byte>)
    requires |s| >= HEADER_SIZE
    ensures ReadHeader(s + t) == ReadHeader(s) && Starts(total, s + t) == Starts(total, s)
  {
    hide ReadHeader, HeaderPlausible;
    HeaderOfPrefix(s, t);
  }

  /** A header is kept when the bytes after it change. */
  lemma SameHeader(total: Option<u32>, a: seq<byte>, b: seq<byte>)
    requires |a| >= HEADER_SIZE && |b| >= HEADER_SIZE && a[..HEADER_SIZE] == b[..HEADER_SIZE]
    ensures ReadHeader(a) == ReadHeader(b) && Starts(total, a) == Starts(total, b)
  {
    hide ReadHeader, Starts;
    assert a == a[..HEADER_SIZE] + a[HEADER_SIZE..] && b == b[..HEADER_SIZE] + b[HEADER_SIZE..];
    StartsPrefix(total, a[..HEADER_SIZE], a[HEADER_SIZE..]);
    StartsPrefix(total, b[..HEADER_SIZE], b[HEADER_SIZE..]);
  }

  /** The part of a session that waits for more bytes. */
  predicate Quiet(total: Option<u32>, pending: seq<byte>) {
    |pending| < HEADER_SIZE || (total.Some? && Starts(total, pending) && !Ready(pending))
  }

  lemma ParseQuiet(g: Ledger, pending: seq<byte>)
    requires Quiet(g.total, pending)
    ensures Parse(g, pending) == Parsed(g, pending)
  {
    hide ReadHeader, HeaderPlausible;
  }

  lemma {:induction false} ParseIsQuiet(g: Ledger, s: seq<byte>)
    ensures var p := Parse(g, s);
            Quiet(p.ledger.total, p.pending) && |p.pending| <= |s| && p.ledger.pos + |p.pending| == g.pos + |s|
    decreases |s|
  {
    hide ReadHeader, IsOk, SalvageAt;
    if |s| < HEADER_SIZE {
    } else if !Starts(g.total, s) {
      ParseIsQuiet(Drop(g, 1), s[1..]);
    } else if Ready(s) {
      var h := ReadHeader(s);
      var c := Complete(Latch(g, h.batchTotal), s[..h.length]);
      ParseIsQuiet(c.ledger, c.pending + s[h.length..]);
    }
  }

  /** Parsing may stop anywhere and continue with what was left pending. */
  lemma {:induction false} ParseAppend(g: Ledger, a: seq<byte>, b: seq<byte>)
    ensures var p := Parse(g, a); Parse(g, a + b) == Parse(p.ledger, p.pending + b)
    decreases |a|
  {
    hide ReadHeader, Complete;
    if |a| < HEADER_SIZE {
    } else {
      StartsPrefix(g.total, a, b);
      if !Starts(g.total, a) {
        assert (a + b)[1..] == a[1..] + b;
        ParseAppend(Drop(g, 1), a[1..], b);
      } else if !Ready(a) {
        LatchTwice(g, a + b);
      } else {
        var h := ReadHeader(a);
        var c := Complete(Latch(g, h.batchTotal), a[..h.length]);
        assert (a + b)[..h.length] == a[..h.length] && (a + b)[h.length..] == a[h.length..] + b;
        assert c.pending + (a[h.length..] + b) == (c.pending + a[h.length..]) + b;
        ParseAppend(c.ledger, c.pending + a[h.length..], b);
      }
    }
  }

  lemma LatchTwice(g: Ledger, s: seq<byte>)
    requires Starts(g.total, s)
    ensures Parse(g, s) == Parse(Latch(g, ReadHeader(s).batchTotal), s)
  {
    hide ReadHeader, HeaderPlausible, Complete;
    var l := Latch(g, ReadHeader(s).batchTotal);
    assert Latch(l, ReadHeader(s).batchTotal) == l;
  }

  // ----- fragmentation independence -----

  /** Feeding a list of chunks one after the other. */
  function Feed(p: Parsed, chunks: seq<seq<byte>>): Parsed
    decreases |chunks|
  {
    if chunks == [] then p else Feed(Parse(p.ledger, p.pending + chunks[0]), chunks[1..])
  }

  lemma {:induction false} FeedIsParse(p: Parsed, chunks: seq<seq<byte>>)
    requires Quiet(p.ledger.total, p.pending)
    ensures Feed(p, chunks) == Parse(p.ledger, p.pending + Flat(chunks))
    decreases |chunks|
  {
    hide Parse, Quiet;
    if chunks == [] {
      assert p.pending + Flat(chunks) == p.pending;
      ParseQuiet(p.ledger, p.pending);
    } else {
      var s := p.pending + chunks[0];
      ParseIsQuiet(p.ledger, s);
      FeedIsParse(Parse(p.ledger, s), chunks[1..]);
      ParseAppend(p.ledger, s, Flat(chunks[1..]));
      assert s + Flat(chunks[1..]) == p.pending + Flat(chunks);
    }
  }

  /** Two ways of cutting one byte stream into chunks end in the same state. */
  lemma FragmentationIndependence(p: Parsed, one: seq<seq<byte>>, other: seq<seq<byte>>)
    requires Quiet(p.ledger.total, p.pending) && Flat(one) == Flat(other)
    ensures Feed(p, one) == Feed(p, other)
  {
    hide Parse, Quiet, Feed;
    FeedIsParse(p, one);
    FeedIsParse(p, other);
  }
}
