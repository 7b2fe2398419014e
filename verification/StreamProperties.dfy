/** What holds of every run of the parser, whatever bytes arrive. */
module StreamProperties {
  import opened Bytes
  import opened Packet
  import opened StreamParser

  // ----- accepted batches are disjoint, valid slices of the stream -----

  /** A logged batch is a slice of the stream that passes, with the latched total. */
  ghost predicate SpanSound(stream: seq<byte>, total: Option<u32>, x: Span) {
    && HEADER_SIZE <= x.len
    && x.pos + x.len <= |stream|
    && var slice := stream[x.pos..x.pos + x.len];
    && IsOk(slice)
    && ReadHeader(slice).seqNo == x.seqNo
    && total == Some(ReadHeader(slice).batchTotal)
  }

  ghost predicate Sound(stream: seq<byte>, g: Ledger) {
    && g.pos <= |stream|
    && (forall i :: 0 <= i < |g.log| ==> SpanSound(stream, g.total, g.log[i]) && g.log[i].pos + g.log[i].len <= g.pos)
    && (forall i, j :: 0 <= i < j < |g.log| ==> g.log[i].pos + g.log[i].len <= g.log[j].pos)
  }

  lemma SliceOfRest(stream: seq<byte>, pos: nat, n: nat)
    requires pos + n <= |stream|
    ensures stream[pos..][..n] == stream[pos..pos + n] && stream[pos..][n..] == stream[pos + n..]
  {
  }

  lemma LatchSound(stream: seq<byte>, g: Ledger, total: u32)
    requires Sound(stream, g) && (g.total.Some? ==> g.total.value == total)
    ensures Sound(stream, Latch(g, total))
  {
  }

  lemma CompleteSound(stream: seq<byte>, g: Ledger, slice: seq<byte>)
    requires Sound(stream, g) && g.pos + |slice| <= |stream| && slice == stream[g.pos..g.pos + |slice|]
    requires HEADER_SIZE <= |slice| && g.total == Some(ReadHeader(slice).batchTotal)
    ensures var c := Complete(g, slice);
            Sound(stream, c.ledger) && c.pending + stream[g.pos + |slice|..] == stream[c.ledger.pos..]
            && c.ledger.total == g.total
  {
    hide IsOk, ReadHeader, SalvageAt;
    var c := Complete(g, slice);
    if IsOk(slice) {
      assert SpanSound(stream, g.total, Span(g.pos, |slice|, ReadHeader(slice).seqNo));
    } else {
      assert slice[SalvageAt(slice, g.total)..] + stream[g.pos + |slice|..] == stream[c.ledger.pos..];
    }
  }

  /** Every accepted batch is a passing slice of the received stream; slices are in order and never overlap. */
  lemma {:induction false} ParseSound(stream: seq<byte>, g: Ledger, s: seq<byte>)
    requires Sound(stream, g) && s == stream[g.pos..]
    ensures var p := Parse(g, s); Sound(stream, p.ledger) && p.pending == stream[p.ledger.pos..]
    decreases |s|
  {
    hide IsOk, ReadHeader, Complete, Sound;
    PosInside(stream, g);
    if |s| < HEADER_SIZE {
    } else if !Starts(g.total, s) {
      DropSound(stream, g);
      ParseSound(stream, Drop(g, 1), s[1..]);
    } else {
      var h := ReadHeader(s);
      var l := Latch(g, h.batchTotal);
      LatchSound(stream, g, h.batchTotal);
      if Ready(s) {
        SliceOfRest(stream, g.pos, h.length);
        HeaderOfPrefix(s[..h.length], s[h.length..]);
        assert s[..h.length] + s[h.length..] == s;
        CompleteSound(stream, l, s[..h.length]);
        var c := Complete(l, s[..h.length]);
        ParseSound(stream, c.ledger, c.pending + s[h.length..]);
      }
    }
  }

  lemma PosInside(stream: seq<byte>, g: Ledger)
    requires Sound(stream, g)
    ensures g.pos <= |stream|
  {
  }

  lemma DropSound(stream: seq<byte>, g: Ledger)
    requires Sound(stream, g) && g.pos < |stream|
    ensures Sound(stream, Drop(g, 1))
  {
  }

  lemma AcceptedAreDisjointSlices(stream: seq<byte>)
    ensures var p := Parse(NEW_SESSION, stream); Sound(stream, p.ledger) && p.pending == stream[p.ledger.pos..]
  {
    hide IsOk, ReadHeader, Parse;
    assert stream[0..] == stream;
    ParseSound(stream, NEW_SESSION, stream);
  }

  // ----- what every step keeps -----

  /** The byte budget, the latch and the bounds on the counters. */
  ghost predicate Budgeted(g: Ledger) {
    && 20 * |g.log| + 4 * g.bad <= g.pos
    && g.carries <= g.bad
    && (g.log != [] || g.bad > 0 ==> g.total.Some?)
    && (forall x :: x in g.log ==> x.seqNo < g.total.value)
  }

  /** A salvage offset is past the failed batch's own magic. */
  lemma SalvageSkipsMagic(slice: seq<byte>, total: Option<u32>)
    requires |slice| >= HEADER_SIZE && Starts(total, slice)
    ensures 4 <= SalvageAt(slice, total)
  {
    hide IsOk, Word, BitWord;
    var at := SalvageAt(slice, total);
    if at < |slice| {
      MagicDoesNotOverlap(slice, at);
    }
  }

  lemma CompleteKeeps(g: Ledger, slice: seq<byte>)
    requires Budgeted(g) && |slice| >= HEADER_SIZE && Starts(g.total, slice) && g.total.Some?
    ensures var c := Complete(g, slice);
            Budgeted(c.ledger) && c.ledger.total == g.total && g.log <= c.ledger.log && g.bad <= c.ledger.bad
  {
    hide IsOk, ReadHeader;
    SalvageSkipsMagic(slice, g.total);
    var c := Complete(g, slice);
    forall x | x in c.ledger.log ensures x.seqNo < g.total.value {
      if x !in g.log {
        assert x == Span(g.pos, |slice|, ReadHeader(slice).seqNo);
      }
    }
  }

  /**
   * Every run keeps the byte budget (20 bytes an accepted batch, 4 a failed one), never moves the latch
   * once it is set, and only ever appends to the log.
   */
  lemma {:induction false} ParseKeeps(g: Ledger, s: seq<byte>)
    requires Budgeted(g)
    ensures var p := Parse(g, s);
            Budgeted(p.ledger) && g.log <= p.ledger.log && g.bad <= p.ledger.bad &&
            (g.total.Some? ==> p.ledger.total == g.total)
    decreases |s|
  {
    hide IsOk, ReadHeader, Complete, Budgeted;
    if |s| < HEADER_SIZE {
    } else if !Starts(g.total, s) {
      DropKeeps(g, 1);
      ParseKeeps(Drop(g, 1), s[1..]);
    } else {
      var h := ReadHeader(s);
      var l := Latch(g, h.batchTotal);
      LatchKeeps(g, h.batchTotal);
      if Ready(s) {
        var slice := s[..h.length];
        assert slice + s[h.length..] == s;
        StartsPrefix(l.total, slice, s[h.length..]);
        CompleteKeeps(l, slice);
        var c := Complete(l, slice);
        ParseKeeps(c.ledger, c.pending + s[h.length..]);
      }
    }
  }

  lemma DropKeeps(g: Ledger, n: nat)
    requires Budgeted(g)
    ensures Budgeted(Drop(g, n))
  {
  }

  lemma LatchKeeps(g: Ledger, total: u32)
    requires Budgeted(g) && (g.total.Some? ==> g.total.value == total)
    ensures Budgeted(Latch(g, total))
  {
  }

  /** The byte budget of a whole session, pending bytes included. */
  lemma ByteBudget(stream: seq<byte>)
    ensures var p := Parse(NEW_SESSION, stream);
            20 * |p.ledger.log| + 4 * p.ledger.bad + |p.pending| <= |stream|
  {
    hide Parse, IsOk, ReadHeader;
    ParseKeeps(NEW_SESSION, stream);
    ParseIsQuiet(NEW_SESSION, stream);
  }

  // ----- salvage -----

  /** With a session header in place and all its bytes there, only the checksum can fail. */
  lemma OnlyChecksumFails(total: Option<u32>, slice: seq<byte>)
    requires Starts(total, slice) && ReadHeader(slice).length == |slice|
    ensures ValidateBatch(slice) in {Ok, BadCrc}
  {
  }

  /**
   * A header of the session starts at i inside a failed batch, with the number that follows the batch's own;
   * any number will do behind the last batch of a run.
   */
  ghost predicate Sought(slice: seq<byte>, total: Option<u32>, i: nat)
    requires |slice| >= HEADER_SIZE
  {
    && i + 20 <= |slice|
    && var h, c := ReadHeader(slice), ReadHeader(slice[i..]);
    && c.magic == 0x4255_4450 && c.seqNo < c.batchTotal && 20 <= c.length <= 65536
    && (total.Some? ==> c.batchTotal == total.value)
    && (h.seqNo + 1 < h.batchTotal ==> c.seqNo == h.seqNo + 1)
  }

  /** The first such header behind the failed batch's own, and it is that of a complete batch that passes. */
  ghost predicate Salvageable(slice: seq<byte>, total: Option<u32>, at: nat)
    requires |slice| >= HEADER_SIZE
  {
    && 1 <= at
    && Sought(slice, total, at)
    && (var end := at + ReadHeader(slice[at..]).length; end <= |slice| && IsOk(slice[at..end]))
    && forall k :: 1 <= k < at ==> !Sought(slice, total, k)
  }

  lemma SoughtIsCandidate(slice: seq<byte>, total: Option<u32>, i: nat)
    requires |slice| >= HEADER_SIZE
    ensures Sought(slice, total, i) <==> Candidate(slice, i, Wanted(ReadHeader(slice)), total)
  {
    hide ReadHeader;
  }

  /** A tail is carried from an offset exactly when it is salvageable there. */
  lemma SalvageExact(slice: seq<byte>, total: Option<u32>, at: nat)
    requires |slice| >= HEADER_SIZE && at < |slice|
    ensures SalvageAt(slice, total) == at <==> Salvageable(slice, total, at)
  {
    hide IsOk, ReadHeader, Starts, Sought, Candidate, Wanted;
    var want := Wanted(ReadHeader(slice));
    SoughtIsCandidate(slice, total, at);
    forall k | 1 <= k < at ensures Sought(slice, total, k) <==> Candidate(slice, k, want, total) {
      SoughtIsCandidate(slice, total, k);
    }
    if Salvageable(slice, total, at) {
      assert FirstCandidate(slice, 1, want, total) == at;
    }
  }

  /** The batch at the head of a carried tail has the number that follows the failed batch's own. */
  lemma SalvagedNumber(slice: seq<byte>, total: Option<u32>)
    requires |slice| >= HEADER_SIZE && SalvageAt(slice, total) < |slice|
    ensures var h, at := ReadHeader(slice), SalvageAt(slice, total);
            && at + HEADER_SIZE <= |slice|
            && (h.seqNo + 1 < h.batchTotal ==> ReadHeader(slice[at..]).seqNo == h.seqNo + 1)
  {
    hide IsOk, ReadHeader, SalvageAt;
    SalvageExact(slice, total, SalvageAt(slice, total));
  }

  lemma {:induction false} LogGrows(g: Ledger, s: seq<byte>)
    ensures g.log <= Parse(g, s).ledger.log
    decreases |s|
  {
    hide IsOk, ReadHeader, SalvageAt;
    if |s| < HEADER_SIZE {
    } else if !Starts(g.total, s) {
      LogGrows(Drop(g, 1), s[1..]);
    } else if Ready(s) {
      var h := ReadHeader(s);
      var c := Complete(Latch(g, h.batchTotal), s[..h.length]);
      LogGrows(c.ledger, c.pending + s[h.length..]);
    }
  }

  /** Every header of the session that starts in s announces the same length. */
  ghost predicate UniformLength(total: Option<u32>, s: seq<byte>, length: nat) {
    forall i :: 0 <= i <= |s| && Starts(total, s[i..]) ==> ReadHeader(s[i..]).length == length
  }

  lemma UniformRest(total: Option<u32>, later: Option<u32>, s: seq<byte>, length: nat, n: nat)
    requires UniformLength(total, s, length) && n <= |s| && (total.Some? ==> later == total)
    ensures UniformLength(later, s[n..], length)
  {
    hide ReadHeader;
    forall i | 0 <= i <= |s[n..]| && Starts(later, s[n..][i..])
      ensures ReadHeader(s[n..][i..]).length == length
    {
      assert s[n..][i..] == s[n + i..];
      assert Starts(total, s[n + i..]);
    }
  }

  lemma UniformNoSalvage(total: Option<u32>, s: seq<byte>, n: nat)
    requires HEADER_SIZE <= n <= |s| && UniformLength(total, s, n)
    ensures SalvageAt(s[..n], total) == n
  {
    hide ReadHeader, IsOk;
    var slice := s[..n];
    var at := SalvageAt(slice, total);
    if at < n {
      assert slice[at..] + s[n..] == s[at..];
      StartsPrefix(total, slice[at..], s[n..]);
      assert false;
    }
  }

  /** If all headers with the latched total announce one length, no tail is ever carried. */
  lemma {:induction false} UniformNoCarry(g: Ledger, s: seq<byte>, length: nat)
    requires UniformLength(g.total, s, length)
    ensures Parse(g, s).ledger.carries == g.carries
    decreases |s|
  {
    hide ReadHeader, IsOk, UniformLength, SalvageAt;
    if |s| < HEADER_SIZE {
    } else if !Starts(g.total, s) {
      UniformRest(g.total, g.total, s, length, 1);
      UniformNoCarry(Drop(g, 1), s[1..], length);
    } else if Ready(s) {
      var h := ReadHeader(s);
      var l := Latch(g, h.batchTotal);
      UniformHere(g.total, s, length);
      UniformRest(g.total, l.total, s, length, 0);
      assert s[0..] == s;
      UniformNoSalvage(l.total, s, length);
      var c := Complete(l, s[..length]);
      assert c.pending == [] && c.ledger.carries == g.carries;
      UniformRest(g.total, l.total, s, length, length);
      assert c.pending + s[length..] == s[length..];
      UniformNoCarry(c.ledger, s[length..], length);
    }
  }

  lemma UniformHere(total: Option<u32>, s: seq<byte>, length: nat)
    requires UniformLength(total, s, length) && Starts(total, s)
    ensures ReadHeader(s).length == length
  {
    hide ReadHeader;
    assert s[0..] == s;
  }
}
