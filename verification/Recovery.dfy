/** What the parser does on streams made of batches: clean runs, junk before a batch, and a run with a loss. */
module Recovery {
  import opened Bytes
  import opened Packet
  import opened StreamParser
  import opened StreamProperties

  /** No header of the session starts at the first n positions of s. */
  ghost predicate NoStart(total: Option<u32>, s: seq<byte>, n: nat) {
    forall i :: 0 <= i < n && i <= |s| ==> !Starts(total, s[i..])
  }

  lemma NoStartRest(total: Option<u32>, s: seq<byte>, n: nat)
    requires NoStart(total, s, n) && 0 < n && 0 < |s|
    ensures NoStart(total, s[1..], n - 1) && !Starts(total, s)
  {
    hide ReadHeader;
    assert s[0..] == s;
    forall i | 0 <= i < n - 1 && i <= |s[1..]| ensures !Starts(total, s[1..][i..]) {
      assert s[1..][i..] == s[i + 1..];
    }
  }

  lemma {:induction false} SkipJunk(g: Ledger, s: seq<byte>, n: nat)
    requires n + HEADER_SIZE - 1 <= |s| && NoStart(g.total, s, n)
    ensures Parse(g, s) == Parse(Drop(g, n), s[n..])
    decreases n
  {
    hide ReadHeader, NoStart;
    if n == 0 {
      assert s[0..] == s && Drop(g, 0) == g;
    } else {
      NoStartRest(g.total, s, n);
      SkipJunk(Drop(g, 1), s[1..], n - 1);
      assert s[1..][n - 1..] == s[n..];
      assert Drop(Drop(g, 1), n - 1) == Drop(g, n);
    }
  }

  lemma {:induction false} SkipAllJunk(g: Ledger, s: seq<byte>)
    requires NoStart(g.total, s, |s|)
    ensures var p := Parse(g, s); |p.pending| < HEADER_SIZE && p.ledger == g.(pos := p.ledger.pos)
    decreases |s|
  {
    hide ReadHeader, NoStart;
    if |s| >= HEADER_SIZE {
      NoStartRest(g.total, s, |s|);
      SkipAllJunk(Drop(g, 1), s[1..]);
    }
  }

  /**
   * If from the first plausible header of the session on all headers with its total announce one length,
   * no tail is ever carried. In a new session headers of other sessions do not matter.
   */
  lemma UniformSession(g: Ledger, s: seq<byte>, length: nat)
    requires var n := FirstCandidate(s, 0, None, g.total);
             n < |s| ==> UniformLength(Some(ReadHeader(s[n..]).batchTotal), s[n..], length)
    ensures Parse(g, s).ledger.carries == g.carries
  {
    hide ReadHeader, UniformLength, Parse, Starts, NoStart;
    var n := FirstCandidate(s, 0, None, g.total);
    NoStartBefore(s, g.total);
    if n == |s| {
      SkipAllJunk(g, s);
    } else {
      SkipJunk(g, s, n);
      LatchTwice(Drop(g, n), s[n..]);
      UniformNoCarry(Latch(Drop(g, n), ReadHeader(s[n..]).batchTotal), s[n..], length);
    }
  }

  lemma NoStartBefore(s: seq<byte>, total: Option<u32>)
    ensures NoStart(total, s, FirstCandidate(s, 0, None, total))
  {
    hide ReadHeader;
    var n := FirstCandidate(s, 0, None, total);
    forall i | 0 <= i < n ensures !Starts(total, s[i..]) {
      assert !Candidate(s, i, None, total);
    }
  }

  /** A batch of the session that passes. */
  predicate Fits(total: Option<u32>, b: seq<byte>) {
    IsOk(b) && Starts(total, b)
  }

  function Taken(g: Ledger, b: seq<byte>): Ledger
    requires |b| >= HEADER_SIZE
  {
    var h := ReadHeader(b);
    Accept(Latch(g, h.batchTotal), |b|, h.seqNo)
  }

  lemma TakeBatch(g: Ledger, b: seq<byte>, rest: seq<byte>)
    requires Fits(g.total, b) && (HEADER_SIZE < |b| || rest != [])
    ensures Parse(g, b + rest) == Parse(Taken(g, b), rest)
  {
    assert ReadHeader(b).length == |b|;
    hide ReadHeader, IsOk;
    StartsPrefix(g.total, b, rest);
    assert (b + rest)[..|b|] == b && (b + rest)[|b|..] == rest;
    assert [] + rest == rest;
  }

  /**
   * From an inactive state, junk in which no header of the session starts, followed by a batch that
   * passes, adds exactly that batch and no failure, however the bytes are cut into chunks.
   */
  lemma JunkThenBatch(p: Parsed, chunks: seq<seq<byte>>, n: nat)
    requires Quiet(p.ledger.total, p.pending)
    requires var s := p.pending + Flat(chunks);
             n <= |s| && Fits(p.ledger.total, s[n..]) && HEADER_SIZE < |s[n..]| && NoStart(p.ledger.total, s, n)
    ensures var s := p.pending + Flat(chunks);
            Feed(p, chunks) == Parsed(Taken(Drop(p.ledger, n), s[n..]), [])
  {
    hide ReadHeader, IsOk, NoStart, Quiet, Feed;
    var s := p.pending + Flat(chunks);
    FeedIsParse(p, chunks);
    SkipJunk(p.ledger, s, n);
    TakeBatch(Drop(p.ledger, n), s[n..], []);
    assert s[n..] + [] == s[n..];
  }

  // ----- runs of batches -----

  /** Batches of one session total that pass. */
  ghost predicate Run(total: u32, bs: seq<seq<byte>>) {
    forall i :: 0 <= i < |bs| ==> Fits(Some(total), bs[i])
  }

  function TakenAll(g: Ledger, bs: seq<seq<byte>>): Ledger
    requires forall i :: 0 <= i < |bs| ==> |bs[i]| >= HEADER_SIZE
    decreases |bs|
  {
    if bs == [] then g else TakenAll(Taken(g, bs[0]), bs[1..])
  }

  function NumbersOf(bs: seq<seq<byte>>): (q: seq<u32>)
    requires forall i :: 0 <= i < |bs| ==> |bs[i]| >= HEADER_SIZE
    ensures |q| == |bs|
  {
    seq(|bs|, i requires 0 <= i < |bs| => ReadHeader(bs[i]).seqNo)
  }

  lemma {:induction false} TakenAllFields(g: Ledger, total: u32, bs: seq<seq<byte>>)
    requires Run(total, bs)
    ensures var t := TakenAll(g, bs);
            t.bad == g.bad && t.carries == g.carries && Seqs(t.log) == Seqs(g.log) + NumbersOf(bs) &&
            t.total == (if bs == [] then g.total else Some(total)) && t.pos == g.pos + |Flat(bs)|
    decreases |bs|
  {
    hide ReadHeader, IsOk;
    if bs == [] {
      assert Seqs(g.log) + NumbersOf(bs) == Seqs(g.log);
    } else {
      assert Fits(Some(total), bs[0]);
      var g' := Taken(g, bs[0]);
      TakenAllFields(g', total, bs[1..]);
      assert Seqs(g'.log) == Seqs(g.log) + [ReadHeader(bs[0]).seqNo];
      assert [ReadHeader(bs[0]).seqNo] + NumbersOf(bs[1..]) == NumbersOf(bs);
    }
  }

  /** A run of batches is accepted batch by batch, whatever follows it. */
  lemma {:induction false} ParseRun(g: Ledger, total: u32, bs: seq<seq<byte>>, rest: seq<byte>)
    requires Run(total, bs) && (g.total.Some? ==> g.total.value == total)
    requires (forall i :: 0 <= i < |bs| ==> HEADER_SIZE < |bs[i]|) || rest != []
    ensures Parse(g, Flat(bs) + rest) == Parse(TakenAll(g, bs), rest)
    decreases |bs|
  {
    hide ReadHeader, IsOk, Parse;
    if bs == [] {
      assert Flat(bs) + rest == rest;
    } else {
      assert Fits(Some(total), bs[0]);
      assert Flat(bs) + rest == bs[0] + (Flat(bs[1..]) + rest);
      TakeBatch(g, bs[0], Flat(bs[1..]) + rest);
      ParseRun(Taken(g, bs[0]), total, bs[1..], rest);
    }
  }

  /** After a run of bare headers the last one stays pending. */
  lemma ParseBareRun(g: Ledger, total: u32, bs: seq<seq<byte>>, last: seq<byte>)
    requires Run(total, bs) && Fits(Some(total), last) && |last| == HEADER_SIZE
    requires g.total.Some? ==> g.total.value == total
    ensures Parse(g, Flat(bs) + last) == Parsed(Latch(TakenAll(g, bs), total), last)
  {
    hide ReadHeader, IsOk;
    ParseRun(g, total, bs, last);
    TakenAllFields(g, total, bs);
  }

  // ----- salvage -----

  lemma SalvagedHead(g: Ledger, slice: seq<byte>)
    requires |slice| >= HEADER_SIZE && !IsOk(slice) && SalvageAt(slice, g.total) < |slice|
    ensures var c := Complete(g, slice);
            var at := SalvageAt(slice, g.total);
            Starts(g.total, c.pending) && c.pending == slice[at..] &&
            ReadHeader(c.pending).length <= |c.pending| && IsOk(c.pending[..ReadHeader(c.pending).length])
  {
    hide ReadHeader, IsOk;
    var at := SalvageAt(slice, g.total);
    var h := ReadHeader(slice[at..]);
    assert CompleteAt(slice, at);
    SliceOfRest(slice, at, h.length);
  }

  /**
   * Progress: parsing a carried tail accepts the salvaged batch at once, unless the tail is a bare
   * header, which stays pending.
   */
  lemma SalvageProgress(g: Ledger, slice: seq<byte>)
    requires |slice| >= HEADER_SIZE && !IsOk(slice) && SalvageAt(slice, g.total) < |slice|
    ensures var c := Complete(g, slice);
            var p := Parse(c.ledger, c.pending);
            if |c.pending| == HEADER_SIZE then p.pending == c.pending && p.ledger.log == g.log
            else |p.ledger.log| > |g.log| && p.ledger.log[|g.log|].pos == g.pos + SalvageAt(slice, g.total)
  {
    hide ReadHeader, IsOk, SalvageAt, Parse;
    var c := Complete(g, slice);
    SalvagedHead(g, slice);
    var h := ReadHeader(c.pending);
    if |c.pending| == HEADER_SIZE {
      ParseBareHeader(c.ledger, c.pending);
    } else {
      var batch, rest := c.pending[..h.length], c.pending[h.length..];
      assert batch + rest == c.pending;
      StartsPrefix(g.total, batch, rest);
      TakeBatch(c.ledger, batch, rest);
      LogGrows(Taken(c.ledger, batch), rest);
    }
  }

  lemma ParseBareHeader(g: Ledger, s: seq<byte>)
    requires |s| == HEADER_SIZE && Starts(g.total, s)
    ensures Parse(g, s) == Parsed(Latch(g, ReadHeader(s).batchTotal), s)
  {
    hide ReadHeader;
  }

  /** The first batch of a salvaged tail, followed by what comes after the failed batch. */
  lemma ResumeTakes(g: Ledger, slice: seq<byte>, rest: seq<byte>)
    requires |slice| >= HEADER_SIZE && !IsOk(slice) && SalvageAt(slice, g.total) < |slice|
    requires HEADER_SIZE < |Complete(g, slice).pending + rest|
    ensures var c := Complete(g, slice);
            var n := ReadHeader(c.pending + rest).length;
            1 <= n <= |c.pending + rest| && HEADER_SIZE <= |(c.pending + rest)[..n]| &&
            Parse(c.ledger, c.pending + rest) ==
            Parse(Taken(c.ledger, (c.pending + rest)[..n]), (c.pending + rest)[n..])
  {
    hide ReadHeader, IsOk, SalvageAt, Parse;
    var c := Complete(g, slice);
    SalvagedHead(g, slice);
    StartsPrefix(g.total, c.pending, rest);
    var n := ReadHeader(c.pending).length;
    StartsSize(g.total, c.pending);
    var batch, after := c.pending[..n], c.pending[n..] + rest;
    assert c.pending + rest == batch + after;
    assert batch + c.pending[n..] == c.pending;
    StartsPrefix(g.total, batch, c.pending[n..]);
    TakeBatch(c.ledger, batch, after);
    assert (c.pending + rest)[..n] == batch && (c.pending + rest)[n..] == after;
  }

  lemma StartsSize(total: Option<u32>, s: seq<byte>)
    requires Starts(total, s)
    ensures HEADER_SIZE <= |s| && HEADER_SIZE <= ReadHeader(s).length <= MAX_LENGTH
  {
    hide ReadHeader;
  }

  /** One for a bare header that waits to be completed. */
  function Waiting(pending: seq<byte>): nat {
    if |pending| == HEADER_SIZE then 1 else 0
  }

  /**
   * Every resumed failure pays for itself: over any run there are no more of them than accepted batches,
   * plus one if a bare header is pending. So the fragment count exceeds the number of datagrams by at
   * most that.
   */
  lemma {:induction false} ResumesArePaid(g: Ledger, s: seq<byte>)
    ensures var p := Parse(g, s);
            p.ledger.carries + |g.log| <= g.carries + |p.ledger.log| + Waiting(p.pending)
    decreases |s|
  {
    hide ReadHeader, IsOk, SalvageAt;
    if |s| < HEADER_SIZE {
    } else if !Starts(g.total, s) {
      ResumesArePaid(Drop(g, 1), s[1..]);
    } else if Ready(s) {
      var h := ReadHeader(s);
      var l := Latch(g, h.batchTotal);
      var slice, rest := s[..h.length], s[h.length..];
      var c := Complete(l, slice);
      var again := c.pending + rest;
      if IsOk(slice) || SalvageAt(slice, l.total) == |slice| {
        ResumesArePaid(c.ledger, again);
      } else {
        ResumeOnce(l, slice, rest);
        if |again| > HEADER_SIZE {
          var n := ReadHeader(again).length;
          ResumesArePaid(Taken(c.ledger, again[..n]), again[n..]);
        }
      }
    }
  }

  /** A salvaged tail is taken at once, or is a bare header that waits. */
  lemma ResumeOnce(g: Ledger, slice: seq<byte>, rest: seq<byte>)
    requires |slice| >= HEADER_SIZE && !IsOk(slice) && SalvageAt(slice, g.total) < |slice|
    ensures var c := Complete(g, slice);
            var again := c.pending + rest;
            && HEADER_SIZE <= |again|
            && c.ledger.carries == g.carries + 1 && c.ledger.log == g.log
            && var p := Parse(c.ledger, again);
            && (|again| == HEADER_SIZE ==>
                  p.pending == again && p.ledger.log == g.log && p.ledger.carries == c.ledger.carries)
            && (|again| > HEADER_SIZE ==>
                  var n := ReadHeader(again).length;
                  && 1 <= n <= |again| && HEADER_SIZE <= |again[..n]|
                  && p == Parse(Taken(c.ledger, again[..n]), again[n..]))
  {
    hide ReadHeader, IsOk, SalvageAt, Parse;
    var c := Complete(g, slice);
    SalvagedHead(g, slice);
    StartsSize(g.total, c.pending);
    if |c.pending + rest| == HEADER_SIZE {
      assert c.pending + rest == c.pending;
      ParseBareHeader(c.ledger, c.pending);
    } else {
      ResumeTakes(g, slice, rest);
    }
  }
}
