/** Inferring the sender's segment size from the sizes of the slices a batch arrived in. */
module Mss {
  import opened Bytes

  /** The most frequent size, and the largest of those. */
  ghost predicate IsMode(sizes: seq<nat>, v: nat) {
    v in sizes && forall w :: w in sizes ==>
      multiset(sizes)[w] < multiset(sizes)[v] || (multiset(sizes)[w] == multiset(sizes)[v] && w <= v)
  }

  /** What a receiver reports for these slices: nothing for fewer than two, else their mode. */
  ghost predicate Detects(sizes: seq<nat>, r: Option<nat>) {
    if |sizes| < 2 then r == None else r.Some? && IsMode(sizes, r.value)
  }

  method InferDetectedMss(sizes: seq<nat>) returns (r: Option<nat>)
    ensures Detects(sizes, r)
  {
    if |sizes| < 2 {
      return None;
    }
    var best, bestCount := sizes[0], 0;
    for i := 0 to |sizes|
      invariant i == 0 ==> best == sizes[0] && bestCount == 0
      invariant i > 0 ==> best in sizes && bestCount == multiset(sizes)[best]
      invariant forall w :: w in sizes[..i] ==>
        multiset(sizes)[w] < bestCount || (multiset(sizes)[w] == bestCount && w <= best)
    {
      var value := sizes[i];
      var count := CountOf(sizes, value);
      assert value in multiset(sizes);
      if count > bestCount || (count == bestCount && value > best) {
        best, bestCount := value, count;
      }
      assert sizes[..i + 1] == sizes[..i] + [value];
    }
    assert sizes[..|sizes|] == sizes;
    return Some(best);
  }

  method CountOf(sizes: seq<nat>, value: nat) returns (count: nat)
    ensures count == multiset(sizes)[value]
  {
    count := 0;
    for j := 0 to |sizes|
      invariant count == multiset(sizes[..j])[value]
    {
      assert sizes[..j + 1] == sizes[..j] + [sizes[j]];
      if sizes[j] == value {
        count := count + 1;
      }
    }
    assert sizes[..|sizes|] == sizes;
  }

  /** The report depends only on how often each size occurs, and is unique. */
  lemma DetectsUnique(a: seq<nat>, b: seq<nat>, r: Option<nat>, t: Option<nat>)
    requires multiset(a) == multiset(b) && Detects(a, r) && Detects(b, t)
    ensures r == t
  {
    assert |a| == |multiset(a)| == |multiset(b)| == |b|;
    if |a| >= 2 {
      assert r.value in multiset(a) && t.value in multiset(b);
      assert r.value in b && t.value in a;
    }
  }

  // ----- a batch received segment by segment -----

  /**
   * The slices of a batch of n segments of size mss and last segment l, when recording starts inside the
   * first of them: the header is read before slices are recorded.
   */
  function AlignedSizes(n: nat, first: nat, mss: nat, l: nat): (s: seq<nat>)
    requires 2 <= n
    ensures |s| == n
  {
    [first] + seq(n - 2, i => mss) + [l]
  }

  lemma {:induction false} CountRepeated(k: nat, x: nat, w: nat)
    ensures multiset(seq(k, i => x))[w] == if w == x then k else 0
  {
    if k > 0 {
      CountRepeated(k - 1, x, w);
      assert seq(k, i => x) == seq(k - 1, i => x) + [x];
    } else {
      var s: seq<nat> := seq(0, i => x);
      assert s == [];
    }
  }

  lemma CountAligned(n: nat, first: nat, mss: nat, l: nat, w: nat)
    requires 2 <= n
    ensures multiset(AlignedSizes(n, first, mss, l))[w] ==
            (if w == first then 1 else 0) + (if w == mss then n - 2 else 0) + (if w == l then 1 else 0)
  {
    CountRepeated(n - 2, mss, w);
    assert multiset([first])[w] == if w == first then 1 else 0;
    assert multiset([l])[w] == if w == l then 1 else 0;
  }

  /** Exactly when the receiver reports the sender's segment size. */
  lemma AlignedDetection(n: nat, first: nat, mss: nat, l: nat, r: Option<nat>)
    requires 2 <= n && 1 <= first <= mss && 1 <= l <= mss && Detects(AlignedSizes(n, first, mss, l), r)
    ensures r == Some(mss) <==> first == mss || n >= 4 || (n == 3 && l != first) || (n == 2 && l == mss)
  {
    var s := AlignedSizes(n, first, mss, l);
    var v := r.value;
    CountAligned(n, first, mss, l, v);
    CountAligned(n, first, mss, l, mss);
    CountAligned(n, first, mss, l, first);
    CountAligned(n, first, mss, l, l);
    assert s[0] == first && s[|s| - 1] == l;
    assert v in s;
    assert n > 2 ==> s[1] == mss;
    assert v in multiset(s);
    assert mss in multiset(s) ==> mss in s;
  }
}
