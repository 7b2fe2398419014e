/** What the sequence counters mean: functions of the list of accepted sequence numbers alone. */
module History {
  import opened Bytes

  function SeenSet(q: seq<u32>): set<u32> {
    set x | x in q
  }

  /** Every accepted number that was accepted before. */
  function Duplicates(q: seq<u32>): nat {
    SeenAtMost(q);
    |q| - |SeenSet(q)|
  }

  lemma {:induction false} SeenAtMost(q: seq<u32>)
    ensures |SeenSet(q)| <= |q|
  {
    if q == [] {
      assert SeenSet(q) == {};
    } else {
      var n := |q| - 1;
      SeenAtMost(q[..n]);
      assert q == q[..n] + [q[n]];
      SeenAppend(q[..n], q[n]);
    }
  }

  /** The i-th accepted number is new, and smaller than one accepted earlier. */
  predicate LateFirst(q: seq<u32>, i: nat)
    requires i < |q|
  {
    q[i] !in q[..i] && exists j :: 0 <= j < i && q[j] > q[i]
  }

  function OutOfOrder(q: seq<u32>): nat {
    |set i: nat | i < |q| && LateFirst(q, i)|
  }

  ghost predicate IsHighest(q: seq<u32>, h: u32) {
    h in q && forall x :: x in q ==> x <= h
  }

  /** The numbers 0..n-1 that were never accepted. */
  function Missing(seen: set<u32>, n: nat): set<nat> {
    set x: nat | x < n && x !in seen
  }

  lemma SeenAppend(q: seq<u32>, x: u32)
    ensures SeenSet(q + [x]) == SeenSet(q) + {x}
  {
  }

  lemma DuplicatesAppend(q: seq<u32>, x: u32)
    ensures Duplicates(q + [x]) == Duplicates(q) + (if x in q then 1 else 0)
  {
    SeenAppend(q, x);
    assert x in SeenSet(q) <==> x in q;
    if x in q {
      assert SeenSet(q) + {x} == SeenSet(q);
    }
  }

  lemma LateFirstAppend(q: seq<u32>, x: u32, i: nat)
    requires i < |q|
    ensures LateFirst(q + [x], i) == LateFirst(q, i)
  {
    assert (q + [x])[..i] == q[..i];
    if LateFirst(q, i) {
      var j :| 0 <= j < i && q[j] > q[i];
      assert (q + [x])[j] > (q + [x])[i];
    }
    if LateFirst(q + [x], i) {
      var j :| 0 <= j < i && (q + [x])[j] > (q + [x])[i];
      assert q[j] > q[i];
    }
  }

  lemma OutOfOrderAppend(q: seq<u32>, x: u32)
    ensures OutOfOrder(q + [x]) == OutOfOrder(q) + (if x !in q && exists y :: y in q && y > x then 1 else 0)
  {
    var r := q + [x];
    var before := set i: nat | i < |q| && LateFirst(q, i);
    var after := set i: nat | i < |r| && LateFirst(r, i);
    forall i: nat | i < |q| ensures LateFirst(r, i) == LateFirst(q, i) {
      LateFirstAppend(q, x, i);
    }
    assert r[..|q|] == q && r[|q|] == x;
    if x !in q && exists y :: y in q && y > x {
      var y :| y in q && y > x;
      var j :| 0 <= j < |q| && q[j] == y;
      assert r[j] > r[|q|];
      assert after == before + {|q|};
    } else {
      forall j | 0 <= j < |q| && x !in q ensures r[j] <= r[|q|] {
        assert r[j] == q[j] && q[j] in q;
      }
      assert !LateFirst(r, |q|);
      assert after == before;
    }
  }

  lemma EmptyHistory()
    ensures SeenSet([]) == {} && Duplicates([]) == 0 && OutOfOrder([]) == 0
  {
  }

  /** The first acceptances come in increasing order. */
  ghost predicate FirstsIncreasing(q: seq<u32>) {
    forall i, j :: 0 <= j < i < |q| && q[i] !in q[..i] && q[j] !in q[..j] ==> q[j] < q[i]
  }

  lemma FirstOccurrence(q: seq<u32>, j: nat) returns (f: nat)
    requires j < |q|
    ensures f <= j && q[f] == q[j] && q[f] !in q[..f]
  {
    f := j;
    while q[f] in q[..f]
      invariant f <= j && q[f] == q[j]
      decreases f
    {
      var k :| 0 <= k < f && q[..f][k] == q[f];
      f := k;
    }
  }

  /** No number counts as out of order exactly when the first acceptances are increasing. */
  lemma InOrderIff(q: seq<u32>)
    ensures OutOfOrder(q) == 0 <==> FirstsIncreasing(q)
  {
    var late := set i: nat | i < |q| && LateFirst(q, i);
    if FirstsIncreasing(q) {
      forall i: nat | i < |q| ensures !LateFirst(q, i) {
        if LateFirst(q, i) {
          var j :| 0 <= j < i && q[j] > q[i];
          var f := FirstOccurrence(q, j);
          assert false;
        }
      }
      assert late == {};
    } else {
      var i, j :| 0 <= j < i < |q| && q[i] !in q[..i] && q[j] !in q[..j] && q[j] >= q[i];
      assert q[j] == q[..i][j];
      assert LateFirst(q, i);
      assert i in late;
    }
  }

  /** Strictly increasing acceptances are neither duplicates nor out of order. */
  lemma IncreasingHistory(q: seq<u32>)
    requires forall i, j :: 0 <= i < j < |q| ==> q[i] < q[j]
    ensures Duplicates(q) == 0 && OutOfOrder(q) == 0
  {
    InOrderIff(q);
    DistinctHistory(q);
  }

  lemma {:induction false} DistinctHistory(q: seq<u32>)
    requires forall i, j :: 0 <= i < j < |q| ==> q[i] != q[j]
    ensures |SeenSet(q)| == |q|
  {
    if q == [] {
      EmptyHistory();
    } else {
      var n := |q| - 1;
      DistinctHistory(q[..n]);
      assert q == q[..n] + [q[n]];
      SeenAppend(q[..n], q[n]);
    }
  }

  /** The missing numbers below n and the seen numbers below n make up 0..n-1. */
  lemma {:induction false} MissingPartition(seen: set<u32>, n: nat)
    ensures |Missing(seen, n)| + |set x | x in seen && x < n| == n
  {
    if n == 0 {
      assert Missing(seen, 0) == {};
      assert (set x | x in seen && x < 0) == {};
    } else {
      MissingPartition(seen, n - 1);
      var m := n - 1;
      var have, had := set x | x in seen && x < n, set x | x in seen && x < m;
      if m in seen {
        assert have == had + {m};
        assert Missing(seen, n) == Missing(seen, m);
      } else {
        assert have == had;
        assert Missing(seen, n) == Missing(seen, m) + {m};
      }
    }
  }

  /** Strictly increasing acceptances below m: no duplicate, none out of order, and the rest is missing. */
  lemma IncreasingSummary(q: seq<u32>, m: nat)
    requires forall i, j :: 0 <= i < j < |q| ==> q[i] < q[j]
    requires forall i :: 0 <= i < |q| ==> q[i] < m
    ensures Duplicates(q) == 0 && OutOfOrder(q) == 0 && |Missing(SeenSet(q), m)| == m - |q|
  {
    hide OutOfOrder;
    IncreasingHistory(q);
    DistinctHistory(q);
    MissingPartition(SeenSet(q), m);
    assert (set x | x in SeenSet(q) && x < m) == SeenSet(q);
  }
}
