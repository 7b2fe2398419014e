/** What the script's payload generator produces: a closed form, its low bytes, and their period. */
module Generator {
  import opened Bytes
  import opened Packet
  import opened Script

  // ----- the closed form -----

  function Power(a: int, k: nat): int {
    if k == 0 then 1 else a * Power(a, k - 1)
  }

  /** 1 + a + ... + a^(k-1). */
  function PowerSum(a: int, k: nat): int {
    if k == 0 then 0 else PowerSum(a, k - 1) + Power(a, k - 1)
  }

  /** The affine iterate without any truncation. */
  function Iterate(a: int, c: int, x: int, k: nat): int {
    if k == 0 then x else a * Iterate(a, c, x, k - 1) + c
  }

  lemma {:induction false} IterateClosed(a: int, c: int, x: int, k: nat)
    ensures Iterate(a, c, x, k) == Power(a, k) * x + c * PowerSum(a, k)
    ensures a * PowerSum(a, k) + 1 == PowerSum(a, k) + Power(a, k)
  {
    if k > 0 {
      IterateClosed(a, c, x, k - 1);
      NextPower(a, c, x, Power(a, k - 1), PowerSum(a, k - 1));
    }
  }

  lemma NextPower(a: int, c: int, x: int, p: int, s: int)
    requires a * s + 1 == s + p
    ensures a * (p * x + c * s) + c == (a * p) * x + c * (s + p)
    ensures a * (s + p) + 1 == (s + p) + a * p
  {
    assert a * (p * x) == (a * p) * x;
    assert a * (c * s) == c * (a * s);
    assert c * (a * s) + c == c * (a * s + 1);
    assert a * (p * x + c * s) == a * (p * x) + a * (c * s);
    assert a * (s + p) == a * s + a * p;
  }

  /** Truncating after every step is truncating once at the end. */
  lemma {:induction false} StateIsIterate(start: int, k: nat)
    requires k >= 1
    ensures LcgState(start, k) == Iterate(1103515245, 12345, start, k) % 0x1_0000_0000
  {
    if k > 1 {
      StateIsIterate(start, k - 1);
      var x := Iterate(1103515245, 12345, start, k - 1);
      assert x == WRAP * (x / WRAP) + x % WRAP;
      TruncateOnce(x);
    } else {
      assert LcgState(start, 0) == start;
    }
  }

  lemma TruncateOnce(x: int)
    ensures ((x % WRAP) * 1103515245 + 12345) % WRAP == (1103515245 * x + 12345) % WRAP
  {
    var q, r := x / WRAP, x % WRAP;
    Remainder(r * 1103515245 + 12345, q * 1103515245, WRAP);
    assert 1103515245 * x + 12345 == r * 1103515245 + 12345 + q * 1103515245 * WRAP;
  }

  lemma Remainder(x: int, q: int, m: int)
    requires m > 0
    ensures (x + q * m) % m == x % m
  {
    var d := (x + q * m) / m - x / m - q;
    assert d * m == x % m - (x + q * m) % m;
    Multiple(d, m);
  }

  lemma NotNegative(d: nat, m: nat)
    ensures d * m >= 0
  {
  }

  lemma Multiple(d: int, m: int)
    requires m > 0
    ensures d == 0 || d * m >= m || d * m <= -m
  {
    if d > 0 {
      NotNegative(d - 1, m);
      assert d * m == (d - 1) * m + m;
    } else if d < 0 {
      NotNegative(-d - 1, m);
      assert d * m == -((-d - 1) * m) - m;
    }
  }

  /** The generator in closed form, for a = 1103515245: (a^k * start + 12345 * (1 + ... + a^(k-1))) mod 2^32. */
  lemma StateClosed(start: int, k: nat)
    requires k >= 1
    ensures var a := 1103515245;
            LcgState(start, k) == (Power(a, k) * start + 12345 * PowerSum(a, k)) % 0x1_0000_0000
  {
    StateIsIterate(start, k);
    IterateClosed(1103515245, 12345, start, k);
  }

  // ----- the payload bytes -----

  /** The next payload byte. */
  function NextByte(b: int): (r: byte) {
    (109 * b + 57) % 256
  }

  /** The low byte depends on the low byte before it alone. */
  lemma LowByteStep(x: int)
    ensures ((x * 1103515245 + 12345) % WRAP) % 256 == NextByte(x)
  {
    var s := x * 1103515245 + 12345;
    assert s % WRAP == s + (-0x100_0000 * (s / WRAP)) * 256;
    Remainder(s, -0x100_0000 * (s / WRAP), 256);
    Remainder(109 * x + 57, 4310606 * x + 48, 256);
  }

  lemma LowByteOnly(x: int)
    ensures NextByte(x) == NextByte(x % 256)
  {
    Remainder(109 * (x % 256) + 57, 109 * (x / 256), 256);
  }

  lemma ByteAt(start: int, n: nat, i: nat)
    requires i < n
    ensures LcgPayload(start, n)[i] == NextByte(LcgState(start, i))
    ensures i > 0 ==> LcgPayload(start, n)[i - 1] == LcgState(start, i) % 256
  {
    LowByteStep(LcgState(start, i));
  }

  /** The payload in bytes: the first comes from the start value, each other one from the byte before it. */
  lemma PayloadBytes(start: int, n: nat)
    ensures var p := LcgPayload(start, n);
            && (n > 0 ==> p[0] == NextByte(start))
            && forall i :: 0 <= i < n - 1 ==> p[i + 1] == NextByte(p[i])
  {
    hide LcgPayload, LcgState, NextByte;
    var p := LcgPayload(start, n);
    if n > 0 {
      ByteAt(start, n, 0);
      FirstState(start);
    }
    forall i | 0 <= i < n - 1 ensures p[i + 1] == NextByte(p[i]) {
      ByteAt(start, n, i + 1);
      LowByteOnly(LcgState(start, i + 1));
    }
  }

  /** The payload bytes of the batch with this number, of any size, for this seed. */
  lemma BatchBytes(seqNo: u32, batchTotal: u32, n: nat, seed: int)
    ensures var b := Built(seqNo, batchTotal, LcgPayload(seed + seqNo * 10007, n));
            && (n > 0 ==> b[20] == NextByte(seed + seqNo * 10007))
            && forall i :: 20 <= i < |b| - 1 ==> b[i + 1] == NextByte(b[i])
  {
    hide Built, LcgPayload, NextByte;
    var start := seed + seqNo * 10007;
    var b, p := Built(seqNo, batchTotal, LcgPayload(start, n)), LcgPayload(start, n);
    BuiltPayload(seqNo, batchTotal, p);
    PayloadBytes(start, n);
    assert forall i :: 20 <= i < |b| ==> b[i] == b[HEADER_SIZE..][i - 20];
  }

  lemma FirstState(start: int)
    ensures LcgState(start, 0) == start
  {
  }

  // ----- the period of the payload bytes -----

  /** 1 + 109 + ... + 109^(j-1), as a recursion from the front. */
  function Sum109(j: nat): nat {
    if j == 0 then 0 else 109 * Sum109(j - 1) + 1
  }

  /** The byte iterate without truncation. */
  function Bytes109(x: int, k: nat): int {
    if k == 0 then x else 109 * Bytes109(x, k - 1) + 57
  }

  /** How far two iterates are apart. */
  lemma {:induction false} Apart(x: int, j: nat)
    ensures Bytes109(x, j) - x == Sum109(j) * (108 * x + 57)
  {
    if j > 0 {
      Apart(x, j - 1);
      Distribute(Sum109(j - 1), 108 * x + 57);
    }
  }

  lemma Distribute(s: int, w: int)
    ensures (109 * s + 1) * w == 109 * (s * w) + w
  {
  }

  /** The sum of twice as many powers. */
  lemma {:induction false} SumOfSums(i: nat, j: nat)
    ensures Sum109(i + j) == Sum109(i) + Sum109(j) * (1 + 108 * Sum109(i))
  {
    if j > 0 {
      SumOfSums(i, j - 1);
      var w := 1 + 108 * Sum109(i);
      Distribute(Sum109(j - 1), w);
    }
  }

  lemma {:induction false} SumParity(j: nat)
    ensures Sum109(j) % 2 == j % 2
  {
    if j > 0 {
      SumParity(j - 1);
      NextParity(Sum109(j - 1));
    }
  }

  lemma NextParity(s: nat)
    ensures (109 * s + 1) % 2 == 1 - s % 2
  {
    Remainder(s + 1, 54 * s, 2);
  }

  function Pow2(m: nat): nat {
    if m == 0 then 1 else 2 * Pow2(m - 1)
  }

  /** An odd factor does not help a power of two to divide. */
  lemma {:induction false} OddCancels(a: int, u: int, m: nat, q: int) returns (r: int)
    requires a * (2 * u + 1) == q * Pow2(m)
    ensures a == r * Pow2(m)
    decreases m
  {
    if m == 0 {
      r := a;
    } else {
      assert q * Pow2(m) == 2 * (q * Pow2(m - 1));
      assert a == 2 * (q * Pow2(m - 1) - a * u);
      var b := q * Pow2(m - 1) - a * u;
      assert (2 * b) * (2 * u + 1) == 2 * (b * (2 * u + 1));
      r := OddCancels(b, u, m - 1, q);
      assert 2 * (r * Pow2(m - 1)) == r * Pow2(m);
    }
  }

  /** A power of two divides the sum of j powers only if it divides j. */
  lemma {:induction false} SumDivides(j: nat, m: nat, q: int) returns (r: int)
    requires Sum109(j) == q * Pow2(m)
    ensures j == r * Pow2(m)
    decreases m
  {
    if m == 0 {
      r := j;
    } else {
      var i := j / 2;
      HalfSum(j, Pow2(m - 1), q);
      var t := OddCancels(Sum109(i), 27 * Sum109(i), m - 1, q);
      r := SumDivides(i, m - 1, t);
      Twice(i, r, Pow2(m - 1));
    }
  }

  /** An even sum has an even number of powers, and is twice an odd multiple of the sum of half of them. */
  lemma HalfSum(j: nat, p: int, q: int)
    requires Sum109(j) == q * (2 * p)
    ensures j % 2 == 0 && var s := Sum109(j / 2); s * (2 * (27 * s) + 1) == q * p
  {
    hide Sum109;
    var i, s := j / 2, Sum109(j / 2);
    EvenProduct(q, p);
    SumParity(j);
    SumOfSums(i, i);
    Doubled(s);
    Twice(s * (2 * (27 * s) + 1), q, p);
  }

  lemma EvenProduct(q: int, p: int)
    ensures (q * (2 * p)) % 2 == 0
  {
    assert q * (2 * p) == 2 * (q * p);
  }

  lemma Twice(x: int, q: int, p: int)
    ensures 2 * x == q * (2 * p) <==> x == q * p
  {
    assert q * (2 * p) == 2 * (q * p);
  }

  lemma Doubled(s: int)
    ensures s + s * (1 + 108 * s) == 2 * (s * (2 * (27 * s) + 1))
  {
  }

  /** A power of two that divides j divides the sum of j powers. */
  lemma {:induction false} SumDivisible(j: nat, m: nat, r: int) returns (q: int)
    requires j == r * Pow2(m)
    ensures Sum109(j) == q * Pow2(m)
    decreases m
  {
    if m == 0 {
      q := Sum109(j);
    } else {
      assert r * Pow2(m) == 2 * (r * Pow2(m - 1));
      var i := j / 2;
      var t := SumDivisible(i, m - 1, r);
      SumOfSums(i, i);
      var s := Sum109(i);
      Doubled(s);
      q := t * (2 * (27 * s) + 1);
      Regroup(t, Pow2(m - 1), 2 * (27 * s) + 1);
    }
  }

  lemma Regroup(t: int, p: int, o: int)
    ensures 2 * ((t * p) * o) == (t * o) * (2 * p)
  {
    assert (t * p) * o == (t * o) * p;
  }

  lemma {:induction false} PayloadIterates(start: int, n: nat, i: nat, k: nat)
    requires i + k < n
    ensures LcgPayload(start, n)[i + k] == Bytes109(LcgPayload(start, n)[i], k) % 256
  {
    hide LcgPayload, NextByte;
    if k > 0 {
      var p := LcgPayload(start, n);
      PayloadIterates(start, n, i, k - 1);
      PayloadBytes(start, n);
      assert p[i + k] == NextByte(p[i + k - 1]);
      LowByteOnly(Bytes109(p[i], k - 1));
      NextIterate(p[i], k);
    }
  }

  lemma NextIterate(x: int, k: nat)
    requires k > 0
    ensures NextByte(Bytes109(x, k - 1)) == Bytes109(x, k) % 256
  {
  }

  /**
   * The payload repeats with period 256 and no sooner: two bytes are equal exactly if their distance is a
   * multiple of 256, so that any 256 consecutive bytes are all different.
   */
  lemma PayloadPeriod(start: int, n: nat, i: nat, j: nat)
    requires i <= j < n
    ensures LcgPayload(start, n)[i] == LcgPayload(start, n)[j] <==> (j - i) % 256 == 0
  {
    hide LcgPayload, Bytes109;
    var x, k := LcgPayload(start, n)[i], j - i;
    PayloadIterates(start, n, i, k);
    if k % 256 == 0 {
      Repeats(x, k);
    } else if Bytes109(x, k) % 256 == x {
      RepeatsOnly(x, k);
    }
  }

  lemma Repeats(x: byte, k: nat)
    requires k % 256 == 0
    ensures Bytes109(x, k) % 256 == x
  {
    hide Bytes109, Sum109;
    PowerEight();
    Apart(x, k);
    var q := SumDivisible(k, 8, k / 256);
    var odd := 108 * x + 57;
    assert (q * 256) * odd == (q * odd) * 256;
    Remainder(x, q * odd, 256);
  }

  lemma RepeatsOnly(x: byte, k: nat)
    requires Bytes109(x, k) % 256 == x
    ensures k % 256 == 0
  {
    hide Bytes109, Sum109;
    PowerEight();
    Apart(x, k);
    var q := Bytes109(x, k) / 256;
    assert 108 * x + 57 == 2 * (54 * x + 28) + 1;
    var r := OddCancels(Sum109(k), 54 * x + 28, 8, q);
    var t := SumDivides(k, 8, r);
  }

  lemma PowerEight()
    ensures Pow2(8) == 256
  {
  }
}
