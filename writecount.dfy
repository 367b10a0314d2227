/** How many step events merge sort emits: one per element written by every
    merge of the recursion, which depends on the length of the range only. */
module WriteCount {

  /** Events of a merge sort of a range of n elements: a range of at most one
      element emits none; otherwise both halves (the left one takes the extra
      element) and then one write per element of the merged range. */
  function MergeSortWrites(n: nat): nat
    decreases n
  {
    if n <= 1 then 0 else MergeSortWrites((n + 1) / 2) + MergeSortWrites(n / 2) + n
  }

  /** One level of the recursion, with the two half lengths named: the left
      one equals the right one or exceeds it by one. */
  lemma MergeSortWritesSplit(n: nat, c: nat, f: nat)
    requires n >= 2 && c + f == n && f <= c <= f + 1
    ensures MergeSortWrites(n) == MergeSortWrites(c) + MergeSortWrites(f) + n
  {
    assert (n + 1) / 2 == c && n / 2 == f;
  }

  /** The ceiling of the binary logarithm, with CeilLog2(0) == CeilLog2(1) == 0. */
  function CeilLog2(n: nat): nat
    decreases n
  {
    if n <= 1 then 0 else 1 + CeilLog2((n + 1) / 2)
  }

  function Pow2(k: nat): (p: nat)
    ensures p >= 1
  {
    if k == 0 then 1 else 2 * Pow2(k - 1)
  }

  lemma {:induction false} CeilLog2Monotone(m: nat, n: nat)
    requires m <= n
    ensures CeilLog2(m) <= CeilLog2(n)
    decreases n
  {
    if m > 1 {
      CeilLog2Monotone((m + 1) / 2, (n + 1) / 2);
    }
  }

  /** CeilLog2 is the exact logarithm on powers of two. */
  lemma {:induction false} CeilLog2OfPow2(k: nat)
    ensures CeilLog2(Pow2(k)) == k
  {
    if k > 0 {
      CeilLog2OfPow2(k - 1);
      assert (Pow2(k) + 1) / 2 == Pow2(k - 1);
    }
  }

  lemma MulLeftMonotone(a: nat, x: nat, y: nat)
    requires x <= y
    ensures a * x <= a * y
  {}

  lemma Distribute(x: nat, y: nat, k: nat)
    ensures x * k + y * k == (x + y) * k
    ensures x * (k + 1) == x * k + x
  {}

  /** The arithmetic of one level of the bound: halves within their bounds
      and n more writes stay within n * (k + 1). */
  lemma BoundStep(n: nat, c: nat, f: nat, k: nat, wc: nat, wf: nat, lf: nat)
    requires c + f == n && wc <= c * k && wf <= f * lf && lf <= k
    ensures wc + wf + n <= n * (k + 1)
  {
    MulLeftMonotone(f, lf, k);
    Distribute(c, f, k);
    Distribute(n, 0, k);
  }

  /** Merge sort of n elements writes at most n * ceil(log2 n) times. */
  lemma {:induction false} MergeSortWritesBound(n: nat)
    ensures MergeSortWrites(n) <= n * CeilLog2(n)
    decreases n
  {
    if n > 1 {
      var c, f := (n + 1) / 2, n / 2;
      var k := CeilLog2(c);
      MergeSortWritesBound(c);
      MergeSortWritesBound(f);
      CeilLog2Monotone(f, c);
      MergeSortWritesSplit(n, c, f);
      BoundStep(n, c, f, k, MergeSortWrites(c), MergeSortWrites(f), CeilLog2(f));
      assert CeilLog2(n) == k + 1;
    }
  }

  /** On a power of two the bound is reached exactly: 2^k * k writes. */
  lemma {:induction false} MergeSortWritesPow2(k: nat)
    ensures MergeSortWrites(Pow2(k)) == Pow2(k) * k
  {
    if k > 0 {
      var h := Pow2(k - 1);
      MergeSortWritesPow2(k - 1);
      assert (Pow2(k) + 1) / 2 == h && Pow2(k) / 2 == h;
      assert MergeSortWrites(Pow2(k)) == h * (k - 1) + h * (k - 1) + 2 * h;
      Distribute(h, h, k - 1);
      Distribute(2 * h, 0, k - 1);
    }
  }

  /** The program sorts ARRAY_SIZE = 100 elements: 672 writes, below 100 * 7. */
  lemma WritesForHundred()
    ensures MergeSortWrites(100) == 672
    ensures CeilLog2(100) == 7
  {
    assert MergeSortWrites(2) == 2;
    assert MergeSortWrites(3) == 5;
    assert MergeSortWrites(4) == 8;
    assert MergeSortWrites(6) == 16;
    assert MergeSortWrites(7) == 20;
    assert MergeSortWrites(12) == 44;
    assert MergeSortWrites(13) == 49;
    assert MergeSortWrites(25) == 118;
    assert MergeSortWrites(50) == 286;
    assert CeilLog2(4) == 2;
    assert CeilLog2(13) == 4;
    assert CeilLog2(50) == 6;
  }
}
