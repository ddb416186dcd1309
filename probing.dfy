/**
 * Quadratic probing over a power-of-two table, as SmallPtrSetImplBase does it:
 * the probe starts at `hash & (N-1)` and the k-th reprobe adds k
 * (`BucketNo += ProbeAmt++`), so step k lands on `(hash + 1 + 2 + ... + k) mod N`.
 * The masks `& (N-1)` are written `% N`, which agrees with them for a power of two N.
 *
 * The main results: the first N steps visit N distinct buckets (ProbeDistinct),
 * hence every bucket (ProbeCovers), hence a probe that only stops at an Empty
 * bucket stops within N steps when one exists.
 */
module Probing {

  /** n is one of 1, 2, 4, 8, ... */
  predicate IsPow2(n: nat)
    decreases n
  {
    if n <= 1 then n == 1 else n % 2 == 0 && IsPow2(n / 2)
  }

  /** 2^e */
  function Pow2(e: nat): (r: nat)
    ensures r >= 1 && IsPow2(r)
  {
    if e == 0 then 1 else 2 * Pow2(e - 1)
  }

  lemma DoubleIsPow2(n: nat)
    requires IsPow2(n)
    ensures IsPow2(2 * n)
  {
  }

  /** 32 and 128, the table sizes SmallPtrSet.cpp installs, and the smallest big table the model admits, 16, are powers of two. */
  lemma TableSizesArePow2()
    ensures IsPow2(16) && IsPow2(32) && IsPow2(128)
  {
    assert Pow2(4) == 16;
    assert Pow2(5) == 32;
    assert Pow2(7) == 128;
  }

  /** The k-th triangular number 0 + 1 + ... + k: the distance travelled after k reprobes. */
  function Tri(k: nat): nat
  {
    if k == 0 then 0 else Tri(k - 1) + k
  }

  lemma {:induction false} TriClosedForm(k: nat)
    ensures 2 * Tri(k) == k * (k + 1)
  {
    if k > 0 {
      TriClosedForm(k - 1);
      assert 2 * Tri(k) == (k - 1) * k + 2 * k;
    }
  }

  /** The bucket examined at probe step k for hash value h in a table of n buckets. */
  function Probe(h: nat, k: nat, n: nat): (b: nat)
    requires n > 0
    ensures b < n
  {
    (h + Tri(k)) % n
  }

  lemma {:induction false} MulAtLeast(d: nat, n: nat)
    requires d >= 1
    ensures d * n >= n
  {
    if d > 1 {
      MulAtLeast(d - 1, n);
      assert d * n == (d - 1) * n + n;
    }
  }

  /** Quotient and remainder are unique. */
  lemma ModUnique(x: int, n: int, q: int, r: int)
    requires n > 0 && 0 <= r < n && x == q * n + r
    ensures x % n == r && x / n == q
  {
    var q', r' := x / n, x % n;
    assert x == q' * n + r';
    assert (q - q') * n == q * n - q' * n;
    assert (q' - q) * n == q' * n - q * n;
    if q > q' {
      MulAtLeast(q - q', n);
    } else if q < q' {
      MulAtLeast(q' - q, n);
    }
  }

  /** Two numbers with the same residue differ by a multiple of n. */
  lemma SameResidue(x: nat, y: nat, n: nat) returns (q: nat)
    requires n > 0 && x <= y && x % n == y % n
    ensures y - x == q * n && 2 * (y - x) == q * (2 * n)
  {
    var qx, qy := x / n, y / n;
    assert x == qx * n + x % n && y == qy * n + y % n;
    assert (qy - qx) * n == qy * n - qx * n;
    assert (qx - qy) * n == qx * n - qy * n;
    if qy < qx {
      MulAtLeast(qx - qy, n);
    }
    q := qy - qx;
  }

  lemma ModAddLeft(a: nat, b: nat, n: nat)
    requires n > 0
    ensures (a % n + b) % n == (a + b) % n
  {
    var s := a % n + b;
    ModUnique(a + b, n, a / n + s / n, s % n);
  }

  /** One iteration of the probe loop moves from step k to step k + 1. */
  lemma ProbeNext(h: nat, k: nat, n: nat)
    requires n > 0
    ensures Probe(h, 0, n) == h % n
    ensures (Probe(h, k, n) + (k + 1)) % n == Probe(h, k + 1, n)
  {
    ModAddLeft(h + Tri(k), k + 1, n);
  }

  lemma OddTimesOdd(a: nat, b: nat)
    requires a % 2 == 1 && b % 2 == 1
    ensures (a * b) % 2 == 1
  {
    var x, y := a / 2, b / 2;
    assert a == 2 * x + 1 && b == 2 * y + 1;
    assert a * b == 2 * (2 * x * y + x + y) + 1;
    ModUnique(a * b, 2, 2 * x * y + x + y, 1);
  }

  /** A power of two that divides a * b with a odd divides b. */
  lemma {:induction false} OddFactor(m: nat, a: nat, b: nat, q: nat)
    requires IsPow2(m) && a % 2 == 1 && a * b == q * m
    ensures b % m == 0
    decreases m
  {
    if m == 1 {
      ModUnique(b, 1, b, 0);
    } else {
      var m2 := m / 2;
      assert m == 2 * m2;
      assert a * b == 2 * (q * m2);
      ModUnique(a * b, 2, q * m2, 0);
      if b % 2 == 1 {
        OddTimesOdd(a, b);
        assert false;
      }
      var b2 := b / 2;
      assert b == 2 * b2;
      assert 2 * (a * b2) == 2 * (q * m2);
      OddFactor(m2, a, b2, q);
      var c := b2 / m2;
      assert b2 == c * m2;
      ModUnique(b, m, c, 0);
    }
  }

  /** A multiple of m strictly between 0 and m does not exist. */
  lemma NoSmallMultiple(x: nat, m: nat)
    requires 0 < x < m
    ensures x % m != 0
  {
    ModUnique(x, m, 0, x);
  }

  lemma TriDifference(i: nat, j: nat)
    requires i <= j
    ensures 2 * (Tri(j) - Tri(i)) == (j - i) * (j + i + 1)
  {
    TriClosedForm(i);
    TriClosedForm(j);
    assert (j - i) * (j + i + 1) == j * (j + 1) - i * (i + 1);
  }

  /** An odd number times a positive number below a power of two m is no multiple of m. */
  lemma OddTimesSmall(a: nat, b: nat, m: nat, q: nat)
    requires IsPow2(m) && a % 2 == 1 && 0 < b < m
    ensures a * b != q * m
  {
    if a * b == q * m {
      OddFactor(m, a, b, q);
      NoSmallMultiple(b, m);
    }
  }

  /**
   * The core of the distinctness argument: with 0 < a < n, 0 < b < 2n and a + b odd,
   * the product a * b is not a multiple of 2n, because the odd factor contributes no
   * power of two and the even one is too small.
   */
  lemma NoWrapProduct(a: nat, b: nat, n: nat, q: nat)
    requires IsPow2(n) && 0 < a < n && 0 < b < 2 * n && (a + b) % 2 == 1
    ensures a * b != q * (2 * n)
  {
    DoubleIsPow2(n);
    var m := 2 * n;
    if a % 2 == 1 {
      OddTimesSmall(a, b, m, q);
    } else {
      assert a == 2 * (a / 2) && a + b == 2 * ((a + b) / 2) + 1;
      ModUnique(b, 2, (a + b) / 2 - a / 2, 1);
      OddTimesSmall(b, a, m, q);
      assert b * a == a * b;
    }
  }

  /** The first n probe steps of a power-of-two table land on distinct buckets. */
  lemma ProbeDistinct(h: nat, n: nat, i: nat, j: nat)
    requires IsPow2(n) && i < j < n
    ensures Probe(h, i, n) != Probe(h, j, n)
  {
    if Probe(h, i, n) == Probe(h, j, n) {
      var x, y := h + Tri(i), h + Tri(j);
      TriGrows(i, j);
      var q := SameResidue(x, y, n);
      TriDifference(i, j);
      var a, b := j - i, j + i + 1;
      assert y - x == Tri(j) - Tri(i);
      assert a + b == 2 * j + 1;
      ModUnique(a + b, 2, j, 1);
      NoWrapProduct(a, b, n, q);
    }
  }

  lemma {:induction false} TriGrows(i: nat, j: nat)
    requires i < j
    ensures Tri(i) < Tri(j)
  {
    if j > i + 1 {
      TriGrows(i, j - 1);
    }
  }

  function Visited(h: nat, m: nat, n: nat): set<nat>
    requires n > 0
  {
    set k | 0 <= k < m :: Probe(h, k, n)
  }

  lemma {:induction false} VisitedSize(h: nat, m: nat, n: nat)
    requires IsPow2(n) && m <= n
    ensures |Visited(h, m, n)| == m
  {
    if m > 0 {
      VisitedSize(h, m - 1, n);
      assert Visited(h, m, n) == Visited(h, m - 1, n) + {Probe(h, m - 1, n)};
      if Probe(h, m - 1, n) in Visited(h, m - 1, n) {
        var k :| 0 <= k < m - 1 && Probe(h, k, n) == Probe(h, m - 1, n);
        ProbeDistinct(h, n, k, m - 1);
      }
    }
  }

  /** The set {0, ..., n - 1}. */
  function Below(n: nat): (r: set<nat>)
    ensures forall x: nat :: x in r <==> x < n
    ensures |r| == n
  {
    if n == 0 then {} else Below(n - 1) + {n - 1}
  }

  lemma SubsetSize<X>(a: set<X>, b: set<X>)
    requires a <= b
    ensures |a| <= |b|
  {
    assert b == a + (b - a);
  }

  /** Every bucket of a power-of-two table is reached within its first n probe steps. */
  lemma ProbeCovers(h: nat, n: nat, e: nat)
    requires IsPow2(n) && e < n
    ensures exists k: nat :: k < n && Probe(h, k, n) == e
  {
    VisitedSize(h, n, n);
    if e !in Visited(h, n, n) {
      var rest := Below(n) - {e};
      forall v | v in Visited(h, n, n) ensures v in rest {
        var k :| 0 <= k < n && Probe(h, k, n) == v;
      }
      assert e in Below(n);
      assert |rest| == n - 1;
      SubsetSize(Visited(h, n, n), rest);
    }
  }
}
