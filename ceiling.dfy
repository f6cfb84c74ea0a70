/** Integer ceiling division, used both for the number of batches and for the number of points
    the stride keeps in a batch. */
module Ceiling {

  /** ceil(n / m) for a positive divisor, computed on integers. */
  function CeilDiv(n: nat, m: nat): nat
    requires m > 0
  {
    (n + m - 1) / m
  }

  /** Multiplying by a non-negative factor keeps the order. */
  lemma {:induction false} MulMonotone(a: int, b: int, m: int)
    requires a <= b && m >= 0
    ensures a * m <= b * m
  {
    assert b * m - a * m == (b - a) * m;
  }

  /** The characterisation of the ceiling: k is below ceil(n / m) exactly when k whole
      blocks of m do not yet reach n. */
  lemma {:induction false} CeilDivSpec(n: nat, m: nat, k: nat)
    requires m > 0
    ensures k < CeilDiv(n, m) <==> k * m < n
  {
    var c := CeilDiv(n, m);
    var r := (n + m - 1) % m;
    assert c * m + r == n + m - 1 && 0 <= r < m;
    if k < c {
      MulMonotone(k + 1, c, m);
      assert (k + 1) * m == k * m + m;
    } else {
      MulMonotone(c, k, m);
    }
  }

  /** ceil(n / m) is the least count of blocks of m covering n. */
  lemma {:induction false} CeilDivIsCeiling(n: nat, m: nat)
    requires m > 0
    ensures CeilDiv(n, m) * m >= n
    ensures CeilDiv(n, m) > 0 ==> (CeilDiv(n, m) - 1) * m < n
    ensures n == 0 <==> CeilDiv(n, m) == 0
    ensures n % m == 0 ==> CeilDiv(n, m) == n / m
  {
    var c := CeilDiv(n, m);
    CeilDivSpec(n, m, c);
    if c > 0 {
      CeilDivSpec(n, m, c - 1);
    }
    CeilDivSpec(n, m, 0);
    if n % m == 0 {
      var q := n / m;
      assert q * m == n;
      CeilDivSpec(n, m, q);
      if q > 0 {
        CeilDivSpec(n, m, q - 1);
        assert (q - 1) * m == q * m - m;
      }
    }
  }

  /** A count with the two defining bounds of the ceiling is the ceiling. */
  lemma {:induction false} CeilDivUnique(n: nat, m: nat, c: nat)
    requires m > 0
    requires c * m >= n && (c > 0 ==> (c - 1) * m < n)
    ensures c == CeilDiv(n, m)
  {
    CeilDivSpec(n, m, c);
    if c > 0 {
      CeilDivSpec(n, m, c - 1);
    }
    CeilDivSpec(n, m, CeilDiv(n, m));
  }

  /** Division and remainder of an exact multiple. */
  lemma {:induction false} MultipleDivMod(c: nat, m: nat)
    requires m > 0
    ensures (c * m) / m == c && (c * m) % m == 0
  {
    var q, r := (c * m) / m, (c * m) % m;
    assert (c - q) * m == r by {
      assert q * m + r == c * m;
    }
    MultipleBeyondBlock(c - q, m);
  }

  /** A non-zero multiple of m is at least one whole block away from zero. */
  lemma {:induction false} MultipleBeyondBlock(x: int, m: nat)
    requires m > 0
    ensures x >= 1 ==> x * m >= m
    ensures x <= -1 ==> x * m <= 0 - m
  {
    assert x * m == (x - 1) * m + m;
    assert x * m == (x + 1) * m - m;
  }

  /** Going from n to n + 1 adds one block exactly when n is a multiple of m, and then the
      blocks so far cover n exactly. */
  lemma {:induction false} CeilDivStep(n: nat, m: nat)
    requires m > 0
    ensures CeilDiv(n + 1, m) == CeilDiv(n, m) + (if n % m == 0 then 1 else 0)
    ensures n % m == 0 <==> CeilDiv(n, m) * m == n
  {
    var c := CeilDiv(n, m);
    CeilDivIsCeiling(n, m);
    MultipleDivMod(c, m);
    if n % m == 0 {
      assert n == (n / m) * m;
      assert (c + 1) * m == c * m + m;
      CeilDivUnique(n + 1, m, c + 1);
    } else {
      assert c * m != n;
      CeilDivUnique(n + 1, m, c);
    }
  }
}
