/** Non-linear arithmetic, isolated from the proofs that use it. */
module Arith {
  lemma MulMonotone(x: int, y: int, e: nat)
    ensures x <= y ==> x * e <= y * e
  {
    if x <= y {
      assert y * e - x * e == (y - x) * e;
    }
  }

  /** Quotient and remainder are determined by their equation. */
  lemma DivModUnique(x: int, n: nat, q: int, r: nat)
    requires r < n && x == q * n + r
    ensures x / n == q && x % n == r
  {
    var d := q - x / n;
    assert x == (x / n) * n + x % n;
    assert d * n == q * n - (x / n) * n;
    MulMonotone(1, d, n);
    MulMonotone(d, -1, n);
  }

  /** A number in two parts determines its parts. */
  lemma PairUnique(h: nat, x: nat, i: nat, y: nat, p: nat)
    requires x < p && y < p
    ensures h * p + x == i * p + y <==> h == i && x == y
  {
    if h * p + x == i * p + y {
      DivModUnique(h * p + x, p, h, x);
      DivModUnique(h * p + x, p, i, y);
    }
  }

  /** The next counter value reads the next slot, or the first one after the last. */
  lemma ModNext(c: nat, n: nat)
    requires 0 < n
    ensures (c + 1) % n == if c % n + 1 == n then 0 else c % n + 1
  {
    var q, r := c / n, c % n;
    assert c == q * n + r;
    if r + 1 == n {
      assert (q + 1) * n == q * n + n;
      DivModUnique(c + 1, n, q + 1, 0);
    } else {
      DivModUnique(c + 1, n, q, r + 1);
    }
  }

  lemma DivLowerBound(q: int, d: nat, e: nat)
    requires 0 < e && q * e <= d
    ensures q <= d / e
  {
    StepsWithin(d, e);
    MulMonotone(d / e + 1, q, e);
  }

  /** The number of steps of `e` that fit into `d`. */
  lemma StepsWithin(d: nat, e: nat)
    requires 0 < e
    ensures (d / e) * e <= d < (d / e + 1) * e
  {
    assert d == (d / e) * e + d % e;
    assert (d / e + 1) * e == (d / e) * e + e;
  }

  lemma QuotientBound(n: nat, m: nat, d: nat, e: nat)
    requires 0 < e && n * e <= d + m * e
    ensures n <= m + d / e
  {
    assert (n - m) * e == n * e - m * e;
    DivLowerBound(n - m, d, e);
  }

  /** Multiplying by an odd number keeps the parity. */
  lemma OddTimes(q: nat, n: nat)
    requires n % 2 == 1
    ensures q * n % 2 == q % 2
  {
    var h := n / 2;
    assert q * n == 2 * (q * h) + q by {
      assert n == 2 * h + 1;
    }
  }

  lemma EvenTarget(n: nat, c: nat, i: nat, q: nat)
    requires n % 2 == 1 && c % 2 == 0 && q == 2 * c + i % 2
    ensures c <= q * n + i && (q * n + i - c) % 2 == 0
  {
    var p := q * n;
    OddTimes(q, n);
    assert q <= p by {
      MulMonotone(1, n, q);
    }
    EvenDifference(p, c, i, q);
  }

  lemma EvenDifference(p: nat, c: nat, i: nat, q: nat)
    requires p % 2 == q % 2 && c % 2 == 0 && q == 2 * c + i % 2
    ensures (p + i - c) % 2 == 0
  {
  }

  /** The remainder of an even number by an even number is even. */
  lemma EvenRemainder(c: nat, n: nat)
    requires n > 0 && n % 2 == 0 && c % 2 == 0
    ensures c % n % 2 == 0
  {
    var q, h := c / n, n / 2;
    assert c == q * n + c % n;
    assert q * n == 2 * (q * h) by {
      assert n == 2 * h;
    }
  }

  /** Halving first does not change the quotient by an even number. */
  lemma DivHalf(x: nat, p: nat)
    requires 0 < p
    ensures x / (2 * p) == x / 2 / p
  {
    var h := x / 2;
    var q, r := h / p, h % p;
    assert h == q * p + r;
    assert q * (2 * p) == 2 * (q * p);
    DivModUnique(x, 2 * p, q, 2 * r + x % 2);
  }

  function Times(k: nat, e: nat): nat {
    if k == 0 then 0 else e + Times(k - 1, e)
  }

  lemma {:induction false} TimesIsProduct(k: nat, e: nat)
    ensures Times(k, e) == k * e
  {
    if k > 0 {
      TimesIsProduct(k - 1, e);
      assert k * e == (k - 1) * e + e;
    }
  }
}
