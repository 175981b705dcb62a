/** How masks and shifts of numbers are quotients and remainders. */
module BitFacts {
  import opened Bits

  function Over(x: nat, n: nat): nat
    requires n > 0
  {
    x / n
  }

  lemma {:induction false} Times(p: nat, d: nat, q: nat)
    requires d < q
    ensures p * d + p <= p * q
  {
    if d + 1 < q {
      Times(p, d, q - 1);
      assert p * q == p * (q - 1) + p;
    } else {
      assert p * q == p * d + p;
    }
  }

  lemma Quotient(x: nat, p: nat, q: nat, r: nat)
    requires r < p && x == p * q + r
    ensures x / p == q
  {
    var d, e := x / p, x % p;
    assert x == p * d + e && 0 <= e < p;
    if d < q {
      Times(p, d, q);
    } else if q < d {
      Times(p, q, d);
    }
  }

  lemma Multiple(c: nat, n: nat)
    requires n > 0
    ensures Over(c * n, n) == c
  {
    Quotient(c * n, n, c, 0);
  }

  lemma Halves(x: nat, p: nat)
    requires p > 0
    ensures x / 2 / p == x / (2 * p)
  {
    var h := x / 2;
    var q, r := h / p, h % p;
    assert h == p * q + r;
    assert 2 * p * q == 2 * (p * q);
    Quotient(x, 2 * p, q, 2 * r + x % 2);
  }

  lemma {:induction false} PowSum(m: nat, n: nat)
    ensures Pow2(m + n) == Pow2(m) * Pow2(n)
  {
    if m > 0 {
      PowSum(m - 1, n);
    }
  }

  lemma Doubled(n: nat, x: nat, z: nat)
    requires n > 0
    ensures Bitwise(n, Both, x, 2 * z) == 2 * Bitwise(n - 1, Both, x / 2, z)
  {
    assert 2 * z / 2 == z && 2 * z % 2 == 0;
  }

  /** y with k zero bits added at the low end, and x with k bits removed there. */
  function Raised(k: nat, y: nat): nat {
    if k == 0 then y else 2 * Raised(k - 1, y)
  }

  function Lowered(k: nat, x: nat): nat {
    if k == 0 then x else Lowered(k - 1, x / 2)
  }

  lemma {:induction false} RaisedIs(k: nat, y: nat)
    ensures Raised(k, y) == Pow2(k) * y
  {
    if k > 0 {
      RaisedIs(k - 1, y);
      var p := Pow2(k - 1);
      assert 2 * p * y == 2 * (p * y);
    }
  }

  lemma {:induction false} LoweredIs(k: nat, x: nat)
    ensures Lowered(k, x) == x / Pow2(k)
  {
    if k > 0 {
      LoweredIs(k - 1, x / 2);
      Halves(x, Pow2(k - 1));
    }
  }

  /** A mask that ends in k zero bits keeps a multiple of 2^k. */
  lemma {:induction false} MaskHigh(n: nat, k: nat, x: nat, y: nat)
    requires k <= n
    ensures Bitwise(n, Both, x, Raised(k, y)) == Raised(k, Bitwise(n - k, Both, Lowered(k, x), y))
  {
    if k > 0 {
      MaskHigh(n - 1, k - 1, x / 2, y);
      Doubled(n, x, Raised(k - 1, y));
    }
  }

  lemma {:induction false} AllOnes(n: nat, x: nat)
    requires x < Pow2(n)
    ensures Bitwise(n, Both, x, Pow2(n) - 1) == x
  {
    if n > 0 {
      AllOnes(n - 1, x / 2);
      assert (Pow2(n) - 1) / 2 == Pow2(n - 1) - 1;
    }
  }

  lemma Distribute(p: nat, m: nat)
    ensures p * (m - 1) == p * m - p
  {
  }

  lemma BelowProduct(y: nat, p: nat, m: nat)
    requires p > 0 && y < p * m
    ensures y / p < m
  {
    var q, r := y / p, y % p;
    assert y == p * q + r;
    if m < q {
      Times(p, m, q);
    }
  }

  lemma {:induction false} MaskNone(n: nat, x: nat)
    ensures Bitwise(n, Both, x, 0) == 0
  {
    if n > 0 {
      MaskNone(n - 1, x / 2);
    }
  }

  /** A mask of k one bits keeps what lies below a multiple of 2^k. */
  lemma {:induction false} MaskLow(n: nat, k: nat, x: nat)
    requires k <= n
    ensures Bitwise(n, Both, x, Pow2(k) - 1) == x - Raised(k, Lowered(k, x))
  {
    if k == 0 {
      MaskNone(n, x);
    } else {
      MaskLow(n - 1, k - 1, x / 2);
      assert (Pow2(k) - 1) / 2 == Pow2(k - 1) - 1 && (Pow2(k) - 1) % 2 == 1;
    }
  }

  lemma {:induction false} JoinNone(n: nat, y: nat)
    requires y < Pow2(n)
    ensures Bitwise(n, Either, 0, y) == y
  {
    if n > 0 {
      JoinNone(n - 1, y / 2);
    }
  }

  /** Joining a number below 2^k with a multiple of 2^k is adding them. */
  lemma {:induction false} JoinHigh(n: nat, k: nat, x: nat, y: nat)
    requires k <= n && x < Pow2(k) && Raised(k, y) < Pow2(n)
    ensures Bitwise(n, Either, x, Raised(k, y)) == x + Raised(k, y)
  {
    if k == 0 {
      JoinNone(n, y);
    } else {
      var z := Raised(k - 1, y);
      assert 2 * z / 2 == z && 2 * z % 2 == 0;
      JoinHigh(n - 1, k - 1, x / 2, y);
    }
  }

  lemma {:induction false} MaskAtMost(n: nat, x: nat, m: nat)
    ensures Bitwise(n, Both, x, m) <= m
  {
    if n > 0 {
      MaskAtMost(n - 1, x / 2, m / 2);
    }
  }

  /** A mask and its complement share out the bits. */
  lemma {:induction false} MaskAndRest(n: nat, x: nat, m: nat)
    requires x < Pow2(n) && m < Pow2(n)
    ensures Bitwise(n, Both, x, Pow2(n) - 1 - m) + Bitwise(n, Both, x, m) == x
  {
    if n > 0 {
      MaskAndRest(n - 1, x / 2, m / 2);
      assert (Pow2(n) - 1 - m) / 2 == Pow2(n - 1) - 1 - m / 2;
      assert (Pow2(n) - 1 - m) % 2 == 1 - m % 2;
    }
  }

  lemma OverGrows(x: nat, y: nat, n: nat)
    requires n > 0 && x <= y
    ensures Over(x, n) <= Over(y, n)
  {
    var q, r := x / n, y / n;
    assert x == n * q + x % n && y == n * r + y % n;
    if r < q {
      Times(n, r, q);
    }
  }

  lemma OverBelow(x: nat, n: nat, c: nat)
    requires n > 0 && Over(x, n) < c
    ensures x < n * c
  {
    var q := x / n;
    assert x == n * q + x % n;
    Times(n, q, c);
  }
}
