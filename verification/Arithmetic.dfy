/** Division and remainder, for buffers that are shifted and masked. */
module Arithmetic {
  function Div(x: nat, d: nat): nat
    requires d > 0
  {
    x / d
  }

  function Mod(x: nat, d: nat): nat
    requires d > 0
  {
    x % d
  }

  lemma AtLeast(e: int, d: int)
    requires e >= 1 && d >= 1
    ensures e * d >= d
  {
  }

  lemma Quotient(x: int, q: int, d: int, r: int)
    requires 0 <= r < d && x == q * d + r
    ensures x / d == q && x % d == r
  {
    var a, b := x / d, x % d;
    assert x == a * d + b;
    assert (a - q) * d == a * d - q * d && (q - a) * d == q * d - a * d;
    if a > q {
      AtLeast(a - q, d);
    } else if a < q {
      AtLeast(q - a, d);
    }
  }

  lemma Smaller(a: int, b: int, d: int)
    requires 0 < d && a * d < b * d
    ensures a < b
  {
    assert (a - b) * d == a * d - b * d;
    if a > b {
      AtLeast(a - b, d);
    }
  }

  /** Pushing a digit keeps the low digits that were there above it. */
  lemma Push(t: int, v: int, base: int, m: int)
    requires 0 <= t && 0 <= v < base && 0 < m
    ensures 0 < base * m && (t * base + v) % (base * m) == t % m * base + v
  {
    var h, r := t / m, t % m;
    AtLeast(base, m);
    assert t == h * m + r;
    assert h * (base * m) == (h * m) * base;
    assert t * base == (h * m) * base + r * base;
    assert r * base + base <= m * base by {
      assert (m - r) * base == m * base - r * base;
      AtLeast(m - r, base);
    }
    Quotient(t * base + v, h, base * m, r * base + v);
  }

  /** The remainder by a divisor of the divisor. */
  lemma Trim(x: int, m: int, n: int)
    requires 0 <= x && 0 < m && 0 < n
    ensures 0 < n * m && x % (n * m) % m == x % m
  {
    AtLeast(n, m);
    var k, t := x / (n * m), x % (n * m);
    var h, r := t / m, t % m;
    assert k * (n * m) == k * n * m;
    assert (k * n + h) * m == k * n * m + h * m;
    Quotient(x, k * n + h, m, r);
  }

  /** The digits below a place, and the digit at it. */
  lemma Place(x: int, d: int, m: int)
    requires 0 <= x && 0 < d && 0 < m
    ensures 0 < d * m && x / d % m == x % (d * m) / d
  {
    AtLeast(d, m);
    var k, t := x / (d * m), x % (d * m);
    var h, r := t / d, t % d;
    assert k * (d * m) == (k * m) * d;
    assert (k * m + h) * d == (k * m) * d + h * d;
    Quotient(x, k * m + h, d, r);
    assert d * m == m * d;
    Smaller(h, m, d);
    Quotient(x / d, k, m, h);
  }

  lemma Room(t: nat, m: nat, base: nat, v: nat)
    requires t < m && v < base
    ensures t * base + v < m * base
  {
    assert (m - t) * base == m * base - t * base;
    AtLeast(m - t, base);
  }

  lemma Kept(x: nat, m: nat, base: nat)
    requires m > 0 && base > 0
    ensures 0 < m * base && x * base % (m * base) == Mod(x, m) * base
  {
    AtLeast(m, base);
    var k, t := x / m, x % m;
    assert x == k * m + t;
    assert x * base == k * (m * base) + t * base by {
      assert k * (m * base) == (k * m) * base;
      assert x * base == (k * m) * base + t * base;
    }
    Room(t, m, base, 0);
    Quotient(x * base, k, m * base, t * base);
  }

  /** Pushing a digit into a buffer that drops what overflows keeps the low digits above it. */
  lemma PushDropping(x: nat, v: nat, base: nat, m: nat, c: nat)
    requires v < base && m > 0 && c > 0
    ensures 0 < c * m && 0 < c * m * base && 0 < base * m
    ensures var next := x * base % (c * m * base) + v;
            next < c * m * base && next % (base * m) == Mod(x, m) * base + v
  {
    AtLeast(c, m);
    var t := Mod(x, c * m);
    Kept(x, c * m, base);
    Room(t, c * m, base, v);
    Push(t, v, base, m);
    Trim(x, m, c);
  }

  function Pow2(k: nat): (p: nat)
    ensures p >= 1
  {
    if k == 0 then 1 else 2 * Pow2(k - 1)
  }

  lemma {:induction false} Pow2Sum(j: nat, k: nat)
    ensures Pow2(j + k) == Pow2(j) * Pow2(k)
  {
    if k > 0 {
      Pow2Sum(j, k - 1);
    }
  }

  lemma Pow2Small()
    ensures Pow2(0) == 1 && Pow2(1) == 2 && Pow2(2) == 4 && Pow2(3) == 8 && Pow2(4) == 16 && Pow2(5) == 32
    ensures Pow2(8) == 256 && Pow2(32) == 0x1_0000_0000
  {
    assert Pow2(3) == 8 && Pow2(5) == 32;
    Pow2Sum(5, 3);
    Pow2Sum(8, 8);
    Pow2Sum(16, 16);
  }
}
