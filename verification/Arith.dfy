/** Powers of two, division and finite sets: the arithmetic shared by the models. */
module Arith {

  function Pow2(k: nat): (r: nat)
    ensures r >= 1
  {
    if k == 0 then 1 else 2 * Pow2(k - 1)
  }

  lemma MulNonNeg(a: int, b: int)
    requires 0 <= a && 0 <= b
    ensures 0 <= a * b
  {}

  /** A non-zero multiple of `n` is at least `n` away from zero. */
  lemma MultipleBound(d: int, n: int)
    requires n > 0 && d != 0
    ensures d * n >= n || d * n <= -n
  {
    if d > 0 {
      MulNonNeg(d - 1, n);
      assert (d - 1) * n == d * n - n;
    } else {
      MulNonNeg(-d - 1, n);
      assert (-d - 1) * n == -(d * n) - n;
    }
  }

  lemma ModUnique(a: int, n: int, q: int, r: int)
    requires n > 0 && 0 <= r < n && a == q * n + r
    ensures a % n == r && a / n == q
  {
    var d := a / n - q;
    assert d * n == (a / n) * n - q * n;
    if d != 0 { MultipleBound(d, n); }
  }

  lemma ModAddMultiple(a: int, n: int, q: int)
    requires n > 0
    ensures (a + q * n) % n == a % n
  {
    ModUnique(a + q * n, n, a / n + q, a % n);
  }

  /** w * x reduced modulo w * m is w times (x reduced modulo m). */
  lemma ModScale(w: nat, m: nat, x: nat)
    requires w > 0 && m > 0
    ensures w * m > 0
    ensures (w * x) % (w * m) == w * (x % m)
  {
    var q, r := x / m, x % m;
    assert x == q * m + r;
    assert w * x == q * (w * m) + w * r;
    assert 0 <= w * r < w * m;
    ModUnique(w * x, w * m, q, w * r);
  }

  /** One summand may be reduced first. */
  lemma ModAddLeft(a: nat, b: nat, n: nat)
    requires n > 0
    ensures (a + b) % n == (a % n + b) % n
  {
    ModAddMultiple(a % n + b, n, a / n);
  }

  /** Both summands may be reduced first. */
  lemma ModAdd(a: nat, b: nat, n: nat)
    requires n > 0
    ensures (a + b) % n == (a % n + b % n) % n
  {
    ModAddLeft(a, b, n);
    ModAddLeft(b, a % n, n);
  }

  lemma DropEven(t: int, y: int)
    ensures (2 * t + y) % 2 == y % 2
  {}

  lemma {:induction false} Parity(x: nat, y: nat)
    ensures (x * y) % 2 == (if x % 2 == 1 then y % 2 else 0)
  {
    if x >= 2 {
      Parity(x - 2, y);
      var t := (x - 2) * y;
      assert x * y == 2 * y + t;
      DropEven(y, t);
    }
  }

  lemma MulDouble(q: int, p: int)
    ensures q * (2 * p) == 2 * (q * p)
  {}

  /** Halving an equation x * y == q * 2p with x odd: the factor y is even. */
  lemma HalveProduct(x: nat, y: nat, q: int, p: int) returns (z: nat)
    requires x % 2 == 1
    requires x * y == q * (2 * p)
    ensures y == 2 * z && x * z == q * p
  {
    MulDouble(q, p);
    Parity(x, y);
    z := y / 2;
    MulDouble(x, z);
  }

  /** An odd factor can be dropped from a product divisible by a power of two. */
  lemma {:induction false} OddFactor(m: nat, x: nat, y: nat, q: int) returns (c: int)
    requires x % 2 == 1
    requires x * y == q * Pow2(m)
    ensures y == c * Pow2(m)
  {
    if m == 0 {
      c := y;
    } else {
      var z := HalveProduct(x, y, q, Pow2(m - 1));
      c := OddFactor(m - 1, x, z, q);
      MulDouble(c, Pow2(m - 1));
    }
  }

  /** A product of two factors of opposite parity, both in (0, 2^m), is no multiple of 2^m. */
  lemma OppositeParityProduct(m: nat, x: nat, y: nat, q: int)
    requires 0 < x < Pow2(m) && 0 < y < Pow2(m)
    requires x % 2 != y % 2
    ensures x * y != q * Pow2(m)
  {
    if x * y == q * Pow2(m) {
      var c: int;
      if x % 2 == 1 {
        c := OddFactor(m, x, y, q);
      } else {
        c := OddFactor(m, y, x, q);
      }
      MultipleBound(c, Pow2(m));
    }
  }

  lemma CongruentDifference(x: nat, y: nat, p: nat) returns (q: int)
    requires p > 0 && x % p == y % p
    ensures y - x == q * p
  {
    q := y / p - x / p;
    assert q * p == (y / p) * p - (x / p) * p;
  }

  ghost function Below(n: nat): (s: set<nat>)
    ensures |s| == n && forall x: nat :: x in s <==> x < n
  {
    if n == 0 then {} else Below(n - 1) + {n - 1}
  }

  lemma SubsetSameSize(a: set<nat>, b: set<nat>)
    requires a <= b && |a| == |b|
    ensures a == b
  {
    assert b == a + (b - a);
    assert |b| == |a| + |b - a|;
  }

  lemma DivIff(d: nat, w: nat, g: nat)
    requires w > 0
    ensures d / w == g <==> w * g <= d < w * g + w
  {
    assert w * g == g * w;
    if w * g <= d < w * g + w {
      ModUnique(d, w, g, d - g * w);
    }
  }

  lemma MulMonotone(x: int, y: int, a: int)
    requires x <= y && 0 <= a
    ensures x * a <= y * a
  {
    MulNonNeg(y - x, a);
  }

  lemma DivLess(n: nat, a: nat, b: nat)
    requires a > 0 && n < a * b
    ensures n / a < b
  {
    if n / a >= b {
      MulMonotone(b, n / a, a);
    }
  }
}
