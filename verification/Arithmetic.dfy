/** Modular arithmetic, divisibility and primes on unbounded integers. */
module Arithmetic {

  lemma MulGap(m: int, d: int)
    requires m > 0
    ensures d >= 1 ==> m * d >= m
    ensures d <= -1 ==> m * d <= -m
  {}

  // Quotient and remainder are determined by 0 <= s < m and x == m * k + s.
  lemma DivModUnique(x: int, m: int, k: int, s: int)
    requires 0 <= s < m && x == m * k + s
    ensures x / m == k && x % m == s
  {
    assert m * (x / m - k) == s - x % m;
    MulGap(m, x / m - k);
  }

  lemma ModShift(x: int, k: int, m: int)
    requires m > 0
    ensures (x + m * k) % m == x % m && (x + m * k) / m == x / m + k
  {
    DivModUnique(x + m * k, m, x / m + k, x % m);
  }

  lemma ModReduce(a: int, b: int, m: int)
    requires m > 0
    ensures (a % m + b) % m == (a + b) % m && (b - a % m) % m == (b - a) % m
  {
    ModShift(a % m + b, a / m, m);
    ModShift(b - a % m, -(a / m), m);
  }

  lemma ModAdd(a: int, b: int, m: int)
    requires m > 0
    ensures (a % m + b % m) % m == (a + b) % m
    ensures (a % m - b % m) % m == (a - b) % m
  {
    ModReduce(a, b % m, m);
    ModReduce(b, a, m);
    ModReduce(b, a % m, m);
    ModReduce(a, -b, m);
  }

  lemma ModMul(a: int, b: int, m: int)
    requires m > 0
    ensures (a % m * b) % m == (a * b) % m && (a % m * (b % m)) % m == (a * b) % m
  {
    var q, r := a / m, a % m;
    assert a * b == r * b + m * (q * b);
    ModShift(r * b, q * b, m);
    var s, t := b / m, b % m;
    assert r * b == r * t + m * (r * s);
    ModShift(r * t, r * s, m);
  }

  lemma ProductBound(a: int, b: int, m: int, n: int)
    requires 0 <= a < m && 0 <= b < n
    ensures 0 <= a * b < m * n
  {
    assert a * b <= a * n && a * n < m * n;
  }

  lemma DivBound(x: int, m: int, n: int)
    requires m > 0 && 0 <= x < m * n
    ensures 0 <= x / m < n
  {
    assert m * (x / m - n) == m * (x / m) - m * n;
    MulGap(m, x / m - n + 1);
    MulGap(m, x / m);
  }

  /** a and b leave the same remainder. */
  ghost predicate Cong(a: int, b: int, m: int)
    requires m > 0
  {
    a % m == b % m
  }

  lemma CongMul(a: int, b: int, c: int, d: int, m: int)
    requires m > 0 && Cong(a, b, m) && Cong(c, d, m)
    ensures Cong(a * c, b * d, m)
  {
    ModMul(a, c, m);
    ModMul(b, d, m);
  }

  lemma CongAdd(a: int, b: int, c: int, d: int, m: int)
    requires m > 0 && Cong(a, b, m) && Cong(c, d, m)
    ensures Cong(a + c, b + d, m) && Cong(a - c, b - d, m)
  {
    ModAdd(a, c, m);
    ModAdd(b, d, m);
  }

  // A unit can be cancelled.
  lemma CongCancel(a: int, b: int, u: int, v: int, m: int)
    requires m > 0 && Cong(u * v, 1, m) && Cong(a * u, b * u, m)
    ensures Cong(a, b, m)
  {
    CongMul(a * u, b * u, v, v, m);
    CongMul(a, a, u * v, 1, m);
    CongMul(b, b, u * v, 1, m);
    assert (a * u) * v == a * (u * v) && (b * u) * v == b * (u * v);
  }

  // ---- divisibility ------------------------------------------------------------

  ghost function Combination(a: int, b: int, x: int, y: int): int { x * a + y * b }

  /** a and b have no common factor: some integer combination of them is 1. */
  ghost predicate Coprime(a: int, b: int) {
    exists x: int, y: int :: Combination(a, b, x, y) == 1
  }

  ghost predicate IsPrime(p: int) {
    p > 1 && forall d: int :: 1 < d < p ==> p % d != 0
  }

  lemma EuclidStep(a: int, b: int, q: int, r: int, x: int, y: int, g: int)
    requires g > 0 && a == b * q + r && b % g == 0 && r % g == 0
    ensures Combination(a, b, y, x - y * q) == Combination(b, r, x, y) && a % g == 0
  {
    assert y * (b * q + r) + (x - y * q) * b == x * b + y * r;
    ModMul(b, q, g);
    ModReduce(b * q, r, g);
  }

  // Extended Euclid: a positive combination of a and b that divides both.
  lemma {:induction false} Bezout(a: int, b: int) returns (g: int, x: int, y: int)
    requires a > 0 && b >= 0
    ensures g > 0 && Combination(a, b, x, y) == g && a % g == 0 && b % g == 0
    decreases b
  {
    if b == 0 {
      g, x, y := a, 1, 0;
      DivModUnique(a, a, 1, 0);
    } else {
      var q, r := a / b, a % b;
      var x', y';
      g, x', y' := Bezout(b, r);
      x, y := y', x' - y' * q;
      EuclidStep(a, b, q, r, x', y', g);
    }
  }

  lemma PrimeCoprime(a: int, p: int)
    requires IsPrime(p) && 0 < a < p
    ensures Coprime(a, p)
  {
    var g, x, y := Bezout(a, p);
    if g > 1 {
      DivisorBound(a, g);
    }
  }

  lemma DivisorBound(a: int, g: int)
    requires a > 0 && g > 0 && a % g == 0
    ensures g <= a
  {
    if a < g { DivModUnique(a, g, 0, a); }
  }

  ghost function TwoTo(i: nat): (t: nat)
    ensures t > 0
  {
    if i == 0 then 1 else 2 * TwoTo(i - 1)
  }
}
