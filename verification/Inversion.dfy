/** The two modular inversions: binary extended Euclid on words, and classical extended Euclid. */
module Inversion {
  import opened Arithmetic
  import opened Reduction
  import opened EuclidSteps

  // What the coefficient b carried beside u stands for: b base = u r2 modulo p.
  ghost predicate Tracks(u: int, b: int, base: int, r2: int, p: int) {
    p > 0 && 0 <= b < p && Cong(b * base, u * r2, p)
  }

  lemma HalfOfModulus(p: int)
    requires p > 1 && p % 2 == 1
    ensures Cong(2 * ((p + 1) / 2), 1, p)
  {
    assert 2 * ((p + 1) / 2) == 1 + p * 1;
    ModShift(1, 1, p);
  }

  lemma TwiceHalf(b: int, half: int, k: int, base: int, p: int)
    requires 2 * half == b + p * k
    ensures half * base * 2 == b * base + p * (k * base)
  {
    assert half * base * 2 == (2 * half) * base == (b + p * k) * base == b * base + p * k * base;
    assert p * k * base == p * (k * base);
  }

  lemma HalfCong(b: int, half: int, k: int, base: int, w: int, p: int)
    requires p > 1 && p % 2 == 1 && 2 * half == b + p * k && Cong(b * base, w * 2, p)
    ensures Cong(half * base, w, p)
  {
    TwiceHalf(b, half, k, base, p);
    ModShift(b * base, k * base, p);
    HalfOfModulus(p);
    CongCancel(half * base, w, 2, (p + 1) / 2, p);
  }

  lemma HalvingKeeps(u: int, b: int, base: int, r2: int, p: int, r: int)
    requires p > 1 && p % 2 == 1 && 2 * p < r && u % 2 == 0 && Tracks(u, b, base, r2, p)
    ensures Tracks(u / 2, Halved(b, p, r), base, r2, p)
  {
    DivModUnique(b + p, r, 0, b + p);
    assert (u / 2 * r2) * 2 == u * r2;
    HalfCong(b, Halved(b, p, r), if b % 2 == 0 then 0 else 1, base, u / 2 * r2, p);
  }

  lemma DifferenceCong(b: int, c: int, d: int, k: int, base: int, w: int, z: int, p: int)
    requires p > 1 && d == b - c + p * k && Cong(b * base, w, p) && Cong(c * base, z, p)
    ensures Cong(d * base, w - z, p)
  {
    CongAdd(b * base, w, c * base, z, p);
    assert d * base == b * base - c * base + p * (k * base);
    ModShift(b * base - c * base, k * base, p);
  }

  lemma SubtractionKeeps(u: int, v: int, b: int, c: int, base: int, r2: int, p: int, r: int)
    requires p > 1 && 2 * p < r && Tracks(u, b, base, r2, p) && Tracks(v, c, base, r2, p)
    ensures Tracks(u - v, Reduced(b, c, p, r), base, r2, p)
  {
    DivModUnique(b + p, r, 0, b + p);
    var k := if b < c then 1 else 0;
    DivModUnique(b + p * k - c, r, 0, b + p * k - c);
    DifferenceCong(b, c, Reduced(b, c, p, r), k, base, u * r2, v * r2, p);
    assert (u - v) * r2 == u * r2 - v * r2;
  }

  // What the registers satisfy at every step of a run on coprime arguments
  ghost predicate Good(s: Registers, base: int, modulus: int, r2: int, r: int) {
    && Shape(s) && Coprime(s.u, s.v) && s.u < r && s.v < r
    && Tracks(s.u, s.b, base, r2, modulus) && Tracks(s.v, s.c, base, r2, modulus)
    && (s.at == HalveU || s.at == HalveV || s.at == Subtract ==> s.u > 0 && s.v > 0)
  }

  lemma GoodStep(s: Registers, base: int, modulus: int, r2: int, r: int)
    requires modulus > 1 && modulus % 2 == 1 && 2 * modulus < r && Good(s, base, modulus, r2, r)
    ensures Good(Step(s, modulus, r), base, modulus, r2, r)
  {
    StepKeeps(s, modulus, r);
    match s.at
    case Head =>
      if s.u == 0 { ZeroCoprime(s.u, s.v); }
      if s.v == 0 { ZeroCoprime(s.v, s.u); }
    case HalveU => if s.u % 2 == 0 { HalvingKeeps(s.u, s.b, base, r2, modulus, r); }
    case HalveV => if s.v % 2 == 0 { HalvingKeeps(s.v, s.c, base, r2, modulus, r); }
    case Subtract =>
      SubtractionKeeps(s.u, s.v, s.b, s.c, base, r2, modulus, r);
      SubtractionKeeps(s.v, s.u, s.c, s.b, base, r2, modulus, r);
    case Done =>
  }

  lemma GoodStart(base: int, modulus: int, r2: int, r: int)
    requires modulus > 1 && modulus % 2 == 1 && 2 * modulus < r
    requires 0 < base < modulus && Coprime(base, modulus) && 0 <= r2 < modulus
    ensures Good(Start(base, modulus, r2), base, modulus, r2, r)
  {
    ModShift(0, r2, modulus);
    assert r2 * base == base * r2;
  }

  lemma {:induction false} RunIsGood(n: nat, base: int, modulus: int, r2: int, r: int)
    requires modulus > 1 && modulus % 2 == 1 && 2 * modulus < r
    requires 0 < base < modulus && Coprime(base, modulus) && 0 <= r2 < modulus
    ensures Good(After(n, Start(base, modulus, r2), modulus, r), base, modulus, r2, r)
  {
    if n == 0 {
      GoodStart(base, modulus, r2, r);
    } else {
      RunIsGood(n - 1, base, modulus, r2, r);
      GoodStep(After(n - 1, Start(base, modulus, r2), modulus, r), base, modulus, r2, r);
    }
  }

  // What the program needs to know of its registers on the way, and at the end
  lemma RunFacts(n: nat, at: Place, u: int, v: int, b: int, c: int, base: int, modulus: int, r2: int, r: int)
    requires modulus > 1 && modulus % 2 == 1 && 2 * modulus < r
    requires 0 < base < modulus && Coprime(base, modulus) && 0 <= r2 < modulus
    requires After(n, Start(base, modulus, r2), modulus, r) == Registers(at, u, v, b, c)
    ensures 0 <= u < r && 0 <= v < r && (at == HalveU || at == HalveV || at == Subtract ==> u > 0 && v > 0)
    ensures v <= u ==> SubW(u, v, r) == u - v
    ensures u <= v ==> SubW(v, u, r) == v - u
    ensures u == 1 ==> 0 <= b < modulus && Cong(b * base, r2, modulus)
    ensures v == 1 ==> 0 <= c < modulus && Cong(c * base, r2, modulus)
  {
    RunIsGood(n, base, modulus, r2, r);
    if v <= u { DivModUnique(u - v, r, 0, u - v); }
    if u <= v { DivModUnique(v - u, r, 0, v - u); }
  }

  /** Binary extended Euclid terminates on words without overflow and returns r2 / base modulo the odd modulus. It takes
      the steps of EuclidSteps. */
  method BinaryExtendedEuclideanAlgorithm(base: int, modulus: int, r2: int, r: int) returns (inv: int)
    requires modulus > 1 && modulus % 2 == 1 && 2 * modulus < r
    requires 0 < base < modulus && Coprime(base, modulus) && 0 <= r2 < modulus
    ensures 0 <= inv < modulus && Cong(inv * base, r2, modulus)
    ensures exists n: nat :: Returns(n, inv, base, modulus, r2, r)
  {
    var u, v, b, c := base, modulus, r2, 0;
    ghost var n: nat, start := 0, Start(base, modulus, r2);
    while u != 1 && v != 1
      invariant After(n, start, modulus, r) == Registers(Head, u, v, b, c)
      invariant u >= 0 && v >= 0
      decreases u + v
    {
      n := n + 1;
      ghost var u0, v0 := u, v;
      RunFacts(n, HalveU, u, v, b, c, base, modulus, r2, r);
      while u % 2 == 0
        invariant After(n, start, modulus, r) == Registers(HalveU, u, v, b, c) && 0 < u <= u0
        decreases u
      {
        n := n + 1;
        u := u / 2;
        b := if b % 2 == 0 then b / 2 else AddW(b, modulus, r) / 2;
      }
      n := n + 1;
      while v % 2 == 0
        invariant After(n, start, modulus, r) == Registers(HalveV, u, v, b, c) && 0 < v <= v0
        decreases v
      {
        n := n + 1;
        v := v / 2;
        c := if c % 2 == 0 then c / 2 else AddW(c, modulus, r) / 2;
      }
      n := n + 1;
      RunFacts(n, Subtract, u, v, b, c, base, modulus, r2, r);
      if v <= u {
        u := SubW(u, v, r);
        if b < c { b := AddW(b, modulus, r); }
        b := SubW(b, c, r);
      } else {
        v := SubW(v, u, r);
        if c < b { c := AddW(c, modulus, r); }
        c := SubW(c, b, r);
      }
      n := n + 1;
    }
    RunFacts(n, Head, u, v, b, c, base, modulus, r2, r);
    inv := if u == 1 then b else c;
    assert Returns(n + 1, inv, base, modulus, r2, r);
  }

  lemma QuotientStep(lm: int, low: int, hm: int, high: int, q: int, a: int, p: int)
    requires p > 0 && Cong(lm * a, low, p) && Cong(hm * a, high, p)
    ensures Cong((hm - lm * q) * a, high - low * q, p)
  {
    CongMul(lm * a, low, q, q, p);
    CongAdd(hm * a, high, lm * a * q, low * q, p);
    assert (hm - lm * q) * a == hm * a - lm * a * q;
  }

  lemma CombinationStep(low: int, high: int, q: int, x: int, y: int)
    ensures Combination(high - low * q, low, y, x + y * q) == Combination(low, high, x, y)
  {
    assert y * (high - low * q) + (x + y * q) * low == x * low + y * high;
  }

  lemma NoUnitCombination(m: int, x: int, y: int)
    requires m > 1
    ensures Combination(0, m, x, y) != 1
  {
    MulGap(m, y);
  }

  // One turn of the loop: the new remainder, its multiplier, and the combination that gives 1
  lemma EuclidTurn(lm: int, low: int, hm: int, high: int, a: int, p: int, x: int, y: int)
    requires p > 0 && 0 < low && Cong(lm * a, low, p) && Cong(hm * a, high, p)
    ensures var q := high / low;
            && 0 <= high - low * q < low && Cong((hm - lm * q) * a, high - low * q, p)
            && Combination(high - low * q, low, y, x + y * q) == Combination(low, high, x, y)
  {
    var q := high / low;
    QuotientStep(lm, low, hm, high, q, a, p);
    CombinationStep(low, high, q, x, y);
    assert high - low * q == high % low;
  }

  /** Classical extended Euclid returns the reduced inverse of every a coprime to the modulus, and 0 for 0. */
  method PrimeFieldInv(a: int, modulus: int) returns (inv: int)
    requires modulus > 1
    ensures 0 <= inv < modulus
    ensures a == 0 ==> inv == 0
    ensures Coprime(a % modulus, modulus) ==> Cong(inv * a, 1, modulus)
  {
    if a == 0 {
      NothingCoprime(modulus);
      return 0;
    }
    var lm, hm := 1, 0;
    var low, high := a % modulus, modulus;
    ghost var coprime := Coprime(low, high);
    ghost var x, y :| coprime ==> Combination(low, high, x, y) == 1;
    ModReduce(a, 0, modulus);
    ModShift(0, 1, modulus);
    while low > 1
      invariant 0 <= low < high && 1 < high && (coprime ==> Combination(low, high, x, y) == 1)
      invariant Cong(lm * a, low, modulus) && Cong(hm * a, high, modulus)
      decreases low
    {
      var q := high / low;
      EuclidTurn(lm, low, hm, high, a, modulus, x, y);
      x, y := y, x + y * q;
      var nm, rest := hm - lm * q, high - low * q;
      lm, low, hm, high := nm, rest, lm, low;
    }
    if coprime && low == 0 { NoUnitCombination(high, x, y); }
    inv := lm % modulus;
    ModMul(lm, a, modulus);
  }

  lemma NothingCoprime(m: int)
    requires m > 1
    ensures !Coprime(0, m) && 0 % m == 0
  {
    ModShift(0, 0, m);
    forall x: int, y: int ensures Combination(0, m, x, y) != 1 { NoUnitCombination(m, x, y); }
  }
}
