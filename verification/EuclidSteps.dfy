/** The binary extended Euclid loop one step at a time: for which arguments it ends. */
module EuclidSteps {
  import opened Arithmetic
  import opened Reduction

  /** Where the program is: at the test of the outer loop, in one of the inner loops, at the subtraction, or past the
      loop. */
  datatype Place = Head | HalveU | HalveV | Subtract | Done
  datatype Registers = Registers(at: Place, u: int, v: int, b: int, c: int)

  // One halving of a coefficient b modulo p (add p first when b is odd).
  function Halved(b: int, p: int, r: int): int
    requires r > 0
  {
    if b % 2 == 0 then b / 2 else AddW(b, p, r) / 2
  }

  // One subtraction of coefficients modulo p.
  function Reduced(b: int, c: int, p: int, r: int): int
    requires r > 0
  {
    SubW(if b < c then AddW(b, p, r) else b, c, r)
  }

  // One step on words of base r
  function Step(s: Registers, modulus: int, r: int): Registers
    requires r > 0
  {
    match s.at
    case Head => s.(at := if s.u == 1 || s.v == 1 then Done else HalveU)
    case HalveU => if s.u % 2 == 0 then s.(u := s.u / 2, b := Halved(s.b, modulus, r)) else s.(at := HalveV)
    case HalveV => if s.v % 2 == 0 then s.(v := s.v / 2, c := Halved(s.c, modulus, r)) else s.(at := Subtract)
    case Subtract =>
      if s.v <= s.u then s.(at := Head, u := s.u - s.v, b := Reduced(s.b, s.c, modulus, r))
      else s.(at := Head, v := s.v - s.u, c := Reduced(s.c, s.b, modulus, r))
    case Done => s
  }

  function Start(base: int, modulus: int, r2: int): Registers { Registers(Head, base, modulus, r2, 0) }

  function After(n: nat, s: Registers, modulus: int, r: int): Registers
    requires r > 0
  {
    if n == 0 then s else Step(After(n - 1, s, modulus, r), modulus, r)
  }

  /** After n steps the program is past the loop. */
  predicate EndsAfter(n: nat, s: Registers, modulus: int, r: int)
    requires r > 0
  {
    After(n, s, modulus, r).at == Done
  }

  /** The loop ends after n steps with the result inv. */
  predicate Returns(n: nat, inv: int, base: int, modulus: int, r2: int, r: int)
    requires r > 0
  {
    var s := After(n, Start(base, modulus, r2), modulus, r);
    s.at == Done && inv == if s.u == 1 then s.b else s.c
  }

  /** What every step keeps of u and v. */
  predicate Shape(s: Registers) {
    && s.u >= 0 && s.v >= 0 && (s.u % 2 == 1 || s.v % 2 == 1)
    && (s.at == HalveV || s.at == Subtract ==> s.u % 2 == 1)
    && (s.at == Subtract ==> s.v % 2 == 1)
    && (s.at == Done ==> s.u == 1 || s.v == 1)
  }

  lemma EvenCombination(h: int, v: int, x: int, y: int)
    requires x % 2 == 0
    ensures Combination(h, v, x, y) == Combination(2 * h, v, x / 2, y)
  {
    assert x == 2 * (x / 2);
    assert x / 2 * (2 * h) == 2 * (x / 2) * h;
  }

  lemma ShiftedCombination(h: int, v: int, x: int, y: int)
    ensures Combination(h, v, x, y) == Combination(h, v, x + v, y - h)
  {
    assert (y - h) * v == y * v - h * v && (x + v) * h == x * h + v * h;
  }

  lemma DoubledCombination(h: int, v: int, x: int, y: int)
    ensures Combination(2 * h, v, x, y) == Combination(h, v, 2 * x, y)
  {
    assert x * (2 * h) == 2 * x * h;
  }

  // Against an odd v, halving loses no common factor.
  lemma HalfKeepsCoprime(h: int, v: int)
    requires v % 2 == 1
    ensures Coprime(h, v) <==> Coprime(2 * h, v)
  {
    if x: int, y: int :| Combination(h, v, x, y) == 1 {
      if x % 2 == 0 {
        EvenCombination(h, v, x, y);
      } else {
        ShiftedCombination(h, v, x, y);
        EvenCombination(h, v, x + v, y - h);
      }
    }
    if x: int, y: int :| Combination(2 * h, v, x, y) == 1 { DoubledCombination(h, v, x, y); }
  }

  lemma HalfCoprime(h: int, v: int)
    requires v % 2 == 1
    ensures Coprime(h, v) <==> Coprime(2 * h, v)
    ensures Coprime(v, h) <==> Coprime(v, 2 * h)
  {
    CoprimeSwaps(2 * h, v); CoprimeSwaps(h, v);
    HalfKeepsCoprime(h, v);
  }

  lemma CoprimeSwaps(u: int, v: int)
    ensures Coprime(u, v) <==> Coprime(v, u)
  {
    if x: int, y: int :| Combination(u, v, x, y) == 1 { assert Combination(v, u, y, x) == 1; }
    if x: int, y: int :| Combination(v, u, x, y) == 1 { assert Combination(u, v, y, x) == 1; }
  }

  lemma DifferenceCombination(u: int, v: int, x: int, y: int)
    ensures Combination(u - v, v, x, x + y) == Combination(u, v, x, y)
  {
    assert x * (u - v) + (x + y) * v == x * u + y * v;
  }

  lemma DifferenceCoprime(u: int, v: int)
    ensures Coprime(u - v, v) <==> Coprime(u, v)
    ensures Coprime(v, u - v) <==> Coprime(v, u)
  {
    var d := u - v;
    CoprimeSwaps(u, v); CoprimeSwaps(d, v);
    if x: int, y: int :| Combination(d, v, x, y) == 1 { DifferenceCombination(u, v, x, y - x); }
    if x: int, y: int :| Combination(u, v, x, y) == 1 { DifferenceCombination(u, v, x, y); }
  }

  /** Every step keeps the shape, and keeps u and v coprime or not coprime. */
  lemma StepKeeps(s: Registers, modulus: int, r: int)
    requires r > 0 && Shape(s)
    ensures var t := Step(s, modulus, r); Shape(t) && (Coprime(t.u, t.v) <==> Coprime(s.u, s.v))
  {
    match s.at
    case HalveU => if s.u % 2 == 0 { HalfCoprime(s.u / 2, s.v); }
    case HalveV => if s.v % 2 == 0 { HalfCoprime(s.v / 2, s.u); }
    case Subtract => DifferenceCoprime(s.u, s.v); DifferenceCoprime(s.v, s.u);
    case _ =>
  }

  lemma {:induction false} AfterKeeps(n: nat, s: Registers, modulus: int, r: int)
    requires r > 0 && Shape(s)
    ensures var t := After(n, s, modulus, r); Shape(t) && (Coprime(t.u, t.v) <==> Coprime(s.u, s.v))
  {
    if n > 0 {
      AfterKeeps(n - 1, s, modulus, r);
      StepKeeps(After(n - 1, s, modulus, r), modulus, r);
    }
  }

  lemma OneIsCoprime(v: int)
    ensures Coprime(1, v) && Coprime(v, 1)
  {
    assert Combination(1, v, 1, 0) == 1 && Combination(v, 1, 0, 1) == 1;
  }

  lemma ZeroCoprime(z: int, v: int)
    requires z == 0 && v >= 0
    ensures Coprime(z, v) || Coprime(v, z) ==> v == 1
  {
    CoprimeSwaps(z, v);
    if x: int, y: int :| Combination(z, v, x, y) == 1 {
      assert v != 0;
      MulGap(v, y);
    }
  }

  lemma EqualCoprime(u: int)
    requires u >= 0
    ensures Coprime(u, u) ==> u == 1
  {
    DifferenceCoprime(u, u); ZeroCoprime(u - u, u);
  }

  function Rank(p: Place): nat { match p case Head => 4 case HalveU => 3 case HalveV => 2 case Subtract => 1
      case Done => 0 }

  /** From coprime registers the end is reached: every step lowers u + v or moves on within a turn. */
  lemma {:induction false} CoprimeEnds(n: nat, s: Registers, modulus: int, r: int)
    returns (m: nat)
    requires r > 0 && Shape(s) && Coprime(s.u, s.v)
    requires var t := After(n, s, modulus, r);
                (t.at == HalveU || t.at == HalveV || t.at == Subtract ==> t.u > 0 && t.v > 0)
    ensures EndsAfter(m, s, modulus, r)
    decreases After(n, s, modulus, r).u + After(n, s, modulus, r).v, Rank(After(n, s, modulus, r).at)
  {
    AfterKeeps(n, s, modulus, r); AfterKeeps(n + 1, s, modulus, r);
    var t := After(n, s, modulus, r);
    if t.at == Done { return n; }
    if t.u == 0 { ZeroCoprime(t.u, t.v); }
    if t.v == 0 { ZeroCoprime(t.v, t.u); }
    if t.u == t.v { EqualCoprime(t.u); }
    m := CoprimeEnds(n + 1, s, modulus, r);
  }

  /** The loop ends exactly on arguments coprime to the odd modulus; in particular not on zero. */
  lemma EndsExactlyOnCoprime(base: int, modulus: int, r2: int, r: int)
    requires modulus > 1 && modulus % 2 == 1 && 0 <= base && r > 0
    ensures (exists n: nat :: EndsAfter(n, Start(base, modulus, r2), modulus, r)) <==> Coprime(base, modulus)
  {
    var s := Start(base, modulus, r2);
    if n: nat :| EndsAfter(n, s, modulus, r) {
      AfterKeeps(n, s, modulus, r);
      OneIsCoprime(After(n, s, modulus, r).u); OneIsCoprime(After(n, s, modulus, r).v);
    }
    if Coprime(base, modulus) {
      var m := CoprimeEnds(0, s, modulus, r);
      assert EndsAfter(m, s, modulus, r);
    }
  }
}
