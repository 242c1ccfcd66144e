/** Over a prime modulus the tower is a tower of fields: 9 + u is not a cube in Fp2, and v is not a square in Fp6. */
module TowerFields {
  import opened Arithmetic
  import opened Rings
  import opened Solver
  import opened Powers
  import opened FieldLaws
  import opened Extensions
  import opened Tower
  import opened FrobeniusMaps
  import opened PrimeCharacteristic
  import opened TowerFrobenius
  import opened TowerInverses
  import opened TowerNorms
  import opened TowerOperations

  // ---- the adjoint vector ------------------------------------------------------------------------------

  ghost const TWICE_ADJOINT_0 :=
    Equation(Sub(Mul(Sub(Mul(V(0), V(0)), Mul(V(3), Mul(V(2), V(1)))), Sub(Mul(V(0), V(0)), Mul(V(3), Mul(V(2),
    V(1))))), Mul(V(3), Mul(Sub(Mul(V(1), V(1)), Mul(V(0), V(2))), Sub(Mul(V(3), Mul(V(2), V(2))), Mul(V(0),
    V(1)))))), Mul(Add(Add(Mul(V(0), Sub(Mul(V(0), V(0)), Mul(V(3), Mul(V(2), V(1))))), Mul(Mul(V(3), V(2)),
    Sub(Mul(V(3), Mul(V(2), V(2))), Mul(V(0), V(1))))), Mul(Mul(V(3), V(1)), Sub(Mul(V(1), V(1)), Mul(V(0), V(2))))),
    V(0)))

  lemma TwiceAdjoint0() ensures Valid(TWICE_ADJOINT_0) {}

  ghost const TWICE_ADJOINT_1 :=
    Equation(Sub(Mul(V(3), Mul(Sub(Mul(V(1), V(1)), Mul(V(0), V(2))), Sub(Mul(V(1), V(1)), Mul(V(0), V(2))))),
    Mul(Sub(Mul(V(0), V(0)), Mul(V(3), Mul(V(2), V(1)))), Sub(Mul(V(3), Mul(V(2), V(2))), Mul(V(0), V(1))))),
    Mul(Add(Add(Mul(V(0), Sub(Mul(V(0), V(0)), Mul(V(3), Mul(V(2), V(1))))), Mul(Mul(V(3), V(2)), Sub(Mul(V(3),
    Mul(V(2), V(2))), Mul(V(0), V(1))))), Mul(Mul(V(3), V(1)), Sub(Mul(V(1), V(1)), Mul(V(0), V(2))))), V(1)))

  lemma TwiceAdjoint1() ensures Valid(TWICE_ADJOINT_1) {}

  ghost const TWICE_ADJOINT_2 :=
    Equation(Sub(Mul(Sub(Mul(V(3), Mul(V(2), V(2))), Mul(V(0), V(1))), Sub(Mul(V(3), Mul(V(2), V(2))), Mul(V(0),
    V(1)))), Mul(Sub(Mul(V(0), V(0)), Mul(V(3), Mul(V(2), V(1)))), Sub(Mul(V(1), V(1)), Mul(V(0), V(2))))),
    Mul(Add(Add(Mul(V(0), Sub(Mul(V(0), V(0)), Mul(V(3), Mul(V(2), V(1))))), Mul(Mul(V(3), V(2)), Sub(Mul(V(3),
    Mul(V(2), V(2))), Mul(V(0), V(1))))), Mul(Mul(V(3), V(1)), Sub(Mul(V(1), V(1)), Mul(V(0), V(2))))), V(2)))

  lemma TwiceAdjoint2() ensures Valid(TWICE_ADJOINT_2) {}

  function Adjoint<S>(s: Ring<S>, k: S, a: Cubic<S>): Cubic<S> {
    Cubic(s.sub(s.mul(a.c0, a.c0), s.mul(k, s.mul(a.c2, a.c1))),
          s.sub(s.mul(k, s.mul(a.c2, a.c2)), s.mul(a.c0, a.c1)),
          s.sub(s.mul(a.c1, a.c1), s.mul(a.c0, a.c2)))
  }

  function CubicNorm<S>(s: Ring<S>, k: S, a: Cubic<S>): S {
    var c := Adjoint(s, k, a);
    s.add(s.add(s.mul(a.c0, c.c0), s.mul(s.mul(k, a.c2), c.c1)), s.mul(s.mul(k, a.c1), c.c2))
  }

  /** The adjoint of the adjoint is the norm times the element. */
  lemma AdjointTwice<S(!new)>(s: Ring<S>, k: S, a: Cubic<S>)
    requires IsRing(s)
    ensures var n := CubicNorm(s, k, a);
            Adjoint(s, k, Adjoint(s, k, a)) == Cubic(s.mul(n, a.c0), s.mul(n, a.c1), s.mul(n, a.c2))
  {
    var env := [a.c0, a.c1, a.c2, k];
    TwiceAdjoint0(); Apply(s, TWICE_ADJOINT_0, env);
    TwiceAdjoint1(); Apply(s, TWICE_ADJOINT_1, env);
    TwiceAdjoint2(); Apply(s, TWICE_ADJOINT_2, env);
  }

  /** When k is not a cube, only zero has adjoint zero. */
  lemma AdjointKernel<S(!new)>(s: Ring<S>, k: S, a: Cubic<S>)
    requires IsField(s) && (forall w: S :: Power(s, w, 3) != k)
    requires Adjoint(s, k, a) == Cubic(s.zero, s.zero, s.zero)
    ensures a == Cubic(s.zero, s.zero, s.zero)
  {
    DifferenceIsZero(s, s.mul(a.c0, a.c0), s.mul(k, s.mul(a.c2, a.c1)));
    DifferenceIsZero(s, s.mul(k, s.mul(a.c2, a.c2)), s.mul(a.c0, a.c1));
    DifferenceIsZero(s, s.mul(a.c1, a.c1), s.mul(a.c0, a.c2));
    Zeros(s, a.c0); Zeros(s, k);
    if a.c2 == s.zero {
      NonzeroProduct(s, a.c1, a.c1); NonzeroProduct(s, a.c0, a.c0);
      Zeros(s, a.c1);
    } else {
      CubeFromKernel(s, k, a.c0, a.c1, a.c2, Inv(s, a.c2));
    }
  }

  // With k c^2 = a b and b^2 = a c, k is the cube of b / c.
  lemma CubeFromKernel<S(!new)>(s: Ring<S>, k: S, a: S, b: S, c: S, i: S)
    requires IsField(s) && c != s.zero && i == Inv(s, c)
    requires s.mul(k, s.mul(c, c)) == s.mul(a, b) && s.mul(b, b) == s.mul(a, c)
    ensures Power(s, s.mul(b, i), 3) == k
  {
    var w := s.mul(b, i);
    InvWorks(s, c);
    QuotientTimes(s, b, c, i);
    SmallPowers(s, w);
    // b = w c, so a = w^2 c and k c^2 = w^3 c^2
    SwapMul(s, w, c, w, c);
    Use(s, s.mul(w, w), c, c);
    CancelFactor(s, c, a, s.mul(s.mul(w, w), c));
    Use(s, a, c, c); Use(s, c, s.mul(s.mul(w, w), c), c);
    SwapMul(s, s.mul(w, w), c, w, c);
    NonzeroProduct(s, c, c);
    Use(s, s.mul(c, c), k, k); Use(s, s.mul(c, c), s.mul(s.mul(w, w), w), k); Use(s, w, s.mul(w, w), w);
    CancelFactor(s, s.mul(c, c), k, s.mul(s.mul(w, w), w));
  }

  // ---- 9 + u is neither a cube nor a square -------------------------------------------------------------

  // A divisor d of p - 1 is not zero in a field where p is.
  lemma DivisorIsNotZero<S(!new)>(s: Ring<S>, p: nat, d: nat, a: nat)
    requires IsField(s) && Vanishes(s, p) && p == d * a + 1
    ensures OfInt(s, d) != s.zero
  {
    OfIntMul(s, d, a); OfIntAdd(s, d * a, 1);
    OneIsUnit(s, s.one); Use(s, s.one, s.zero, s.zero); Use(s, s.zero, s.one, s.one);
    if OfInt(s, d) == s.zero { MulZero(s, OfInt(s, a)); }
  }

  // With u^2 = u - 1 in characteristic other than 2 and 3, u has order 6.
  lemma SixthRoot<S(!new)>(s: Ring<S>, u: S)
    requires IsField(s) && s.mul(u, u) == s.sub(u, s.one) && OfInt(s, 2) != s.zero && OfInt(s, 3) != s.zero
    ensures Power(s, u, 2) != s.one && Power(s, u, 3) != s.one
  {
    var minusOne := s.sub(s.zero, s.one);
    SmallPowers(s, u);
    RootPowers(s, u);
    Use(s, u, u, u);
    OfIntAdd(s, 1, 1); OfIntAdd(s, 1, 2); OfIntAdd(s, -2, 2);
    OneIsInteger(s);
    assert Power(s, u, 3) == minusOne == OfInt(s, -1);
    if minusOne == s.one { NegationIsItself(s, s.one); }
    OneIsUnit(s, u);
    assert s.sub(minusOne, s.one) == OfInt(s, -2);
    assert OfInt(s, -2) == s.one ==> OfInt(s, 3) == s.zero;
  }

  lemma XiIsNotZero<T(!new)>(r: Ring<T>, g: Gammas<T>, p: nat)
    requires FrobeniusSetting(r, g, p) && IsField(Fp2(r)) && r.one != r.zero
    ensures Xi(r) != Fp2(r).zero
  {
    var s := Fp2(r);
    if Xi(r) == s.zero {
      Fp2IsRing(r);
      MulZero(s, Power(s, s.zero, p / 6 - 1));
      MulZero(s, Fp2Conjugate(r, g.g11));
      MulZero(r, r.zero);
      // then g21 = 0, and g21^2 = g21 - 1 fails
      DifferenceIsZero(r, g.g21, r.one);
    }
  }

  // If z^m = 9 + u and m j = 6, then g21^j = z^(p^2 - 1) = 1.
  lemma RootOfXi<T(!new)>(r: Ring<T>, g: Gammas<T>, p: nat, z: F2<T>, m: nat, j: nat)
    requires FrobeniusSetting(r, g, p) && IsField(Fp2(r)) && r.one != r.zero && m * j == 6
    requires Power(Fp2(r), z, m) == Xi(r)
    ensures Power(Fp2(r), Quad(g.g21, r.zero), j) == Fp2(r).one
  {
    var s, k, u := Fp2(r), p / 6, Quad(g.g21, r.zero);
    Fp2IsRing(r);
    XiIsNotZero(r, g, p);
    NonzeroPower(s, z, m);
    ConjugationIsPower(r, p, g.g11);
    SmallPowers(s, g.g11);
    PowerAdd(s, g.g11, p, 1);
    Exponents(m, j, k, p);
    PowerChain(s, z, Xi(r), g.g11, u, m, k, p + 1, j, p * p - 1);
    OrderInFp2(r, p, z);
  }

  lemma PowerChain<S(!new)>(s: Ring<S>, z: S, a: S, b: S, c: S, m: nat, k: nat, q: nat, j: nat, e: nat)
    requires IsRing(s) && Power(s, z, m) == a && Power(s, a, k) == b && Power(s, b, q) == c && m * k * q * j == e
    ensures Power(s, c, j) == Power(s, z, e)
  {
    PowerOfPower(s, z, m, k);
    PowerOfPower(s, z, m * k, q);
    PowerOfPower(s, z, m * k * q, j);
  }

  lemma Exponents(m: nat, j: nat, k: nat, p: nat)
    requires m * j == 6 && p == 6 * k + 1
    ensures m * k * (p + 1) * j == p * p - 1 >= 0
  {
    assert m * k * (p + 1) * j == m * j * (k * (p + 1));
    assert 6 * (k * (p + 1)) == (p - 1) * (p + 1) == p * p - 1;
  }

  lemma OrderInFp2<T(!new)>(r: Ring<T>, p: nat, z: F2<T>)
    requires IsRing(r) && IsPrime(p) && p % 4 == 3 && Vanishes(r, p) && Fixed(r, p)
    requires IsField(Fp2(r)) && z != Fp2(r).zero
    ensures p * p - 1 >= 0 && Power(Fp2(r), z, p * p - 1) == Fp2(r).one
  {
    var s := Fp2(r);
    assert p * p > 0;
    ConjugationIsPower(r, p, z); ConjugationIsPower(r, p, Power(s, z, p));
    PowerOfPower(s, z, p, p);
    NegateTwice(r, z.c1);
    OrderOfUnits(s, z, p * p);
  }

  /** 9 + u is neither a cube nor a square in Fp2. */
  lemma XiHasNoRoots<T(!new)>(r: Ring<T>, g: Gammas<T>, p: nat, z: F2<T>)
    requires FrobeniusSetting(r, g, p) && IsField(Fp2(r)) && r.one != r.zero
    ensures Power(Fp2(r), z, 3) != Xi(r) && Power(Fp2(r), z, 2) != Xi(r)
  {
    var s, u := Fp2(r), Quad(g.g21, r.zero);
    Fp2IsRing(r);
    Fp2Vanishes(r, p);
    DivisorIsNotZero(s, p, 2, (p - 1) / 2); DivisorIsNotZero(s, p, 3, (p - 1) / 3);
    ScalarsMultiply(r, g.g21, g.g21); Zeros(r, r.zero);
    SixthRoot(s, u);
    if Power(s, z, 3) == Xi(r) { RootOfXi(r, g, p, z, 3, 2); }
    if Power(s, z, 2) == Xi(r) { RootOfXi(r, g, p, z, 2, 3); }
  }

  // ---- Fp6 --------------------------------------------------------------------------------------------------

  lemma AdjointAndNorm<T(!new)>(r: Ring<T>, a: F6<T>)
    requires IsRing(r)
    ensures Fp6Adjoint(r, a) == Adjoint(Fp2(r), Xi(r), a) && Fp6Norm(r, a) == CubicNorm(Fp2(r), Xi(r), a)
  {
    var s := Fp2(r);
    TwoSquares(r, a.c0); TwoSquares(r, a.c1); TwoSquares(r, a.c2);
    MulByXiIsProduct(r, s.mul(a.c2, a.c1)); MulByXiIsProduct(r, s.mul(a.c2, a.c2));
    MulByXiIsProduct(r, a.c2); MulByXiIsProduct(r, a.c1);
  }

  /** The norm of Fp6 vanishes at zero only. */
  lemma Fp6NormVanishesAtZero<T(!new)>(r: Ring<T>, g: Gammas<T>, p: nat, a: F6<T>)
    requires FrobeniusSetting(r, g, p) && IsField(Fp2(r)) && r.one != r.zero && a != Fp6(r).zero
    ensures Fp6Norm(r, a) != Fp2(r).zero
  {
    var s, k := Fp2(r), Xi(r);
    AdjointAndNorm(r, a);
    if Fp6Norm(r, a) == s.zero {
      forall z: F2<T> ensures Power(s, z, 3) != k { XiHasNoRoots(r, g, p, z); }
      AdjointTwice(s, k, a);
      MulZero(s, a.c0); MulZero(s, a.c1); MulZero(s, a.c2);
      AdjointKernel(s, k, Adjoint(s, k, a));
      AdjointKernel(s, k, a);
    }
  }

  /** Fp6 is a field. */
  lemma Fp6IsField<T(!new)>(r: Ring<T>, g: Gammas<T>, p: nat)
    requires FrobeniusSetting(r, g, p) && IsField(Fp2(r)) && r.one != r.zero
    ensures IsField(Fp6(r))
  {
    var s, six := Fp2(r), Fp6(r);
    Fp6IsRing(r);
    forall a: F6<T> | a != six.zero ensures HasInverse(six, a) {
      Fp6NormVanishesAtZero(r, g, p, a);
      var t, c := Inv(s, Fp6Norm(r, a)), Fp6Adjoint(r, a);
      InvWorks(s, Fp6Norm(r, a));
      Fp6InverseFromIsInverse(r, a, t);
      assert Inverses(six, a, Cubic(s.mul(c.c0, t), s.mul(c.c1, t), s.mul(c.c2, t)));
    }
  }

  // ---- Fp12 -------------------------------------------------------------------------------------------------

  // The product of the conjugates of v is v^2.
  lemma RotatedRoots<S(!new)>(s: Ring<S>, x: S, z: S)
    requires IsRing(s) && s.mul(z, z) == s.sub(s.zero, s.add(z, s.one))
    ensures var c, v := CubicRing(s, x), CubicRoot(s);
            c.mul(v, c.mul(Rotated(s, z)(v), Rotated(s, s.mul(z, z))(v))) == InCubic(s, x)
  {
    var c, v, w := CubicRing(s, x), CubicRoot(s), s.mul(z, z);
    CubicIsRing(s, x);
    ConjugatesGiveAdjoint(s, x, z, v);
    Zeros(s, s.zero); Zeros(s, x); Zeros(s, s.one); Zeros(s, z); Zeros(s, w);
    Zeros(s, s.mul(z, z)); Zeros(s, s.mul(w, w));
    OneIsUnit(s, z); OneIsUnit(s, w); OneIsUnit(s, s.one);
    CubicGenerated(s, x, v);
    Use(c, v, v, v);
  }

  // If y^2 = v, the norm of y is a square root of x.
  lemma NormOfRoot<S(!new)>(s: Ring<S>, x: S, z: S, y: Cubic<S>, n: S)
    requires IsRing(s) && s.mul(z, z) == s.sub(s.zero, s.add(z, s.one))
    requires CubicRing(s, x).mul(y, y) == CubicRoot(s)
    requires CubicRing(s, x).mul(y, Adjoint(s, x, y)) == InCubic(s, n)
    ensures s.mul(n, n) == x
  {
    var c, v := CubicRing(s, x), CubicRoot(s);
    var h, k := Rotated(s, z), Rotated(s, s.mul(z, z));
    CubicIsRing(s, x);
    RotationsAreHoms(s, x, z);
    ConjugatesGiveAdjoint(s, x, z, y);
    var a, b := h(y), k(y);
    CubeRootPowers(s, z);
    assert Adjoint(s, x, y) == c.mul(a, b);
    UseHom(c, c, h, y, y); UseHom(c, c, k, y, y);
    SwapMul(c, y, c.mul(a, b), y, c.mul(a, b));
    SwapMul(c, a, b, a, b);
    RotatedRoots(s, x, z);
    BaseTimes(s, x, n, InCubic(s, n));
  }

  /** v is not a square in Fp6. */
  lemma GammaIsNotSquare<T(!new)>(r: Ring<T>, g: Gammas<T>, p: nat, y: F6<T>)
    requires FrobeniusSetting(r, g, p) && IsField(Fp2(r)) && r.one != r.zero
    ensures Fp6(r).mul(y, y) != Gamma(r)
  {
    if Fp6(r).mul(y, y) == Gamma(r) {
      var n := Fp6Norm(r, y);
      CubeRootOfUnity(r, g);
      AdjointGivesNorm(r, y);
      AdjointAndNorm(r, y);
      NormOfRoot(Fp2(r), Xi(r), Quad(g.g22, r.zero), y, n);
      XiHasNoRoots(r, g, p, n);
      SmallPowers(Fp2(r), n);
    }
  }

  // In a field, c0^2 = k c1^2 makes both zero or k a square.
  lemma RatioOfSquares<S(!new)>(s: Ring<S>, k: S, c0: S, c1: S)
    requires IsField(s) && (forall y: S :: s.mul(y, y) != k) && s.mul(c0, c0) == s.mul(k, s.mul(c1, c1))
    ensures c0 == s.zero && c1 == s.zero
  {
    if c1 == s.zero {
      MulZero(s, s.zero); MulZero(s, k);
      NonzeroProduct(s, c0, c0);
    } else {
      var y := s.mul(c0, Inv(s, c1));
      InvWorks(s, c1);
      QuotientTimes(s, c0, c1, Inv(s, c1));
      SwapMul(s, y, c1, y, c1);
      NonzeroProduct(s, c1, c1);
      Use(s, k, s.mul(c1, c1), k); Use(s, s.mul(y, y), s.mul(c1, c1), k);
      CancelFactor(s, s.mul(c1, c1), k, s.mul(y, y));
    }
  }

  /** The norm of Fp12 vanishes at zero only. */
  lemma Fp12NormVanishesAtZero<T(!new)>(r: Ring<T>, g: Gammas<T>, p: nat, f: F12<T>)
    requires FrobeniusSetting(r, g, p) && IsField(Fp2(r)) && r.one != r.zero && f != Fp12(r).zero
    ensures Fp12Norm(r, f) != Fp6(r).zero
  {
    var six, k := Fp6(r), Gamma(r);
    Fp6IsField(r, g, p);
    Fp6SquareIsSquare(r, f.c0); Fp6SquareIsSquare(r, f.c1);
    MulByGammaIsProduct(r, six.mul(f.c1, f.c1));
    DifferenceIsZero(six, six.mul(f.c0, f.c0), six.mul(k, six.mul(f.c1, f.c1)));
    if Fp12Norm(r, f) == six.zero {
      forall y: F6<T> ensures six.mul(y, y) != k { GammaIsNotSquare(r, g, p, y); }
      RatioOfSquares(six, k, f.c0, f.c1);
    }
  }

  /** Fp12 is a field. */
  lemma Fp12IsField<T(!new)>(r: Ring<T>, g: Gammas<T>, p: nat)
    requires FrobeniusSetting(r, g, p) && IsField(Fp2(r)) && r.one != r.zero
    ensures IsField(Fp12(r))
  {
    var six, s := Fp6(r), Fp12(r);
    Fp6IsField(r, g, p);
    Fp12IsRing(r);
    forall f: F12<T> | f != s.zero ensures HasInverse(s, f) {
      var t := Inv(six, Fp12Norm(r, f));
      Fp12NormVanishesAtZero(r, g, p, f);
      InvWorks(six, Fp12Norm(r, f));
      Fp12InverseFromIsInverse(r, f, t);
      var minusOne := six.sub(six.zero, six.one);
      assert Inverses(s, f, Quad(Fp6Mul(r, f.c0, t), Fp6Mul(r, Fp6Mul(r, minusOne, f.c1), t)));
    }
  }

  /** Fp12 with the multiplication of fp12.py is a field. */
  lemma FastIsField<T(!new)>(r: Ring<T>)
    requires IsField(Fp12(r)) && IsRing(r)
    ensures IsField(Fp12Fast(r))
  {
    var s, w := Fp12(r), Fp12Fast(r);
    FastIsRing(r);
    forall f: F12<T> | f != w.zero ensures HasInverse(w, f) {
      assert HasInverse(s, f);
      var b :| Inverses(s, f, b);
      FastInverses(r, f, b);
    }
  }
}
