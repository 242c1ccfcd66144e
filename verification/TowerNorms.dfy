/** Units of Fp6 and of Fp12 have nonzero norms. */
module TowerNorms {
  import opened Rings
  import opened Solver
  import opened Powers
  import opened FieldLaws
  import opened Extensions
  import opened Tower
  import opened FrobeniusMaps
  import opened TowerFrobenius
  import opened TowerInverses

  // ---- Fp6 --------------------------------------------------------------------------------------------

  ghost const PAIR_SUM :=
    Equation(Add(Mul(V(0), Sub(C(0), Add(V(1), C(1)))), Mul(V(0), V(1))), Sub(C(0), V(0)))

  lemma PairSum() ensures Valid(PAIR_SUM) {}

  ghost const MINUS_INSIDE :=
    Equation(Add(V(0), Mul(V(1), Sub(C(0), V(2)))), Sub(V(0), Mul(V(1), V(2))))

  lemma MinusInside() ensures Valid(MINUS_INSIDE) {}

  ghost const MINUS_OUTSIDE :=
    Equation(Add(Sub(C(0), V(0)), V(1)), Sub(V(1), V(0)))

  lemma MinusOutside() ensures Valid(MINUS_OUTSIDE) {}

  ghost const CUBE_ROOT_SQUARE :=
    Equation(Mul(Sub(C(0), Add(V(0), C(1))), Sub(C(0), Add(V(0), C(1)))), Add(V(0), Sub(Mul(V(0), V(0)), Sub(C(0),
    Add(V(0), C(1))))))

  lemma CubeRootSquare() ensures Valid(CUBE_ROOT_SQUARE) {}

  ghost const CUBE_ROOT_CUBE :=
    Equation(Mul(V(0), Sub(C(0), Add(V(0), C(1)))), Sub(C(1), Sub(Mul(V(0), V(0)), Sub(C(0), Add(V(0), C(1))))))

  lemma CubeRootCube() ensures Valid(CUBE_ROOT_CUBE) {}

  // For a cube root of unity z with z^2 = w = -(z + 1): w^2 = z and z w = 1.
  lemma CubeRootPowers<S(!new)>(s: Ring<S>, z: S)
    requires IsRing(s) && s.mul(z, z) == s.sub(s.zero, s.add(z, s.one))
    ensures var w := s.mul(z, z); s.mul(w, w) == z && s.mul(z, w) == s.one
  {
    OneIsInteger(s);
    var w := s.mul(z, z);
    CubeRootSquare(); Apply(s, CUBE_ROOT_SQUARE, [z]);
    CubeRootCube(); Apply(s, CUBE_ROOT_CUBE, [z]);
    Zeros(s, z); Zeros(s, s.one);
    DifferenceIsZero(s, w, w);
  }

  // (a0, a1 z, a2 w) (a0, a1 w, a2 z) is the adjoint of (a0, a1, a2).
  lemma ConjugatesGiveAdjoint<S(!new)>(s: Ring<S>, x: S, z: S, a: Cubic<S>)
    requires IsRing(s) && s.mul(z, z) == s.sub(s.zero, s.add(z, s.one))
    ensures var w := s.mul(z, z);
            CMul(s, x, Cubic(a.c0, s.mul(a.c1, z), s.mul(a.c2, w)), Cubic(a.c0, s.mul(a.c1, w), s.mul(a.c2, z))) ==
            Cubic(s.sub(s.mul(a.c0, a.c0), s.mul(x, s.mul(a.c2, a.c1))),
                  s.sub(s.mul(x, s.mul(a.c2, a.c2)), s.mul(a.c0, a.c1)),
                  s.sub(s.mul(a.c1, a.c1), s.mul(a.c0, a.c2)))
  {
    var w := s.mul(z, z);
    var p, q, t := s.mul(a.c2, a.c1), s.mul(a.c0, a.c1), s.mul(a.c0, a.c2);
    CubeRootPowers(s, z);
    OneIsInteger(s);
    PairSum(); Apply(s, PAIR_SUM, [p, z]); Apply(s, PAIR_SUM, [q, z]); Apply(s, PAIR_SUM, [t, z]);
    // first coefficient
    SwapMul(s, a.c1, z, a.c2, z); SwapMul(s, a.c2, w, a.c1, w); Use(s, a.c1, a.c2, a.c2);
    MinusInside(); Apply(s, MINUS_INSIDE, [s.mul(a.c0, a.c0), x, p]);
    // second coefficient
    Use(s, a.c0, a.c1, w); Use(s, a.c1, z, a.c0); Use(s, z, a.c0, a.c1); Use(s, a.c0, a.c1, z); Use(s, a.c1, a.c0, z);
    Use(s, s.mul(a.c1, z), a.c0, a.c0);
    Use(s, a.c1, a.c0, a.c0);
    SwapMul(s, a.c2, w, a.c2, z); Use(s, w, z, z); OneIsUnit(s, s.mul(a.c2, a.c2));
    MinusOutside(); Apply(s, MINUS_OUTSIDE, [q, s.mul(x, s.mul(a.c2, a.c2))]);
    // third coefficient
    SwapMul(s, a.c1, z, a.c1, w); OneIsUnit(s, s.mul(a.c1, a.c1));
    Use(s, a.c0, a.c2, z); Use(s, s.mul(a.c2, w), a.c0, a.c0); Use(s, a.c0, a.c2, w); Use(s, a.c2, a.c0, a.c0);
    ThirdCoefficient(s, s.mul(t, z), s.mul(a.c1, a.c1), s.mul(t, w), t);
  }

  lemma ThirdCoefficient<S(!new)>(s: Ring<S>, u: S, v: S, w: S, t: S)
    requires IsRing(s) && s.add(w, u) == s.sub(s.zero, t)
    ensures s.add(s.add(u, v), w) == s.sub(v, t)
  {
    Use(s, u, v, w); Use(s, v, w, u); Use(s, v, u, w); Use(s, w, u, v); Use(s, u, w, v);
    Use(s, s.add(u, v), w, w); Use(s, s.add(w, u), v, v);
    OneIsInteger(s);
    MinusOutside(); Apply(s, MINUS_OUTSIDE, [t, v]);
  }

  // The map sending a0 + a1 v + a2 v^2 to a0 + a1 z v + a2 z^2 v^2
  ghost function Rotated<S>(s: Ring<S>, z: S): Cubic<S> -> Cubic<S> {
    (a: Cubic<S>) => CubicTwist(s, Same(), z, a)
  }

  lemma RotationsAreHoms<S(!new)>(s: Ring<S>, x: S, z: S)
    requires IsRing(s) && s.mul(z, z) == s.sub(s.zero, s.add(z, s.one))
    ensures IsHom(CubicRing(s, x), CubicRing(s, x), Rotated(s, z))
    ensures IsHom(CubicRing(s, x), CubicRing(s, x), Rotated(s, s.mul(z, z)))
  {
    var w := s.mul(z, z);
    CubeRootPowers(s, z);
    SameIsHom(s);
    OneIsUnit(s, x);
    Use(s, z, z, z); Use(s, w, z, z);
    CubicTwistIsHom(s, x, Same(), z, Rotated(s, z));
    CubicTwistIsHom(s, x, Same(), w, Rotated(s, w));
  }

  // The adjoint of a unit is a unit, so its norm is not zero.
  lemma UnitHasNorm<S(!new)>(s: Ring<S>, x: S, z: S, a: Cubic<S>, ai: Cubic<S>, adjoint: Cubic<S>, n: S)
    requires IsRing(s) && s.one != s.zero && s.mul(z, z) == s.sub(s.zero, s.add(z, s.one))
    requires Inverses(CubicRing(s, x), a, ai)
    requires adjoint == Cubic(s.sub(s.mul(a.c0, a.c0), s.mul(x, s.mul(a.c2, a.c1))),
                              s.sub(s.mul(x, s.mul(a.c2, a.c2)), s.mul(a.c0, a.c1)),
                              s.sub(s.mul(a.c1, a.c1), s.mul(a.c0, a.c2)))
    requires CubicRing(s, x).mul(a, adjoint) == InCubic(s, n)
    ensures n != s.zero
  {
    var c, w := CubicRing(s, x), s.mul(z, z);
    var h, k := Rotated(s, z), Rotated(s, w);
    CubicIsRing(s, x);
    CubeRootPowers(s, z);
    RotationsAreHoms(s, x, z);
    ConjugatesGiveAdjoint(s, x, z, a);
    assert adjoint == c.mul(h(a), k(a));
    UseHom(c, c, h, a, ai); UseHom(c, c, k, a, ai);
    UnitProducts(c, a, ai, h(a), h(ai), k(a), k(ai));
    if n == s.zero { MulZero(c, c.mul(ai, c.mul(h(ai), k(ai)))); }
  }

  lemma UnitProducts<S(!new)>(c: Ring<S>, a: S, ai: S, b: S, bi: S, d: S, di: S)
    requires IsRing(c) && Inverses(c, a, ai) && Inverses(c, b, bi) && Inverses(c, d, di)
    ensures c.mul(c.mul(a, c.mul(b, d)), c.mul(ai, c.mul(bi, di))) == c.one
  {
    SwapMul(c, b, d, bi, di);
    SwapMul(c, a, c.mul(b, d), ai, c.mul(bi, di));
    OneIsUnit(c, c.one);
  }

  lemma CubeRootOfUnity<T(!new)>(r: Ring<T>, g: Gammas<T>)
    requires IsRing(r) && GoodGammas(r, g)
    ensures var s, z := Fp2(r), Quad(g.g22, r.zero); s.mul(z, z) == s.sub(s.zero, s.add(z, s.one))
  {
    var s, z := Fp2(r), Quad(g.g22, r.zero);
    Fp2IsRing(r);
    ScalarsMultiply(r, g.g22, g.g22);
    RootPowers(r, g.g21);
    // g22 = g21 - 1, so z + 1 = g21; and g22^2 = g21^4 = -g21
    Use(r, g.g21, r.one, r.one);
    Zeros(r, r.zero);
    Use(r, g.g22, g.g21, g.g21); Use(r, g.g22, g.g22, g.g22);
    MinusTimes(r, g.g21);
    Use(r, g.g21, g.g21, g.g22); Use(r, g.g21, g.g22, g.g22);
  }

  lemma MinusTimes<T(!new)>(r: Ring<T>, a: T)
    requires IsRing(r)
    ensures r.mul(r.sub(r.zero, r.one), a) == r.sub(r.zero, a)
  {
    NegationIsProduct(r, a);
    Use(r, a, r.sub(r.zero, r.one), a);
  }

  /** The norm of a unit of Fp6 is not zero. */
  lemma UnitOfFp6<T(!new)>(r: Ring<T>, g: Gammas<T>, a: F6<T>, ai: F6<T>)
    requires IsRing(r) && r.one != r.zero && GoodGammas(r, g) && Inverses(Fp6(r), a, ai)
    ensures Fp6Norm(r, a) != Fp2(r).zero
  {
    var s := Fp2(r);
    Fp2IsRing(r);
    CubeRootOfUnity(r, g);
    AdjointGivesNorm(r, a);
    TwoSquares(r, a.c0); TwoSquares(r, a.c1); TwoSquares(r, a.c2);
    MulByXiIsProduct(r, s.mul(a.c2, a.c1)); MulByXiIsProduct(r, s.mul(a.c2, a.c2));
    UnitHasNorm(s, Xi(r), Quad(g.g22, r.zero), a, ai, Fp6Adjoint(r, a), Fp6Norm(r, a));
  }

  // ---- Fp12 -------------------------------------------------------------------------------------------

  lemma ConjugateProduct<S(!new)>(s: Ring<S>, k: S, f: Quad<S>)
    requires IsRing(s)
    ensures QMul(s, k, f, Quad(f.c0, s.sub(s.zero, f.c1))) ==
                InQuad(s, s.sub(s.mul(f.c0, f.c0), s.mul(k, s.mul(f.c1, f.c1))))
  {
    OneIsInteger(s);
    ConjugateReal(); Apply(s, CONJUGATE_REAL, [f.c0, f.c1, k]);
    ConjugateImaginary(); Apply(s, CONJUGATE_IMAGINARY, [f.c0, f.c1, k]);
  }

  ghost const CONJUGATE_REAL :=
    Equation(Add(Mul(V(0), V(0)), Mul(V(2), Mul(V(1), Sub(C(0), V(1))))), Sub(Mul(V(0), V(0)), Mul(V(2), Mul(V(1),
    V(1)))))

  lemma ConjugateReal() ensures Valid(CONJUGATE_REAL) {}

  ghost const CONJUGATE_IMAGINARY :=
    Equation(Add(Mul(V(0), Sub(C(0), V(1))), Mul(V(1), V(0))), C(0))

  lemma ConjugateImaginary() ensures Valid(CONJUGATE_IMAGINARY) {}

  /** f times its conjugate is the norm to Fp6. */
  lemma ConjugateGivesNorm<T(!new)>(r: Ring<T>, f: F12<T>)
    requires IsRing(r)
    ensures Fp12(r).mul(f, Conjugate(r, f)) == InQuad(Fp6(r), Fp12Norm(r, f))
  {
    var s := Fp6(r);
    Fp6IsRing(r);
    Fp6SquareIsSquare(r, f.c0); Fp6SquareIsSquare(r, f.c1);
    MulByGammaIsProduct(r, s.mul(f.c1, f.c1));
    ConjugateProduct(s, Gamma(r), f);
  }

  /** The norm down to Fp2 of a unit of Fp12 is not zero. */
  lemma UnitOfFp12<T(!new)>(r: Ring<T>, g: Gammas<T>, f: F12<T>, fi: F12<T>)
    requires IsRing(r) && r.one != r.zero && GoodGammas(r, g) && Inverses(Fp12(r), f, fi)
    ensures Fp6Norm(r, Fp12Norm(r, f)) != Fp2(r).zero
  {
    var s, six := Fp12(r), Fp6(r);
    var c := (a: F12<T>) => Conjugate(r, a);
    Fp12IsRing(r);
    Fp6IsRing(r);
    ConjugateIsHom(r, g, c);
    UseHom(s, s, c, f, fi);
    ConjugateGivesNorm(r, f); ConjugateGivesNorm(r, fi);
    SwapMul(s, f, fi, c(f), c(fi));
    OneIsUnit(s, s.one);
    InnerTimes(six, Gamma(r), Fp12Norm(r, f), InQuad(six, Fp12Norm(r, fi)));
    UnitOfFp6(r, g, Fp12Norm(r, f), Fp12Norm(r, fi));
  }

  lemma ConjugateIsHom<T(!new)>(r: Ring<T>, g: Gammas<T>, c: F12<T> -> F12<T>)
    requires IsRing(r) && GoodGammas(r, g) && forall a: F12<T> :: c(a) == Conjugate(r, a)
    ensures IsHom(Fp12(r), Fp12(r), c)
  {
    var s := Fp12(r);
    var k := (a: F12<T>) => FrobeniusSquare(r, g, a);
    var k2 := (a: F12<T>) => k(k(a));
    FrobeniusIsHom(r, g);
    HomsCompose(s, s, s, k, k, k2);
    forall a: F12<T> ensures c(a) == k(k2(a)) { FrobeniusComposes(r, g, a); }
    HomsCompose(s, s, s, k2, k, c);
  }
}
