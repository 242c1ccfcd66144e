/** The tower of fields of the pairing, Fp2 = Fp(u), Fp6 = Fp2(v), Fp12 = Fp6(w) with u^2 = -1, v^3 = 9 + u, w^2 = v,
    in the formulas of the scripts and over any commutative ring in the place of Fp. */
module Tower {
  import opened Rings
  import opened Solver
  import opened Extensions

  type F2<T> = Quad<T>
  type F6<T> = Cubic<Quad<T>>
  type F12<T> = Quad<Cubic<Quad<T>>>

  // ---- Fp2 -------------------------------------------------------------------------

  function Fp2Mul<T>(r: Ring<T>, a: F2<T>, b: F2<T>): F2<T> {
    Quad(r.sub(r.mul(a.c0, b.c0), r.mul(a.c1, b.c1)), r.add(r.mul(a.c0, b.c1), r.mul(a.c1, b.c0)))
  }

  function Fp2<T>(r: Ring<T>): Ring<F2<T>> {
    Ring(Quad(r.zero, r.zero), Quad(r.one, r.zero),
         (a: F2<T>, b: F2<T>) => QAdd(r, a, b),
         (a: F2<T>, b: F2<T>) => QSub(r, a, b),
         (a: F2<T>, b: F2<T>) => Fp2Mul(r, a, b))
  }

  function Fp2ScalarMul<T>(r: Ring<T>, a: F2<T>, k: T): F2<T> { Quad(r.mul(a.c0, k), r.mul(a.c1, k)) }
  function Fp2Neg<T>(r: Ring<T>, a: F2<T>): F2<T> { Quad(r.sub(r.zero, a.c0), r.sub(r.zero, a.c1)) }
  function Fp2Conjugate<T>(r: Ring<T>, a: F2<T>): F2<T> { Quad(a.c0, r.sub(r.zero, a.c1)) }

  function MulByXi<T>(r: Ring<T>, a: F2<T>): F2<T> {
    var t := Fp2ScalarMul(r, a, OfInt(r, 8));
    Quad(r.sub(r.add(t.c0, a.c0), a.c1), r.add(r.add(t.c1, a.c1), a.c0))
  }

  function Xi<T>(r: Ring<T>): F2<T> { Quad(OfInt(r, 9), OfInt(r, 1)) }

  lemma Fp2MulIsProduct<T(!new)>(r: Ring<T>, a: F2<T>, b: F2<T>)
    requires IsRing(r)
    ensures Fp2Mul(r, a, b) == QMul(r, OfInt(r, -1), a, b)
  {
    SubIsAddNeg(r, r.mul(a.c0, b.c0), r.mul(a.c1, b.c1));
  }

  lemma Fp2IsRing<T(!new)>(r: Ring<T>)
    requires IsRing(r)
    ensures IsRing(Fp2(r))
  {
    var s := QuadRing(r, OfInt(r, -1));
    QuadIsRing(r, OfInt(r, -1));
    var same := (a: F2<T>) => a;
    forall a: F2<T>, b: F2<T> ensures HomLaws(Fp2(r), s, same, a, b) { Fp2MulIsProduct(r, a, b); }
    PulledBack(Fp2(r), s, same);
  }

  ghost const XI_REAL :=
    Equation(Sub(Add(Mul(V(0), C(8)), V(0)), V(1)), Sub(Mul(C(9), V(0)), Mul(C(1), V(1))))

  lemma XiReal() ensures Valid(XI_REAL) {}

  ghost const XI_IMAGINARY :=
    Equation(Add(Add(Mul(V(1), C(8)), V(1)), V(0)), Add(Mul(C(9), V(1)), Mul(C(1), V(0))))

  lemma XiImaginary() ensures Valid(XI_IMAGINARY) {}

  /** mul_by_xi multiplies by 9 + u. */
  lemma MulByXiIsProduct<T(!new)>(r: Ring<T>, a: F2<T>)
    requires IsRing(r)
    ensures MulByXi(r, a) == Fp2(r).mul(Xi(r), a)
  {
    XiReal(); Apply(r, XI_REAL, [a.c0, a.c1]);
    XiImaginary(); Apply(r, XI_IMAGINARY, [a.c0, a.c1]);
  }

  // ---- Fp6 -------------------------------------------------------------------------

  /** Karatsuba product, Algorithm 13 of eprint 2010/354. */
  function Fp6Mul<T>(r: Ring<T>, a: F6<T>, b: F6<T>): F6<T> {
    var s := Fp2(r);
    var t0, t1, t2 := s.mul(a.c0, b.c0), s.mul(a.c1, b.c1), s.mul(a.c2, b.c2);
    Cubic(s.add(MulByXi(r, s.sub(s.sub(s.mul(s.add(a.c1, a.c2), s.add(b.c1, b.c2)), t1), t2)), t0),
          s.add(s.sub(s.sub(s.mul(s.add(a.c0, a.c1), s.add(b.c0, b.c1)), t0), t1), MulByXi(r, t2)),
          s.add(s.sub(s.sub(s.mul(s.add(a.c0, a.c2), s.add(b.c0, b.c2)), t0), t2), t1))
  }

  /** Chung-Hasan square, Algorithm 16. */
  function Fp6Square<T>(r: Ring<T>, a: F6<T>): F6<T> {
    var s := Fp2(r);
    var two := OfInt(r, 2);
    var c4 := Fp2ScalarMul(r, s.mul(a.c0, a.c1), two);
    var c5 := Power(s, a.c2, 2);
    var c1 := s.add(MulByXi(r, c5), c4);
    var c2 := s.sub(c4, c5);
    var c3 := Power(s, a.c0, 2);
    var d4 := s.add(s.sub(a.c0, a.c1), a.c2);
    var d5 := Fp2ScalarMul(r, s.mul(a.c1, a.c2), two);
    var e4 := Power(s, d4, 2);
    Cubic(s.add(MulByXi(r, d5), c3), c1, s.sub(s.add(s.add(c2, e4), d5), c3))
  }

  function MulByGamma<T>(r: Ring<T>, a: F6<T>): F6<T> { Cubic(MulByXi(r, a.c2), a.c0, a.c1) }

  function Fp6Neg<T>(r: Ring<T>, a: F6<T>): F6<T> { Cubic(Fp2Neg(r, a.c0), Fp2Neg(r, a.c1), Fp2Neg(r, a.c2)) }

  function Fp6<T>(r: Ring<T>): Ring<F6<T>> { CubicRing(Fp2(r), Xi(r)) }

  // The element v of Fp6
  function Gamma<T>(r: Ring<T>): F6<T> { Cubic(Fp2(r).zero, Fp2(r).one, Fp2(r).zero) }

  lemma Fp6IsRing<T(!new)>(r: Ring<T>)
    requires IsRing(r)
    ensures IsRing(Fp6(r))
  {
    Fp2IsRing(r);
    CubicIsRing(Fp2(r), Xi(r));
  }

  ghost const KARATSUBA :=
    Equation(Sub(Sub(Mul(Add(V(0), V(1)), Add(V(2), V(3))), Mul(V(0), V(2))), Mul(V(1), V(3))), Add(Mul(V(0), V(3)),
    Mul(V(1), V(2))))

  lemma Karatsuba() ensures Valid(KARATSUBA) {}

  /** Fp6 Karatsuba multiplication is multiplication of polynomials in v modulo v^3 = 9 + u. */
  lemma Fp6MulIsProduct<T(!new)>(r: Ring<T>, a: F6<T>, b: F6<T>)
    requires IsRing(r)
    ensures Fp6Mul(r, a, b) == Fp6(r).mul(a, b)
  {
    var s := Fp2(r);
    Fp2IsRing(r);
    Karatsuba();
    Apply(s, KARATSUBA, [a.c1, a.c2, b.c1, b.c2]);
    Apply(s, KARATSUBA, [a.c0, a.c1, b.c0, b.c1]);
    Apply(s, KARATSUBA, [a.c0, a.c2, b.c0, b.c2]);
    var p, q := s.add(s.mul(a.c1, b.c2), s.mul(a.c2, b.c1)), s.mul(a.c2, b.c2);
    MulByXiIsProduct(r, p);
    MulByXiIsProduct(r, q);
    Use(s, s.mul(Xi(r), p), s.mul(a.c0, b.c0), q);
    var x, y, z := s.mul(a.c0, b.c2), s.mul(a.c2, b.c0), s.mul(a.c1, b.c1);
    Use(s, x, y, z); Use(s, y, z, z); Use(s, x, z, y);
  }

  ghost const CHUNG_HASAN_0 :=
    Equation(Add(Mul(V(3), Mul(Mul(V(1), V(2)), C(2))), Mul(V(0), V(0))), Add(Mul(V(0), V(0)), Mul(V(3),
    Add(Mul(V(1), V(2)), Mul(V(2), V(1))))))

  lemma ChungHasan0() ensures Valid(CHUNG_HASAN_0) {}

  ghost const CHUNG_HASAN_1 :=
    Equation(Add(Mul(V(3), Mul(V(2), V(2))), Mul(Mul(V(0), V(1)), C(2))), Add(Add(Mul(V(0), V(1)), Mul(V(1), V(0))),
    Mul(V(3), Mul(V(2), V(2)))))

  lemma ChungHasan1() ensures Valid(CHUNG_HASAN_1) {}

  ghost const CHUNG_HASAN_2 :=
    Equation(Sub(Add(Add(Sub(Mul(Mul(V(0), V(1)), C(2)), Mul(V(2), V(2))), Mul(Add(Sub(V(0), V(1)), V(2)),
    Add(Sub(V(0), V(1)), V(2)))), Mul(Mul(V(1), V(2)), C(2))), Mul(V(0), V(0))), Add(Add(Mul(V(0), V(2)), Mul(V(1),
    V(1))), Mul(V(2), V(0))))

  lemma ChungHasan2() ensures Valid(CHUNG_HASAN_2) {}

  lemma TwoSquares<T(!new)>(r: Ring<T>, a: F2<T>)
    requires IsRing(r)
    ensures Power(Fp2(r), a, 2) == Fp2Mul(r, a, a)
    ensures Fp2ScalarMul(r, a, OfInt(r, 2)) == Fp2(r).mul(a, OfInt(Fp2(r), 2))
  {
    var s := Fp2(r);
    Fp2IsRing(r);
    assert Power(s, a, 2) == s.mul(a, Power(s, a, 1)) && Power(s, a, 1) == s.mul(a, s.one);
    Use(s, a, s.one, s.one);
    EmbeddedInteger(r, 2);
    MulZero(r, a.c0); MulZero(r, a.c1);
    Use(r, r.mul(a.c0, OfInt(r, 2)), r.zero, r.zero);
    Use(r, r.mul(a.c1, OfInt(r, 2)), r.zero, r.zero);
    Use(r, r.zero, r.mul(a.c1, OfInt(r, 2)), r.zero);
    SubUnique(r, r.mul(a.c0, OfInt(r, 2)), r.zero, r.mul(a.c0, OfInt(r, 2)));
  }

  lemma {:induction false} EmbeddedInteger<T(!new)>(r: Ring<T>, n: nat)
    requires IsRing(r)
    ensures OfInt(Fp2(r), n) == Quad(OfInt(r, n), r.zero)
  {
    if n > 0 {
      EmbeddedInteger(r, n - 1);
      Use(r, r.zero, r.zero, r.zero);
    }
  }

  /** Chung-Hasan squaring is the square in Fp6. */
  lemma Fp6SquareIsSquare<T(!new)>(r: Ring<T>, a: F6<T>)
    requires IsRing(r)
    ensures Fp6Square(r, a) == Fp6(r).mul(a, a)
  {
    var s := Fp2(r);
    var env := [a.c0, a.c1, a.c2, Xi(r)];
    Fp2IsRing(r);
    TwoSquares(r, a.c0); TwoSquares(r, a.c2); TwoSquares(r, s.add(s.sub(a.c0, a.c1), a.c2));
    TwoSquares(r, s.mul(a.c0, a.c1)); TwoSquares(r, s.mul(a.c1, a.c2));
    MulByXiIsProduct(r, s.mul(a.c2, a.c2));
    MulByXiIsProduct(r, Fp2ScalarMul(r, s.mul(a.c1, a.c2), OfInt(r, 2)));
    ChungHasan0(); Apply(s, CHUNG_HASAN_0, env);
    ChungHasan1(); Apply(s, CHUNG_HASAN_1, env);
    ChungHasan2(); Apply(s, CHUNG_HASAN_2, env);
  }

  ghost const ADJOINT_0 :=
    Equation(Add(Mul(V(0), Sub(Mul(V(0), V(0)), Mul(V(3), Mul(V(2), V(1))))), Mul(V(3), Add(Mul(V(1), Sub(Mul(V(1),
    V(1)), Mul(V(0), V(2)))), Mul(V(2), Sub(Mul(V(3), Mul(V(2), V(2))), Mul(V(0), V(1))))))), Add(Add(Mul(V(0),
    Sub(Mul(V(0), V(0)), Mul(V(3), Mul(V(2), V(1))))), Mul(Mul(V(3), V(2)), Sub(Mul(V(3), Mul(V(2), V(2))),
    Mul(V(0), V(1))))), Mul(Mul(V(3), V(1)), Sub(Mul(V(1), V(1)), Mul(V(0), V(2))))))

  lemma Adjoint0() ensures Valid(ADJOINT_0) {}

  ghost const ADJOINT_1 :=
    Equation(Add(Add(Mul(V(0), Sub(Mul(V(3), Mul(V(2), V(2))), Mul(V(0), V(1)))), Mul(V(1), Sub(Mul(V(0), V(0)),
    Mul(V(3), Mul(V(2), V(1)))))), Mul(V(3), Mul(V(2), Sub(Mul(V(1), V(1)), Mul(V(0), V(2)))))), C(0))

  lemma Adjoint1() ensures Valid(ADJOINT_1) {}

  ghost const ADJOINT_2 :=
    Equation(Add(Add(Mul(V(0), Sub(Mul(V(1), V(1)), Mul(V(0), V(2)))), Mul(V(1), Sub(Mul(V(3), Mul(V(2), V(2))),
    Mul(V(0), V(1))))), Mul(V(2), Sub(Mul(V(0), V(0)), Mul(V(3), Mul(V(2), V(1)))))), C(0))

  lemma Adjoint2() ensures Valid(ADJOINT_2) {}

  /** The vector of Algorithm 17 whose product with a is the norm of a. */
  function Fp6Adjoint<T>(r: Ring<T>, a: F6<T>): F6<T> {
    var s := Fp2(r);
    Cubic(s.sub(Power(s, a.c0, 2), MulByXi(r, s.mul(a.c2, a.c1))),
          s.sub(MulByXi(r, Power(s, a.c2, 2)), s.mul(a.c0, a.c1)),
          s.sub(Power(s, a.c1, 2), s.mul(a.c0, a.c2)))
  }

  function Fp6Norm<T>(r: Ring<T>, a: F6<T>): F2<T> {
    var s, c := Fp2(r), Fp6Adjoint(r, a);
    s.add(s.add(s.mul(a.c0, c.c0), s.mul(MulByXi(r, a.c2), c.c1)), s.mul(MulByXi(r, a.c1), c.c2))
  }

  /** a times its adjoint is the norm, an element of Fp2. */
  lemma AdjointGivesNorm<T(!new)>(r: Ring<T>, a: F6<T>)
    requires IsRing(r)
    ensures Fp6(r).mul(a, Fp6Adjoint(r, a)) == Cubic(Fp6Norm(r, a), Fp2(r).zero, Fp2(r).zero)
  {
    var s := Fp2(r);
    var env := [a.c0, a.c1, a.c2, Xi(r)];
    Fp2IsRing(r);
    TwoSquares(r, a.c0); TwoSquares(r, a.c1); TwoSquares(r, a.c2);
    MulByXiIsProduct(r, s.mul(a.c2, a.c1)); MulByXiIsProduct(r, s.mul(a.c2, a.c2));
    MulByXiIsProduct(r, a.c2); MulByXiIsProduct(r, a.c1);
    Adjoint0(); Apply(s, ADJOINT_0, env);
    Adjoint1(); Apply(s, ADJOINT_1, env);
    Adjoint2(); Apply(s, ADJOINT_2, env);
  }

  // ---- Fp12 ------------------------------------------------------------------------

  /** Algorithm 20. */
  function Fp12Mul<T>(r: Ring<T>, a: F12<T>, b: F12<T>): F12<T> {
    var s := Fp6(r);
    var t0, t1 := Fp6Mul(r, a.c0, b.c0), Fp6Mul(r, a.c1, b.c1);
    var c0 := s.add(t0, MulByGamma(r, t1));
    var t3, t4 := s.add(a.c0, a.c1), s.add(b.c0, b.c1);
    Quad(c0, s.sub(s.sub(Fp6Mul(r, t3, t4), t0), t1))
  }

  /** Algorithm 22. */
  function Fp12Square<T>(r: Ring<T>, a: F12<T>): F12<T> {
    var s := Fp6(r);
    var t1 := s.sub(a.c0, a.c1);
    var t3 := s.sub(a.c0, MulByGamma(r, a.c1));
    var t4 := Fp6Mul(r, a.c0, a.c1);
    var t5 := Fp6Mul(r, t1, t3);
    var t6 := s.add(t4, t5);
    Quad(s.add(t6, MulByGamma(r, t4)), s.add(t4, t4))
  }

  function Conjugate<T>(r: Ring<T>, a: F12<T>): F12<T> { Quad(a.c0, Fp6Neg(r, a.c1)) }

  function Fp12<T>(r: Ring<T>): Ring<F12<T>> { QuadRing(Fp6(r), Gamma(r)) }

  lemma Fp12IsRing<T(!new)>(r: Ring<T>)
    requires IsRing(r)
    ensures IsRing(Fp12(r))
  {
    Fp6IsRing(r);
    QuadIsRing(Fp6(r), Gamma(r));
  }

  /** mul_by_gamma multiplies by v. */
  lemma MulByGammaIsProduct<T(!new)>(r: Ring<T>, a: F6<T>)
    requires IsRing(r)
    ensures MulByGamma(r, a) == Fp6(r).mul(Gamma(r), a)
  {
    var s, z := Fp2(r), Fp2(r).zero;
    Fp2IsRing(r);
    MulByXiIsProduct(r, a.c2);
    MulZero(s, a.c0); MulZero(s, a.c1); MulZero(s, a.c2); MulZero(s, Xi(r));
    Use(s, a.c0, s.one, z); Use(s, a.c1, s.one, z); Use(s, a.c2, s.one, z);
    Use(s, s.one, a.c0, z); Use(s, s.one, a.c1, z); Use(s, s.one, a.c2, z);
    Use(s, z, a.c0, z); Use(s, z, a.c1, z); Use(s, z, s.mul(Xi(r), a.c2), z); Use(s, a.c2, z, z); Use(s, z, z, z);
    Use(s, s.mul(Xi(r), a.c2), z, z);
  }

  /** Fp12 multiplication is multiplication of polynomials in w modulo w^2 = v. */
  lemma Fp12MulIsProduct<T(!new)>(r: Ring<T>, a: F12<T>, b: F12<T>)
    requires IsRing(r)
    ensures Fp12Mul(r, a, b) == Fp12(r).mul(a, b)
  {
    var s := Fp6(r);
    Fp6IsRing(r);
    Fp6MulIsProduct(r, a.c0, b.c0); Fp6MulIsProduct(r, a.c1, b.c1);
    Fp6MulIsProduct(r, s.add(a.c0, a.c1), s.add(b.c0, b.c1));
    MulByGammaIsProduct(r, s.mul(a.c1, b.c1));
    Karatsuba();
    Apply(s, KARATSUBA, [a.c0, a.c1, b.c0, b.c1]);
  }

  ghost const COMPLEX_SQUARE_0 :=
    Equation(Add(Add(Mul(V(0), V(1)), Mul(Sub(V(0), V(1)), Sub(V(0), Mul(V(2), V(1))))), Mul(V(2), Mul(V(0),
    V(1)))), Add(Mul(V(0), V(0)), Mul(V(2), Mul(V(1), V(1)))))

  lemma ComplexSquare0() ensures Valid(COMPLEX_SQUARE_0) {}

  ghost const COMPLEX_SQUARE_1 :=
    Equation(Add(Mul(V(0), V(1)), Mul(V(0), V(1))), Add(Mul(V(0), V(1)), Mul(V(1), V(0))))

  lemma ComplexSquare1() ensures Valid(COMPLEX_SQUARE_1) {}

  lemma ComplexSquare<S(!new)>(s: Ring<S>, k: S, a: S, b: S)
    requires IsRing(s)
    ensures var t := s.mul(a, b);
            Quad(s.add(s.add(t, s.mul(s.sub(a, b), s.sub(a, s.mul(k, b)))), s.mul(k, t)), s.add(t, t)) ==
            QMul(s, k, Quad(a, b), Quad(a, b))
  {
    ComplexSquare0(); Apply(s, COMPLEX_SQUARE_0, [a, b, k]);
    ComplexSquare1(); Apply(s, COMPLEX_SQUARE_1, [a, b, k]);
  }

  /** Complex squaring is the square in Fp12. */
  lemma Fp12SquareIsSquare<T(!new)>(r: Ring<T>, a: F12<T>)
    requires IsRing(r)
    ensures Fp12Square(r, a) == Fp12(r).mul(a, a)
  {
    var s := Fp6(r);
    Fp6IsRing(r);
    MulByGammaIsProduct(r, a.c1); MulByGammaIsProduct(r, s.mul(a.c0, a.c1));
    Fp6MulIsProduct(r, a.c0, a.c1);
    Fp6MulIsProduct(r, s.sub(a.c0, a.c1), s.sub(a.c0, s.mul(Gamma(r), a.c1)));
    ComplexSquare(s, Gamma(r), a.c0, a.c1);
  }
}
