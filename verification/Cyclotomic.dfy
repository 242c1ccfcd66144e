/** Squaring in the cyclotomic subgroup of Fp12. */
module CyclotomicSubgroup {
  import opened Rings
  import opened Solver
  import opened Extensions
  import opened Tower
  import opened FrobeniusMaps

  /** The Granger-Scott square. */
  function CyclotomicSquare<T>(r: Ring<T>, a: F12<T>): F12<T> {
    var s := Fp2(r);
    var a00, a01, a02, a10, a11, a12 := a.c0.c0, a.c0.c1, a.c0.c2, a.c1.c0, a.c1.c1, a.c1.c2;
    var t0, t1 := s.mul(a11, a11), s.mul(a00, a00);
    var t6 := s.sub(s.sub(s.mul(s.add(a11, a00), s.add(a11, a00)), t0), t1);
    var t2, t3 := s.mul(a02, a02), s.mul(a10, a10);
    var t7 := s.sub(s.sub(s.mul(s.add(a02, a10), s.add(a02, a10)), t2), t3);
    var t4, t5 := s.mul(a12, a12), s.mul(a01, a01);
    var t8 := MulByXi(r, s.sub(s.sub(s.mul(s.add(a12, a01), s.add(a12, a01)), t4), t5));
    var u0, u2, u4 := s.add(MulByXi(r, t0), t1), s.add(MulByXi(r, t2), t3), s.add(MulByXi(r, t4), t5);
    var c00, c01, c02 := s.sub(u0, a00), s.sub(u2, a01), s.sub(u4, a02);
    var c10, c11, c12 := s.add(t8, a10), s.add(t6, a11), s.add(t7, a12);
    Quad(Cubic(s.add(s.add(c00, c00), u0), s.add(s.add(c01, c01), u2), s.add(s.add(c02, c02), u4)),
         Cubic(s.add(s.add(c10, c10), t8), s.add(s.add(c11, c11), t6), s.add(s.add(c12, c12), t7)))
  }

  /** f^(p^4 - p^2 + 1) = 1, written without division and with frobenius_square for the p^2-th power. */
  ghost predicate InCyclotomicSubgroup<T>(r: Ring<T>, g: Gammas<T>, f: F12<T>) {
    Fp12(r).mul(FrobeniusSquare(r, g, FrobeniusSquare(r, g, f)), f) == FrobeniusSquare(r, g, f)
  }

  // ---- products by coefficients of powers of w --------------------------------------------

  ghost function Schoolbook<T>(s: Ring<F2<T>>, x: F2<T>, a: F12<T>, b: F12<T>): F12<T> {
    Quad(Cubic(
          s.add(s.add(s.mul(a.c0.c0, b.c0.c0), s.mul(x, s.add(s.mul(a.c0.c1, b.c0.c2), s.mul(a.c0.c2, b.c0.c1)))),
          s.mul(x, s.add(s.add(s.mul(a.c1.c0, b.c1.c2), s.mul(a.c1.c1, b.c1.c1)), s.mul(a.c1.c2, b.c1.c0)))),
          s.add(s.add(s.add(s.mul(a.c0.c0, b.c0.c1), s.mul(a.c0.c1, b.c0.c0)), s.mul(x, s.mul(a.c0.c2, b.c0.c2))),
          s.add(s.mul(a.c1.c0, b.c1.c0), s.mul(x, s.add(s.mul(a.c1.c1, b.c1.c2), s.mul(a.c1.c2, b.c1.c1))))),
          s.add(s.add(s.add(s.mul(a.c0.c0, b.c0.c2), s.mul(a.c0.c1, b.c0.c1)), s.mul(a.c0.c2, b.c0.c0)),
          s.add(s.add(s.mul(a.c1.c0, b.c1.c1), s.mul(a.c1.c1, b.c1.c0)), s.mul(x, s.mul(a.c1.c2, b.c1.c2))))),
         Cubic(
          s.add(s.add(s.mul(a.c0.c0, b.c1.c0), s.mul(x, s.add(s.mul(a.c0.c1, b.c1.c2), s.mul(a.c0.c2, b.c1.c1)))),
          s.add(s.mul(a.c1.c0, b.c0.c0), s.mul(x, s.add(s.mul(a.c1.c1, b.c0.c2), s.mul(a.c1.c2, b.c0.c1))))),
          s.add(s.add(s.add(s.mul(a.c0.c0, b.c1.c1), s.mul(a.c0.c1, b.c1.c0)), s.mul(x, s.mul(a.c0.c2, b.c1.c2))),
          s.add(s.add(s.mul(a.c1.c0, b.c0.c1), s.mul(a.c1.c1, b.c0.c0)), s.mul(x, s.mul(a.c1.c2, b.c0.c2)))),
          s.add(s.add(s.add(s.mul(a.c0.c0, b.c1.c2), s.mul(a.c0.c1, b.c1.c1)), s.mul(a.c0.c2, b.c1.c0)),
          s.add(s.add(s.mul(a.c1.c0, b.c0.c2), s.mul(a.c1.c1, b.c0.c1)), s.mul(a.c1.c2, b.c0.c0)))))
  }

  /** The product in Fp12 is the product of polynomials of degree 5 in w modulo w^6 = 9 + u. */
  lemma ProductByCoefficients<T(!new)>(r: Ring<T>, a: F12<T>, b: F12<T>)
    requires IsRing(r)
    ensures Fp12(r).mul(a, b) == Schoolbook(Fp2(r), Xi(r), a, b)
  {
    var t := Fp6(r).mul(a.c1, b.c1);
    MulByGammaIsProduct(r, t);
    MulByXiIsProduct(r, t.c2);
  }

  lemma SquareByCoefficients<T(!new)>(r: Ring<T>, a: F12<T>)
    requires IsRing(r)
    ensures var s := Fp2(r);
            MulByXi(r, s.mul(a.c1.c1, a.c1.c1)) == s.mul(Xi(r), s.mul(a.c1.c1, a.c1.c1))
            && MulByXi(r, s.mul(a.c0.c2, a.c0.c2)) == s.mul(Xi(r), s.mul(a.c0.c2, a.c0.c2))
            && MulByXi(r, s.mul(a.c1.c2, a.c1.c2)) == s.mul(Xi(r), s.mul(a.c1.c2, a.c1.c2))
    ensures var s := Fp2(r);
            var q := s.sub(s.sub(s.mul(s.add(a.c1.c2, a.c0.c1), s.add(a.c1.c2, a.c0.c1)), s.mul(a.c1.c2, a.c1.c2)),
                           s.mul(a.c0.c1, a.c0.c1));
            MulByXi(r, q) == s.mul(Xi(r), s.add(s.mul(a.c1.c2, a.c0.c1), s.mul(a.c0.c1, a.c1.c2)))
    ensures var s := Fp2(r);
            s.sub(s.sub(s.mul(s.add(a.c1.c1, a.c0.c0), s.add(a.c1.c1, a.c0.c0)), s.mul(a.c1.c1, a.c1.c1)),
                  s.mul(a.c0.c0, a.c0.c0)) == s.add(s.mul(a.c1.c1, a.c0.c0), s.mul(a.c0.c0, a.c1.c1))
    ensures var s := Fp2(r);
            s.sub(s.sub(s.mul(s.add(a.c0.c2, a.c1.c0), s.add(a.c0.c2, a.c1.c0)), s.mul(a.c0.c2, a.c0.c2)),
                  s.mul(a.c1.c0, a.c1.c0)) == s.add(s.mul(a.c0.c2, a.c1.c0), s.mul(a.c1.c0, a.c0.c2))
  {
    var s := Fp2(r);
    Fp2IsRing(r);
    MulByXiIsProduct(r, s.mul(a.c1.c1, a.c1.c1)); MulByXiIsProduct(r, s.mul(a.c0.c2, a.c0.c2));
    MulByXiIsProduct(r, s.mul(a.c1.c2, a.c1.c2));
    MulByXiIsProduct(r, s.add(s.mul(a.c1.c2, a.c0.c1), s.mul(a.c0.c1, a.c1.c2)));
    Karatsuba();
    Apply(s, KARATSUBA, [a.c1.c2, a.c0.c1, a.c1.c2, a.c0.c1]);
    Apply(s, KARATSUBA, [a.c1.c1, a.c0.c0, a.c1.c1, a.c0.c0]);
    Apply(s, KARATSUBA, [a.c0.c2, a.c1.c0, a.c0.c2, a.c1.c0]);
  }

  ghost function Environment<T>(r: Ring<T>, g: F2<T>, a: F12<T>): seq<F2<T>> {
    [Xi(r), g, a.c0.c0, a.c1.c0, a.c0.c1, a.c1.c1, a.c0.c2, a.c1.c2]
  }

  // ---- the condition by coefficients ---------------------------------------------------------

  ghost const FOURTH_POWER :=
    Equation(Mul(Mul(V(0), V(0)), Mul(V(0), V(0))), Add(Sub(C(0), V(0)), Mul(Add(Mul(V(0), V(0)), V(0)),
    Sub(Mul(V(0), V(0)), Sub(V(0), C(1))))))

  lemma FourthPower() ensures Valid(FOURTH_POWER) {}

  ghost const UNIT_G :=
    Equation(Mul(V(0), Sub(C(1), V(0))), Add(C(1), Mul(Sub(C(0), C(1)), Sub(Mul(V(0), V(0)), Sub(V(0), C(1))))))

  lemma UnitG() ensures Valid(UNIT_G) {}

  ghost const UNIT_G_LESS_ONE :=
    Equation(Mul(Sub(C(0), V(0)), Sub(V(0), C(1))), Add(C(1), Mul(Sub(C(0), C(1)), Sub(Mul(V(0), V(0)), Sub(V(0),
    C(1))))))

  lemma UnitGLessOne() ensures Valid(UNIT_G_LESS_ONE) {}

  // The powers of g21 as linear polynomials in it, and its units.
  lemma Powers<T(!new)>(r: Ring<T>, g: Gammas<T>)
    requires IsRing(r) && GoodGammas(r, g)
    ensures var s, u := Fp2(r), Quad(g.g21, r.zero);
            && Quad(g.g22, r.zero) == s.sub(u, s.one) && Quad(g.g23, r.zero) == s.sub(s.zero, s.one)
            && Quad(g.g24, r.zero) == s.sub(s.zero, u) && Quad(g.g25, r.zero) == s.sub(s.one, u)
            && s.mul(u, s.sub(s.one, u)) == s.one && s.mul(s.sub(s.one, u), u) == s.one
            && s.mul(s.sub(s.zero, u), s.sub(u, s.one)) == s.one && s.mul(s.one, s.one) == s.one
  {
    var s, u := Fp2(r), Quad(g.g21, r.zero);
    Fp2IsRing(r);
    OneIsInteger(s);
    ScalarsMultiply(r, g.g21, g.g21); ScalarsMultiply(r, g.g22, g.g21); ScalarsMultiply(r, g.g22, g.g22);
    ScalarsMultiply(r, g.g24, g.g21);
    Use(r, r.zero, r.zero, r.zero);
    SubUnique(r, r.zero, r.zero, r.zero);
    assert s.mul(u, u) == s.sub(u, s.one);
    RootPowers(s, u);
    FourthPower(); Apply(s, FOURTH_POWER, [u]);
    CancelDifference(s, s.sub(s.zero, u), s.add(s.mul(u, u), u), s.mul(u, u));
    UnitG(); Apply(s, UNIT_G, [u]);
    UnitGLessOne(); Apply(s, UNIT_G_LESS_ONE, [u]);
    CancelDifference(s, s.one, s.sub(s.zero, s.one), s.mul(u, u));
    Use(s, u, s.sub(s.one, u), u); Use(s, s.one, s.one, s.one);
    FifthPower(s, u);
  }

  ghost const FIFTH_POWER :=
    Equation(Mul(Sub(C(0), V(0)), V(0)), Add(Sub(C(1), V(0)), Mul(Sub(C(0), C(1)), Sub(Mul(V(0), V(0)), Sub(V(0),
    C(1))))))

  lemma FifthPowerValid() ensures Valid(FIFTH_POWER) {}

  lemma FifthPower<T(!new)>(s: Ring<T>, u: T)
    requires IsRing(s) && s.mul(u, u) == s.sub(u, s.one)
    ensures s.mul(s.sub(s.zero, u), u) == s.sub(s.one, u)
  {
    OneIsInteger(s);
    FifthPowerValid(); Apply(s, FIFTH_POWER, [u]);
    CancelDifference(s, s.sub(s.one, u), s.sub(s.zero, s.one), s.mul(u, u));
  }

  ghost const SQUARE_OF_FIFTH :=
    Equation(Mul(Sub(C(1), V(0)), Sub(C(1), V(0))), Add(Sub(C(0), V(0)), Mul(C(1), Sub(Mul(V(0), V(0)), Sub(V(0),
    C(1))))))

  lemma SquareOfFifth() ensures Valid(SQUARE_OF_FIFTH) {}

  // The squares of the powers of g21.
  lemma SquaredPowers<T(!new)>(r: Ring<T>, g: Gammas<T>)
    requires IsRing(r) && GoodGammas(r, g)
    ensures var s, u := Fp2(r), Quad(g.g21, r.zero);
            && s.mul(u, u) == s.sub(u, s.one)
            && s.mul(s.sub(u, s.one), s.sub(u, s.one)) == s.sub(s.zero, u)
            && s.mul(s.sub(s.zero, s.one), s.sub(s.zero, s.one)) == s.one
            && s.mul(s.sub(s.zero, u), s.sub(s.zero, u)) == s.sub(u, s.one)
            && s.mul(s.sub(s.one, u), s.sub(s.one, u)) == s.sub(s.zero, u)
  {
    var s, u := Fp2(r), Quad(g.g21, r.zero);
    Fp2IsRing(r);
    OneIsInteger(s);
    Powers(r, g);
    ScalarsMultiply(r, g.g21, g.g21); ScalarsMultiply(r, g.g22, g.g22);
    OppositeSquares(s, u); OppositeSquares(s, s.one);
    Use(s, s.one, s.one, s.one);
    SquareOfFifth(); Apply(s, SQUARE_OF_FIFTH, [u]);
    CancelDifference(s, s.sub(s.zero, u), s.one, s.mul(u, u));
  }

  // frobenius_square multiplies the coefficient of w^i by the i-th power of g21.
  lemma SquareCoefficients<T(!new)>(r: Ring<T>, g: Gammas<T>, a: F12<T>)
    requires IsRing(r) && GoodGammas(r, g)
    ensures var s, u := Fp2(r), Quad(g.g21, r.zero);
            FrobeniusSquare(r, g, a) ==
              Quad(Cubic(a.c0.c0, s.mul(a.c0.c1, s.sub(u, s.one)), s.mul(a.c0.c2, s.sub(s.zero, u))),
                   Cubic(s.mul(a.c1.c0, u), s.mul(a.c1.c1, s.sub(s.zero, s.one)), s.mul(a.c1.c2, s.sub(s.one, u))))
  {
    Powers(r, g);
    ScalarIsProduct(r, a.c0.c1, g.g22); ScalarIsProduct(r, a.c0.c2, g.g24); ScalarIsProduct(r, a.c1.c0, g.g21);
    ScalarIsProduct(r, a.c1.c1, g.g23); ScalarIsProduct(r, a.c1.c2, g.g25);
  }

  lemma FourthCoefficients<T(!new)>(r: Ring<T>, g: Gammas<T>, a: F12<T>)
    requires IsRing(r) && GoodGammas(r, g)
    ensures var s, u := Fp2(r), Quad(g.g21, r.zero);
            FrobeniusSquare(r, g, FrobeniusSquare(r, g, a)) ==
              Quad(Cubic(a.c0.c0, s.mul(a.c0.c1, s.sub(s.zero, u)), s.mul(a.c0.c2, s.sub(u, s.one))),
                   Cubic(s.mul(a.c1.c0, s.sub(u, s.one)), s.mul(a.c1.c1, s.one), s.mul(a.c1.c2, s.sub(s.zero, u))))
  {
    var s, u := Fp2(r), Quad(g.g21, r.zero);
    Fp2IsRing(r);
    SquareCoefficients(r, g, a);
    SquareCoefficients(r, g, FrobeniusSquare(r, g, a));
    SquaredPowers(r, g);
    Use(s, a.c0.c1, s.sub(u, s.one), s.sub(u, s.one)); Use(s, a.c0.c2, s.sub(s.zero, u), s.sub(s.zero, u));
    Use(s, a.c1.c0, u, u); Use(s, a.c1.c1, s.sub(s.zero, s.one), s.sub(s.zero, s.one));
    Use(s, a.c1.c2, s.sub(s.one, u), s.sub(s.one, u));
  }

  ghost const TWICE_PLUS_ONCE :=
    Equation(Add(Add(Add(V(0), V(1)), Add(V(0), V(1))), V(0)), Add(Mul(C(3), V(0)), Mul(C(2), V(1))))

  lemma TwicePlusOnce() ensures Valid(TWICE_PLUS_ONCE) {}

  ghost const TWICE_MINUS_ONCE :=
    Equation(Add(Add(Sub(V(0), V(1)), Sub(V(0), V(1))), V(0)), Sub(Mul(C(3), V(0)), Mul(C(2), V(1))))

  lemma TwiceMinusOnce() ensures Valid(TWICE_MINUS_ONCE) {}

  lemma UnitCancels<T(!new)>(s: Ring<T>, u: T, v: T, x: T, y: T)
    requires IsRing(s) && s.mul(v, u) == s.one && s.mul(u, x) == s.mul(u, y)
    ensures x == y
  {
    Use(s, v, u, x); Use(s, v, u, y);
    Use(s, s.one, x, x); Use(s, s.one, y, y); Use(s, x, s.one, s.one); Use(s, y, s.one, s.one);
  }

  ghost const CONDITION_SIDE_0: Expr :=
    Sub(Add(Mul(V(2), V(2)), Mul(V(0), Mul(V(5), V(5)))), Mul(V(0), Add(Mul(V(3), V(7)), Mul(V(4), V(6)))))
  ghost const TARGET_SIDE_0: Expr :=
    V(2)

  ghost const CONDITION_0 :=
    Equation(Add(Add(Mul(V(2), V(2)), Mul(V(0), Add(Mul(Mul(V(4), Sub(C(0), V(1))), V(6)), Mul(Mul(V(6), Sub(V(1),
    C(1))), V(4))))), Mul(V(0), Add(Add(Mul(Mul(V(3), Sub(V(1), C(1))), V(7)), Mul(Mul(V(5), C(1)), V(5))),
    Mul(Mul(V(7), Sub(C(0), V(1))), V(3))))), Mul(C(1), CONDITION_SIDE_0))

  lemma Condition0() ensures Valid(CONDITION_0) {}

  ghost const TARGET_0 :=
    Equation(V(2), Mul(C(1), TARGET_SIDE_0))

  lemma Target0() ensures Valid(TARGET_0) {}

  ghost const SQUARING_0 :=
    Equation(Add(Add(Mul(V(2), V(2)), Mul(V(0), Add(Mul(V(4), V(6)), Mul(V(6), V(4))))), Mul(V(0), Add(Add(Mul(V(3),
    V(7)), Mul(V(5), V(5))), Mul(V(7), V(3))))), Add(Sub(Mul(C(3), Add(Mul(V(0), Mul(V(5), V(5))), Mul(V(2),
    V(2)))), Mul(C(2), V(2))), Mul(C(-2), Sub(CONDITION_SIDE_0, TARGET_SIDE_0))))

  lemma Squaring0() ensures Valid(SQUARING_0) {}

  ghost const CONDITION_SIDE_1: Expr :=
    Add(Mul(V(2), V(3)), Mul(V(0), Sub(Mul(V(5), V(6)), Add(Mul(V(4), V(7)), Mul(V(4), V(7))))))
  ghost const TARGET_SIDE_1: Expr :=
    V(3)

  ghost const CONDITION_1 :=
    Equation(Add(Add(Mul(V(2), V(3)), Mul(V(0), Add(Mul(Mul(V(4), Sub(C(0), V(1))), V(7)), Mul(Mul(V(6), Sub(V(1),
    C(1))), V(5))))), Add(Mul(Mul(V(3), Sub(V(1), C(1))), V(2)), Mul(V(0), Add(Mul(Mul(V(5), C(1)), V(6)),
    Mul(Mul(V(7), Sub(C(0), V(1))), V(4)))))), Mul(V(1), CONDITION_SIDE_1))

  lemma Condition1() ensures Valid(CONDITION_1) {}

  ghost const TARGET_1 :=
    Equation(Mul(V(3), V(1)), Mul(V(1), TARGET_SIDE_1))

  lemma Target1() ensures Valid(TARGET_1) {}

  ghost const SQUARING_1 :=
    Equation(Add(Add(Mul(V(2), V(3)), Mul(V(0), Add(Mul(V(4), V(7)), Mul(V(6), V(5))))), Add(Mul(V(3), V(2)),
    Mul(V(0), Add(Mul(V(5), V(6)), Mul(V(7), V(4)))))), Add(Add(Mul(C(3), Mul(V(0), Add(Mul(V(7), V(4)), Mul(V(4),
    V(7))))), Mul(C(2), V(3))), Mul(C(2), Sub(CONDITION_SIDE_1, TARGET_SIDE_1))))

  lemma Squaring1() ensures Valid(SQUARING_1) {}

  ghost const CONDITION_SIDE_2: Expr :=
    Add(Sub(Sub(Mul(V(3), V(3)), Mul(V(2), V(4))), Mul(V(0), Mul(V(5), V(7)))), Mul(V(0), Mul(V(6), V(6))))
  ghost const TARGET_SIDE_2: Expr :=
    V(4)

  ghost const CONDITION_2 :=
    Equation(Add(Add(Add(Mul(V(2), V(4)), Mul(Mul(V(4), Sub(C(0), V(1))), V(2))), Mul(V(0), Mul(Mul(V(6), Sub(V(1),
    C(1))), V(6)))), Add(Mul(Mul(V(3), Sub(V(1), C(1))), V(3)), Mul(V(0), Add(Mul(Mul(V(5), C(1)), V(7)),
    Mul(Mul(V(7), Sub(C(0), V(1))), V(5)))))), Mul(Sub(V(1), C(1)), CONDITION_SIDE_2))

  lemma Condition2() ensures Valid(CONDITION_2) {}

  ghost const TARGET_2 :=
    Equation(Mul(V(4), Sub(V(1), C(1))), Mul(Sub(V(1), C(1)), TARGET_SIDE_2))

  lemma Target2() ensures Valid(TARGET_2) {}

  ghost const SQUARING_2 :=
    Equation(Add(Add(Add(Mul(V(2), V(4)), Mul(V(4), V(2))), Mul(V(0), Mul(V(6), V(6)))), Add(Mul(V(3), V(3)),
    Mul(V(0), Add(Mul(V(5), V(7)), Mul(V(7), V(5)))))), Add(Sub(Mul(C(3), Add(Mul(V(0), Mul(V(6), V(6))), Mul(V(3),
    V(3)))), Mul(C(2), V(4))), Mul(C(-2), Sub(CONDITION_SIDE_2, TARGET_SIDE_2))))

  lemma Squaring2() ensures Valid(SQUARING_2) {}

  ghost const CONDITION_SIDE_3: Expr :=
    Sub(Sub(Add(Mul(V(2), V(5)), Mul(V(2), V(5))), Mul(V(3), V(4))), Mul(V(0), Mul(V(6), V(7))))
  ghost const TARGET_SIDE_3: Expr :=
    Sub(C(0), V(5))

  ghost const CONDITION_3 :=
    Equation(Add(Add(Add(Mul(V(2), V(5)), Mul(Mul(V(4), Sub(C(0), V(1))), V(3))), Mul(V(0), Mul(Mul(V(6), Sub(V(1),
    C(1))), V(7)))), Add(Add(Mul(Mul(V(3), Sub(V(1), C(1))), V(4)), Mul(Mul(V(5), C(1)), V(2))), Mul(V(0),
    Mul(Mul(V(7), Sub(C(0), V(1))), V(6))))), Mul(C(1), CONDITION_SIDE_3))

  lemma Condition3() ensures Valid(CONDITION_3) {}

  ghost const TARGET_3 :=
    Equation(Mul(V(5), Sub(C(0), C(1))), Mul(C(1), TARGET_SIDE_3))

  lemma Target3() ensures Valid(TARGET_3) {}

  ghost const SQUARING_3 :=
    Equation(Add(Add(Add(Mul(V(2), V(5)), Mul(V(4), V(3))), Mul(V(0), Mul(V(6), V(7)))), Add(Add(Mul(V(3), V(4)),
    Mul(V(5), V(2))), Mul(V(0), Mul(V(7), V(6))))), Add(Add(Mul(C(3), Add(Mul(V(5), V(2)), Mul(V(2), V(5)))),
    Mul(C(2), V(5))), Mul(C(-2), Sub(CONDITION_SIDE_3, TARGET_SIDE_3))))

  lemma Squaring3() ensures Valid(SQUARING_3) {}

  ghost const CONDITION_SIDE_4: Expr :=
    Sub(Sub(Add(Mul(V(2), V(6)), Mul(V(3), V(5))), Mul(V(4), V(4))), Mul(V(0), Mul(V(7), V(7))))
  ghost const TARGET_SIDE_4: Expr :=
    Sub(C(0), V(6))

  ghost const CONDITION_4 :=
    Equation(Add(Add(Add(Mul(V(2), V(6)), Mul(Mul(V(4), Sub(C(0), V(1))), V(4))), Mul(Mul(V(6), Sub(V(1), C(1))),
    V(2))), Add(Add(Mul(Mul(V(3), Sub(V(1), C(1))), V(5)), Mul(Mul(V(5), C(1)), V(3))), Mul(V(0), Mul(Mul(V(7),
    Sub(C(0), V(1))), V(7))))), Mul(V(1), CONDITION_SIDE_4))

  lemma Condition4() ensures Valid(CONDITION_4) {}

  ghost const TARGET_4 :=
    Equation(Mul(V(6), Sub(C(0), V(1))), Mul(V(1), TARGET_SIDE_4))

  lemma Target4() ensures Valid(TARGET_4) {}

  ghost const SQUARING_4 :=
    Equation(Add(Add(Add(Mul(V(2), V(6)), Mul(V(4), V(4))), Mul(V(6), V(2))), Add(Add(Mul(V(3), V(5)), Mul(V(5),
    V(3))), Mul(V(0), Mul(V(7), V(7))))), Add(Sub(Mul(C(3), Add(Mul(V(0), Mul(V(7), V(7))), Mul(V(4), V(4)))),
    Mul(C(2), V(6))), Mul(C(2), Sub(CONDITION_SIDE_4, TARGET_SIDE_4))))

  lemma Squaring4() ensures Valid(SQUARING_4) {}

  ghost const CONDITION_SIDE_5: Expr :=
    Sub(Add(Mul(V(2), V(7)), Mul(V(4), V(5))), Add(Mul(V(3), V(6)), Mul(V(3), V(6))))
  ghost const TARGET_SIDE_5: Expr :=
    V(7)

  ghost const CONDITION_5 :=
    Equation(Add(Add(Add(Mul(V(2), V(7)), Mul(Mul(V(4), Sub(C(0), V(1))), V(5))), Mul(Mul(V(6), Sub(V(1), C(1))),
    V(3))), Add(Add(Mul(Mul(V(3), Sub(V(1), C(1))), V(6)), Mul(Mul(V(5), C(1)), V(4))), Mul(Mul(V(7), Sub(C(0),
    V(1))), V(2)))), Mul(Sub(C(1), V(1)), CONDITION_SIDE_5))

  lemma Condition5() ensures Valid(CONDITION_5) {}

  ghost const TARGET_5 :=
    Equation(Mul(V(7), Sub(C(1), V(1))), Mul(Sub(C(1), V(1)), TARGET_SIDE_5))

  lemma Target5() ensures Valid(TARGET_5) {}

  ghost const SQUARING_5 :=
    Equation(Add(Add(Add(Mul(V(2), V(7)), Mul(V(4), V(5))), Mul(V(6), V(3))), Add(Add(Mul(V(3), V(6)), Mul(V(5),
    V(4))), Mul(V(7), V(2)))), Add(Add(Mul(C(3), Add(Mul(V(6), V(3)), Mul(V(3), V(6)))), Mul(C(2), V(7))), Mul(C(2),
    Sub(CONDITION_SIDE_5, TARGET_SIDE_5))))

  lemma Squaring5() ensures Valid(SQUARING_5) {}

  lemma SquareFormula0<T(!new)>(r: Ring<T>, u: F2<T>, a: F12<T>)
    requires IsRing(r)
    ensures var s, env := Fp2(r), Environment(r, u, a);
            Fp12(r).mul(a, a).c0.c0 ==
              s.add(CyclotomicSquare(r, a).c0.c0,
                    s.mul(OfInt(s, -2), s.sub(Eval(s, CONDITION_SIDE_0, env), Eval(s, TARGET_SIDE_0, env))))
  {
    var s := Fp2(r);
    Fp2IsRing(r);
    ProductByCoefficients(r, a, a);
    SquareByCoefficients(r, a);
    TwiceMinusOnce();
    Apply(s, TWICE_MINUS_ONCE, [s.add(s.mul(Xi(r), s.mul(a.c1.c1, a.c1.c1)), s.mul(a.c0.c0, a.c0.c0)), a.c0.c0]);
    Squaring0(); Apply(s, SQUARING_0, Environment(r, u, a));
  }

  lemma ConditionBalanced0<T(!new)>(r: Ring<T>, g: Gammas<T>, a: F12<T>)
    requires IsRing(r) && GoodGammas(r, g) && InCyclotomicSubgroup(r, g, a)
    ensures var s, u := Fp2(r), Quad(g.g21, r.zero);
            var env := Environment(r, u, a);
            s.mul(s.one, Eval(s, CONDITION_SIDE_0, env)) == s.mul(s.one, Eval(s, TARGET_SIDE_0, env))
  {
    var s, u := Fp2(r), Quad(g.g21, r.zero);
    var env := Environment(r, u, a);
    Fp2IsRing(r);
    OneIsInteger(s);
    SquareCoefficients(r, g, a);
    FourthCoefficients(r, g, a);
    ProductByCoefficients(r, FrobeniusSquare(r, g, FrobeniusSquare(r, g, a)), a);
    Condition0(); Apply(s, CONDITION_0, env);
    Target0(); Apply(s, TARGET_0, env);
  }

  lemma SquareFormula1<T(!new)>(r: Ring<T>, u: F2<T>, a: F12<T>)
    requires IsRing(r)
    ensures var s, env := Fp2(r), Environment(r, u, a);
            Fp12(r).mul(a, a).c1.c0 ==
              s.add(CyclotomicSquare(r, a).c1.c0,
                    s.mul(OfInt(s, 2), s.sub(Eval(s, CONDITION_SIDE_1, env), Eval(s, TARGET_SIDE_1, env))))
  {
    var s := Fp2(r);
    Fp2IsRing(r);
    ProductByCoefficients(r, a, a);
    SquareByCoefficients(r, a);
    TwicePlusOnce();
    Apply(s, TWICE_PLUS_ONCE, [s.mul(Xi(r), s.add(s.mul(a.c1.c2, a.c0.c1), s.mul(a.c0.c1, a.c1.c2))), a.c1.c0]);
    Squaring1(); Apply(s, SQUARING_1, Environment(r, u, a));
  }

  lemma ConditionBalanced1<T(!new)>(r: Ring<T>, g: Gammas<T>, a: F12<T>)
    requires IsRing(r) && GoodGammas(r, g) && InCyclotomicSubgroup(r, g, a)
    ensures var s, u := Fp2(r), Quad(g.g21, r.zero);
            var env := Environment(r, u, a);
            s.mul(u, Eval(s, CONDITION_SIDE_1, env)) == s.mul(u, Eval(s, TARGET_SIDE_1, env))
  {
    var s, u := Fp2(r), Quad(g.g21, r.zero);
    var env := Environment(r, u, a);
    Fp2IsRing(r);
    OneIsInteger(s);
    SquareCoefficients(r, g, a);
    FourthCoefficients(r, g, a);
    ProductByCoefficients(r, FrobeniusSquare(r, g, FrobeniusSquare(r, g, a)), a);
    Condition1(); Apply(s, CONDITION_1, env);
    Target1(); Apply(s, TARGET_1, env);
  }

  lemma SquareFormula2<T(!new)>(r: Ring<T>, u: F2<T>, a: F12<T>)
    requires IsRing(r)
    ensures var s, env := Fp2(r), Environment(r, u, a);
            Fp12(r).mul(a, a).c0.c1 ==
              s.add(CyclotomicSquare(r, a).c0.c1,
                    s.mul(OfInt(s, -2), s.sub(Eval(s, CONDITION_SIDE_2, env), Eval(s, TARGET_SIDE_2, env))))
  {
    var s := Fp2(r);
    Fp2IsRing(r);
    ProductByCoefficients(r, a, a);
    SquareByCoefficients(r, a);
    TwiceMinusOnce();
    Apply(s, TWICE_MINUS_ONCE, [s.add(s.mul(Xi(r), s.mul(a.c0.c2, a.c0.c2)), s.mul(a.c1.c0, a.c1.c0)), a.c0.c1]);
    Squaring2(); Apply(s, SQUARING_2, Environment(r, u, a));
  }

  lemma ConditionBalanced2<T(!new)>(r: Ring<T>, g: Gammas<T>, a: F12<T>)
    requires IsRing(r) && GoodGammas(r, g) && InCyclotomicSubgroup(r, g, a)
    ensures var s, u := Fp2(r), Quad(g.g21, r.zero);
            var env := Environment(r, u, a);
            s.mul(s.sub(u, s.one), Eval(s, CONDITION_SIDE_2, env)) ==
                s.mul(s.sub(u, s.one), Eval(s, TARGET_SIDE_2, env))
  {
    var s, u := Fp2(r), Quad(g.g21, r.zero);
    var env := Environment(r, u, a);
    Fp2IsRing(r);
    OneIsInteger(s);
    SquareCoefficients(r, g, a);
    FourthCoefficients(r, g, a);
    ProductByCoefficients(r, FrobeniusSquare(r, g, FrobeniusSquare(r, g, a)), a);
    Condition2(); Apply(s, CONDITION_2, env);
    Target2(); Apply(s, TARGET_2, env);
  }

  lemma SquareFormula3<T(!new)>(r: Ring<T>, u: F2<T>, a: F12<T>)
    requires IsRing(r)
    ensures var s, env := Fp2(r), Environment(r, u, a);
            Fp12(r).mul(a, a).c1.c1 ==
              s.add(CyclotomicSquare(r, a).c1.c1,
                    s.mul(OfInt(s, -2), s.sub(Eval(s, CONDITION_SIDE_3, env), Eval(s, TARGET_SIDE_3, env))))
  {
    var s := Fp2(r);
    Fp2IsRing(r);
    ProductByCoefficients(r, a, a);
    SquareByCoefficients(r, a);
    TwicePlusOnce(); Apply(s, TWICE_PLUS_ONCE, [s.add(s.mul(a.c1.c1, a.c0.c0), s.mul(a.c0.c0, a.c1.c1)), a.c1.c1]);
    Squaring3(); Apply(s, SQUARING_3, Environment(r, u, a));
  }

  lemma ConditionBalanced3<T(!new)>(r: Ring<T>, g: Gammas<T>, a: F12<T>)
    requires IsRing(r) && GoodGammas(r, g) && InCyclotomicSubgroup(r, g, a)
    ensures var s, u := Fp2(r), Quad(g.g21, r.zero);
            var env := Environment(r, u, a);
            s.mul(s.one, Eval(s, CONDITION_SIDE_3, env)) == s.mul(s.one, Eval(s, TARGET_SIDE_3, env))
  {
    var s, u := Fp2(r), Quad(g.g21, r.zero);
    var env := Environment(r, u, a);
    Fp2IsRing(r);
    OneIsInteger(s);
    SquareCoefficients(r, g, a);
    FourthCoefficients(r, g, a);
    ProductByCoefficients(r, FrobeniusSquare(r, g, FrobeniusSquare(r, g, a)), a);
    Condition3(); Apply(s, CONDITION_3, env);
    Target3(); Apply(s, TARGET_3, env);
  }

  lemma SquareFormula4<T(!new)>(r: Ring<T>, u: F2<T>, a: F12<T>)
    requires IsRing(r)
    ensures var s, env := Fp2(r), Environment(r, u, a);
            Fp12(r).mul(a, a).c0.c2 ==
              s.add(CyclotomicSquare(r, a).c0.c2,
                    s.mul(OfInt(s, 2), s.sub(Eval(s, CONDITION_SIDE_4, env), Eval(s, TARGET_SIDE_4, env))))
  {
    var s := Fp2(r);
    Fp2IsRing(r);
    ProductByCoefficients(r, a, a);
    SquareByCoefficients(r, a);
    TwiceMinusOnce();
    Apply(s, TWICE_MINUS_ONCE, [s.add(s.mul(Xi(r), s.mul(a.c1.c2, a.c1.c2)), s.mul(a.c0.c1, a.c0.c1)), a.c0.c2]);
    Squaring4(); Apply(s, SQUARING_4, Environment(r, u, a));
  }

  lemma ConditionBalanced4<T(!new)>(r: Ring<T>, g: Gammas<T>, a: F12<T>)
    requires IsRing(r) && GoodGammas(r, g) && InCyclotomicSubgroup(r, g, a)
    ensures var s, u := Fp2(r), Quad(g.g21, r.zero);
            var env := Environment(r, u, a);
            s.mul(u, Eval(s, CONDITION_SIDE_4, env)) == s.mul(u, Eval(s, TARGET_SIDE_4, env))
  {
    var s, u := Fp2(r), Quad(g.g21, r.zero);
    var env := Environment(r, u, a);
    Fp2IsRing(r);
    OneIsInteger(s);
    SquareCoefficients(r, g, a);
    FourthCoefficients(r, g, a);
    ProductByCoefficients(r, FrobeniusSquare(r, g, FrobeniusSquare(r, g, a)), a);
    Condition4(); Apply(s, CONDITION_4, env);
    Target4(); Apply(s, TARGET_4, env);
  }

  lemma SquareFormula5<T(!new)>(r: Ring<T>, u: F2<T>, a: F12<T>)
    requires IsRing(r)
    ensures var s, env := Fp2(r), Environment(r, u, a);
            Fp12(r).mul(a, a).c1.c2 ==
              s.add(CyclotomicSquare(r, a).c1.c2,
                    s.mul(OfInt(s, 2), s.sub(Eval(s, CONDITION_SIDE_5, env), Eval(s, TARGET_SIDE_5, env))))
  {
    var s := Fp2(r);
    Fp2IsRing(r);
    ProductByCoefficients(r, a, a);
    SquareByCoefficients(r, a);
    TwicePlusOnce(); Apply(s, TWICE_PLUS_ONCE, [s.add(s.mul(a.c0.c2, a.c1.c0), s.mul(a.c1.c0, a.c0.c2)), a.c1.c2]);
    Squaring5(); Apply(s, SQUARING_5, Environment(r, u, a));
  }

  lemma ConditionBalanced5<T(!new)>(r: Ring<T>, g: Gammas<T>, a: F12<T>)
    requires IsRing(r) && GoodGammas(r, g) && InCyclotomicSubgroup(r, g, a)
    ensures var s, u := Fp2(r), Quad(g.g21, r.zero);
            var env := Environment(r, u, a);
            s.mul(s.sub(s.one, u), Eval(s, CONDITION_SIDE_5, env)) ==
                s.mul(s.sub(s.one, u), Eval(s, TARGET_SIDE_5, env))
  {
    var s, u := Fp2(r), Quad(g.g21, r.zero);
    var env := Environment(r, u, a);
    Fp2IsRing(r);
    OneIsInteger(s);
    SquareCoefficients(r, g, a);
    FourthCoefficients(r, g, a);
    ProductByCoefficients(r, FrobeniusSquare(r, g, FrobeniusSquare(r, g, a)), a);
    Condition5(); Apply(s, CONDITION_5, env);
    Target5(); Apply(s, TARGET_5, env);
  }

  // The condition, divided by a unit, turns the square into the cyclotomic formula.
  lemma FormulaIsSquare<T(!new)>(s: Ring<T>, u: T, v: T, x: T, y: T, formula: T, square: T, n: int)
    requires IsRing(s) && s.mul(v, u) == s.one && s.mul(u, x) == s.mul(u, y)
    requires square == s.add(formula, s.mul(OfInt(s, n), s.sub(x, y)))
    ensures formula == square
  {
    UnitCancels(s, u, v, x, y);
    CancelDifference(s, formula, OfInt(s, n), x);
  }

  lemma EvenCoefficients<T(!new)>(r: Ring<T>, g: Gammas<T>, a: F12<T>)
    requires IsRing(r) && GoodGammas(r, g) && InCyclotomicSubgroup(r, g, a)
    ensures CyclotomicSquare(r, a).c0 == Fp12(r).mul(a, a).c0
  {
    var s, u := Fp2(r), Quad(g.g21, r.zero);
    var env, formula, square := Environment(r, u, a), CyclotomicSquare(r, a), Fp12(r).mul(a, a);
    Fp2IsRing(r);
    Powers(r, g);
    ConditionBalanced0(r, g, a); SquareFormula0(r, u, a);
    FormulaIsSquare(s, s.one, s.one, Eval(s, CONDITION_SIDE_0, env), Eval(s, TARGET_SIDE_0, env),
                    formula.c0.c0, square.c0.c0, -2);
    ConditionBalanced2(r, g, a); SquareFormula2(r, u, a);
    FormulaIsSquare(s, s.sub(u, s.one), s.sub(s.zero, u), Eval(s, CONDITION_SIDE_2, env), Eval(s, TARGET_SIDE_2, env),
                    formula.c0.c1, square.c0.c1, -2);
    ConditionBalanced4(r, g, a); SquareFormula4(r, u, a);
    FormulaIsSquare(s, u, s.sub(s.one, u), Eval(s, CONDITION_SIDE_4, env), Eval(s, TARGET_SIDE_4, env),
                    formula.c0.c2, square.c0.c2, 2);
  }

  lemma OddCoefficients<T(!new)>(r: Ring<T>, g: Gammas<T>, a: F12<T>)
    requires IsRing(r) && GoodGammas(r, g) && InCyclotomicSubgroup(r, g, a)
    ensures CyclotomicSquare(r, a).c1 == Fp12(r).mul(a, a).c1
  {
    var s, u := Fp2(r), Quad(g.g21, r.zero);
    var env, formula, square := Environment(r, u, a), CyclotomicSquare(r, a), Fp12(r).mul(a, a);
    Fp2IsRing(r);
    Powers(r, g);
    ConditionBalanced1(r, g, a); SquareFormula1(r, u, a);
    FormulaIsSquare(s, u, s.sub(s.one, u), Eval(s, CONDITION_SIDE_1, env), Eval(s, TARGET_SIDE_1, env),
                    formula.c1.c0, square.c1.c0, 2);
    ConditionBalanced3(r, g, a); SquareFormula3(r, u, a);
    FormulaIsSquare(s, s.one, s.one, Eval(s, CONDITION_SIDE_3, env), Eval(s, TARGET_SIDE_3, env),
                    formula.c1.c1, square.c1.c1, -2);
    ConditionBalanced5(r, g, a); SquareFormula5(r, u, a);
    FormulaIsSquare(s, s.sub(s.one, u), u, Eval(s, CONDITION_SIDE_5, env), Eval(s, TARGET_SIDE_5, env),
                    formula.c1.c2, square.c1.c2, 2);
  }

  /** In the cyclotomic subgroup the Granger-Scott formula, complex squaring and the product of f with itself agree. */
  lemma CyclotomicSquareIsSquare<T(!new)>(r: Ring<T>, g: Gammas<T>, f: F12<T>)
    requires IsRing(r) && GoodGammas(r, g) && InCyclotomicSubgroup(r, g, f)
    ensures CyclotomicSquare(r, f) == Fp12Square(r, f) == Fp12Mul(r, f, f) == Fp12(r).mul(f, f)
  {
    EvenCoefficients(r, g, f);
    OddCoefficients(r, g, f);
    Fp12SquareIsSquare(r, f);
    Fp12MulIsProduct(r, f, f);
  }
}
