/** The Frobenius maps of Fp12. */
module FrobeniusMaps {
  import opened Rings
  import opened Solver
  import opened Extensions
  import opened Tower

  // ---- twisting an extension by a homomorphism of its base ---------------------------

  ghost function CubicTwist<T>(s: Ring<T>, f: T -> T, e: T, a: Cubic<T>): Cubic<T> {
    Cubic(f(a.c0), s.mul(f(a.c1), e), s.mul(f(a.c2), s.mul(e, e)))
  }

  ghost function QuadTwist<T>(s: Ring<T>, f: T -> T, d: T, a: Quad<T>): Quad<T> {
    Quad(f(a.c0), s.mul(f(a.c1), d))
  }

  // A map that keeps sums and products keeps differences.
  lemma KeepsDifference<S(!new), T(!new)>(r: Ring<S>, s: Ring<T>, h: S -> T, a: S, b: S)
    requires IsRing(r) && IsRing(s) && h(r.add(r.sub(a, b), b)) == s.add(h(r.sub(a, b)), h(b))
    ensures h(r.sub(a, b)) == s.sub(h(a), h(b))
  {
    Use(r, a, b, b);
    SubUnique(s, h(a), h(b), h(r.sub(a, b)));
  }

  ghost const CUBIC_TWIST_0 :=
    Equation(Add(Mul(V(3), V(6)), Mul(Mul(V(2), Mul(V(1), V(0))), Add(Mul(V(4), V(8)), Mul(V(5), V(7))))),
    Add(Mul(V(3), V(6)), Mul(V(2), Add(Mul(Mul(V(4), V(0)), Mul(V(8), V(1))), Mul(Mul(V(5), V(1)), Mul(V(7),
    V(0)))))))

  lemma CubicTwist0() ensures Valid(CUBIC_TWIST_0) {}

  ghost const CUBIC_TWIST_1 :=
    Equation(Mul(Add(Add(Mul(V(3), V(7)), Mul(V(4), V(6))), Mul(Mul(V(2), Mul(V(1), V(0))), Mul(V(5), V(8)))),
    V(0)), Add(Add(Mul(V(3), Mul(V(7), V(0))), Mul(Mul(V(4), V(0)), V(6))), Mul(V(2), Mul(Mul(V(5), V(1)), Mul(V(8),
    Mul(V(0), V(0)))))))

  lemma CubicTwist1() ensures Valid(CUBIC_TWIST_1) {}

  ghost const CUBIC_TWIST_2 :=
    Equation(Mul(Add(Add(Mul(V(3), V(8)), Mul(V(4), V(7))), Mul(V(5), V(6))), Mul(V(0), V(0))), Add(Add(Mul(V(3),
    Mul(V(8), Mul(V(0), V(0)))), Mul(Mul(V(4), V(0)), Mul(V(7), V(0)))), Mul(Mul(V(5), Mul(V(0), V(0))), V(6))))

  lemma CubicTwist2() ensures Valid(CUBIC_TWIST_2) {}

  lemma CubicTwistOfProduct<T(!new)>(s: Ring<T>, k: T, f: T -> T, e: T, a: Cubic<T>, b: Cubic<T>)
    requires IsRing(s) && IsHom(s, s, f) && f(k) == s.mul(k, s.mul(s.mul(e, e), e))
    ensures CubicTwist(s, f, e, CMul(s, k, a, b)) == CMul(s, k, CubicTwist(s, f, e, a), CubicTwist(s, f, e, b))
  {
    var env := [e, s.mul(e, e), k, f(a.c0), f(a.c1), f(a.c2), f(b.c0), f(b.c1), f(b.c2)];
    ImageOfProduct(s, k, f, a, b);
    CubicTwist0(); Apply(s, CUBIC_TWIST_0, env);
    CubicTwist1(); Apply(s, CUBIC_TWIST_1, env);
    CubicTwist2(); Apply(s, CUBIC_TWIST_2, env);
  }

  lemma ImageOfProduct<T(!new)>(s: Ring<T>, k: T, f: T -> T, a: Cubic<T>, b: Cubic<T>)
    requires IsHom(s, s, f)
    ensures var c := CMul(s, k, a, b);
            var d := CMul(s, f(k), Cubic(f(a.c0), f(a.c1), f(a.c2)), Cubic(f(b.c0), f(b.c1), f(b.c2)));
            d == Cubic(f(c.c0), f(c.c1), f(c.c2))
  {
    UseHom(s, s, f, a.c0, b.c0); UseHom(s, s, f, a.c1, b.c1); UseHom(s, s, f, a.c2, b.c2);
    UseHom(s, s, f, a.c0, b.c1); UseHom(s, s, f, a.c1, b.c0); UseHom(s, s, f, a.c0, b.c2);
    UseHom(s, s, f, a.c2, b.c0); UseHom(s, s, f, a.c1, b.c2); UseHom(s, s, f, a.c2, b.c1);
    var x, y, z := s.add(s.mul(a.c1, b.c2), s.mul(a.c2, b.c1)), s.add(s.mul(a.c0, b.c1), s.mul(a.c1, b.c0)),
                   s.add(s.mul(a.c0, b.c2), s.mul(a.c1, b.c1));
    UseHom(s, s, f, s.mul(a.c1, b.c2), s.mul(a.c2, b.c1)); UseHom(s, s, f, k, x);
    UseHom(s, s, f, s.mul(a.c0, b.c0), s.mul(k, x));
    UseHom(s, s, f, s.mul(a.c0, b.c1), s.mul(a.c1, b.c0)); UseHom(s, s, f, k, s.mul(a.c2, b.c2));
    UseHom(s, s, f, y, s.mul(k, s.mul(a.c2, b.c2)));
    UseHom(s, s, f, s.mul(a.c0, b.c2), s.mul(a.c1, b.c1));
    UseHom(s, s, f, z, s.mul(a.c2, b.c0));
  }

  lemma CubicTwistIsHom<T(!new)>(s: Ring<T>, k: T, f: T -> T, e: T, h: Cubic<T> -> Cubic<T>)
    requires IsRing(s) && IsHom(s, s, f) && f(k) == s.mul(k, s.mul(s.mul(e, e), e))
    requires forall a: Cubic<T> :: h(a) == CubicTwist(s, f, e, a)
    ensures IsHom(CubicRing(s, k), CubicRing(s, k), h)
  {
    var c := CubicRing(s, k);
    CubicIsRing(s, k);
    MulZero(s, e); MulZero(s, s.mul(e, e));
    forall a: Cubic<T>, b: Cubic<T> ensures h(c.add(a, b)) == c.add(h(a), h(b)) {
      UseHom(s, s, f, a.c0, b.c0); UseHom(s, s, f, a.c1, b.c1); UseHom(s, s, f, a.c2, b.c2);
      var e2 := s.mul(e, e);
      Use(s, e, f(a.c1), f(b.c1)); Use(s, f(a.c1), e, e); Use(s, f(b.c1), e, e); Use(s, s.add(f(a.c1), f(b.c1)), e, e);
      Use(s, e2, f(a.c2), f(b.c2)); Use(s, f(a.c2), e2, e); Use(s, f(b.c2), e2, e);
      Use(s, s.add(f(a.c2), f(b.c2)), e2, e);
    }
    forall a: Cubic<T>, b: Cubic<T> ensures HomLaws(c, c, h, a, b) {
      CubicTwistOfProduct(s, k, f, e, a, b);
      KeepsDifference(c, c, h, a, b);
    }
  }

  ghost const QUAD_TWIST_0 :=
    Equation(Add(Mul(V(0), V(2)), Mul(Mul(V(4), Mul(V(5), V(5))), Mul(V(1), V(3)))), Add(Mul(V(0), V(2)), Mul(V(4),
    Mul(Mul(V(1), V(5)), Mul(V(3), V(5))))))

  lemma QuadTwist0() ensures Valid(QUAD_TWIST_0) {}

  ghost const QUAD_TWIST_1 :=
    Equation(Mul(Add(Mul(V(0), V(3)), Mul(V(1), V(2))), V(5)), Add(Mul(V(0), Mul(V(3), V(5))), Mul(Mul(V(1), V(5)),
    V(2))))

  lemma QuadTwist1() ensures Valid(QUAD_TWIST_1) {}

  lemma QuadTwistIsHom<T(!new)>(s: Ring<T>, k: T, f: T -> T, d: T, h: Quad<T> -> Quad<T>)
    requires IsRing(s) && IsHom(s, s, f) && f(k) == s.mul(k, s.mul(d, d))
    requires forall a: Quad<T> :: h(a) == QuadTwist(s, f, d, a)
    ensures IsHom(QuadRing(s, k), QuadRing(s, k), h)
  {
    var q := QuadRing(s, k);
    QuadIsRing(s, k);
    MulZero(s, d);
    forall a: Quad<T>, b: Quad<T> ensures h(q.add(a, b)) == q.add(h(a), h(b)) {
      UseHom(s, s, f, a.c0, b.c0); UseHom(s, s, f, a.c1, b.c1);
      Use(s, d, f(a.c1), f(b.c1)); Use(s, f(a.c1), d, d); Use(s, f(b.c1), d, d); Use(s, s.add(f(a.c1), f(b.c1)), d, d);
    }
    forall a: Quad<T>, b: Quad<T> ensures HomLaws(q, q, h, a, b) {
      var env := [f(a.c0), f(a.c1), f(b.c0), f(b.c1), k, d];
      UseHom(s, s, f, a.c0, b.c0); UseHom(s, s, f, a.c1, b.c1); UseHom(s, s, f, a.c0, b.c1);
      UseHom(s, s, f, a.c1, b.c0);
      UseHom(s, s, f, k, s.mul(a.c1, b.c1));
      UseHom(s, s, f, s.mul(a.c0, b.c0), s.mul(k, s.mul(a.c1, b.c1)));
      UseHom(s, s, f, s.mul(a.c0, b.c1), s.mul(a.c1, b.c0));
      QuadTwist0(); Apply(s, QUAD_TWIST_0, env);
      QuadTwist1(); Apply(s, QUAD_TWIST_1, env);
      KeepsDifference(q, q, h, a, b);
    }
  }

  ghost const CONJUGATE_PRODUCT_0 :=
    Equation(Sub(Mul(V(0), V(2)), Mul(V(1), V(3))), Sub(Mul(V(0), V(2)), Mul(Sub(C(0), V(1)), Sub(C(0), V(3)))))

  lemma ConjugateProduct0() ensures Valid(CONJUGATE_PRODUCT_0) {}

  ghost const CONJUGATE_PRODUCT_1 :=
    Equation(Sub(C(0), Add(Mul(V(0), V(3)), Mul(V(1), V(2)))), Add(Mul(V(0), Sub(C(0), V(3))), Mul(Sub(C(0), V(1)),
    V(2))))

  lemma ConjugateProduct1() ensures Valid(CONJUGATE_PRODUCT_1) {}

  ghost const CONJUGATE_SUM :=
    Equation(Sub(C(0), Add(V(0), V(1))), Add(Sub(C(0), V(0)), Sub(C(0), V(1))))

  lemma ConjugateSum() ensures Valid(CONJUGATE_SUM) {}

  /** Conjugation of Fp2 is a ring homomorphism and its own inverse. */
  lemma ConjugationIsHom<T(!new)>(r: Ring<T>, h: F2<T> -> F2<T>)
    requires IsRing(r) && forall a: F2<T> :: h(a) == Fp2Conjugate(r, a)
    ensures IsHom(Fp2(r), Fp2(r), h) && forall a: F2<T> :: h(h(a)) == a
  {
    var s := Fp2(r);
    Fp2IsRing(r);
    Use(r, r.zero, r.zero, r.zero);
    SubUnique(r, r.zero, r.zero, r.zero);
    forall a: F2<T>, b: F2<T> ensures h(s.add(a, b)) == s.add(h(a), h(b)) {
      ConjugateSum(); Apply(r, CONJUGATE_SUM, [a.c1, b.c1]);
    }
    forall a: F2<T>, b: F2<T> ensures HomLaws(s, s, h, a, b) {
      var env := [a.c0, a.c1, b.c0, b.c1];
      ConjugateProduct0(); Apply(r, CONJUGATE_PRODUCT_0, env);
      ConjugateProduct1(); Apply(r, CONJUGATE_PRODUCT_1, env);
      KeepsDifference(s, s, h, a, b);
    }
    forall a: F2<T> ensures h(h(a)) == a {
      NegateTwice(r, a.c1);
    }
  }

  // ---- the Frobenius maps of the scripts -----------------------------------------------

  /** The precomputed constants: g1i, g3i in Fp2 and g2i in Fp. */
  datatype Gammas<T> = Gammas(g11: F2<T>, g12: F2<T>, g13: F2<T>, g14: F2<T>, g15: F2<T>,
                              g21: T, g22: T, g23: T, g24: T, g25: T,
                              g31: F2<T>, g32: F2<T>, g33: F2<T>, g34: F2<T>, g35: F2<T>)

  function Frobenius<T>(r: Ring<T>, g: Gammas<T>, a: F12<T>): F12<T> {
    var t1, t2, t3 := Fp2Conjugate(r, a.c0.c0), Fp2Conjugate(r, a.c1.c0), Fp2Conjugate(r, a.c0.c1);
    var t4, t5, t6 := Fp2Conjugate(r, a.c1.c1), Fp2Conjugate(r, a.c0.c2), Fp2Conjugate(r, a.c1.c2);
    Quad(Cubic(t1, Fp2Mul(r, t3, g.g12), Fp2Mul(r, t5, g.g14)),
         Cubic(Fp2Mul(r, t2, g.g11), Fp2Mul(r, t4, g.g13), Fp2Mul(r, t6, g.g15)))
  }

  function FrobeniusSquare<T>(r: Ring<T>, g: Gammas<T>, a: F12<T>): F12<T> {
    Quad(Cubic(a.c0.c0, Fp2ScalarMul(r, a.c0.c1, g.g22), Fp2ScalarMul(r, a.c0.c2, g.g24)),
         Cubic(Fp2ScalarMul(r, a.c1.c0, g.g21), Fp2ScalarMul(r, a.c1.c1, g.g23), Fp2ScalarMul(r, a.c1.c2, g.g25)))
  }

  function FrobeniusCube<T>(r: Ring<T>, g: Gammas<T>, a: F12<T>): F12<T> {
    var t1, t2, t3 := Fp2Conjugate(r, a.c0.c0), Fp2Conjugate(r, a.c1.c0), Fp2Conjugate(r, a.c0.c1);
    var t4, t5, t6 := Fp2Conjugate(r, a.c1.c1), Fp2Conjugate(r, a.c0.c2), Fp2Conjugate(r, a.c1.c2);
    Quad(Cubic(t1, Fp2Mul(r, t3, g.g32), Fp2Mul(r, t5, g.g34)),
         Cubic(Fp2Mul(r, t2, g.g31), Fp2Mul(r, t4, g.g33), Fp2Mul(r, t6, g.g35)))
  }

  /** What the precomputed constants must satisfy: g1i is the i-th power of g11 with (9 + u) g11^6 = 9 - u, g2i the
      i-th power of g21 = g11 conj(g11), a root of x^2 - x + 1, and g3i the i-th power of g11 g21. */
  ghost predicate GoodGammas<T>(r: Ring<T>, g: Gammas<T>) {
    var s := Fp2(r);
    && g.g12 == s.mul(g.g11, g.g11) && g.g13 == s.mul(g.g12, g.g11)
    && g.g14 == s.mul(g.g12, g.g12) && g.g15 == s.mul(g.g14, g.g11)
    && s.mul(Xi(r), s.mul(s.mul(g.g12, g.g12), g.g12)) == Fp2Conjugate(r, Xi(r))
    && s.mul(Fp2Conjugate(r, g.g11), g.g11) == Quad(g.g21, r.zero)
    && g.g22 == r.mul(g.g21, g.g21) && g.g23 == r.mul(g.g22, g.g21)
    && g.g24 == r.mul(g.g22, g.g22) && g.g25 == r.mul(g.g24, g.g21)
    && g.g22 == r.sub(g.g21, r.one)
    && g.g31 == Fp2ScalarMul(r, g.g11, g.g21)
    && g.g32 == s.mul(g.g31, g.g31) && g.g33 == s.mul(g.g32, g.g31)
    && g.g34 == s.mul(g.g32, g.g32) && g.g35 == s.mul(g.g34, g.g31)
  }

  // The map sending the coefficient a of w^i to f(a) h^i
  ghost function Twist<T>(r: Ring<T>, f: F2<T> -> F2<T>, h: F2<T>, a: F12<T>): F12<T> {
    var s := Fp2(r);
    var e := s.mul(h, h);
    Quad(Cubic(f(a.c0.c0), s.mul(f(a.c0.c1), e), s.mul(f(a.c0.c2), s.mul(e, e))),
         Cubic(s.mul(f(a.c1.c0), h), s.mul(s.mul(f(a.c1.c1), e), h), s.mul(s.mul(f(a.c1.c2), s.mul(e, e)), h)))
  }

  // Multiplying by an element of the base acts on the coefficients.
  lemma BaseFactor<T(!new)>(s: Ring<T>, k: T, a: Cubic<T>, h: T)
    requires IsRing(s)
    ensures CMul(s, k, a, Cubic(h, s.zero, s.zero)) == Cubic(s.mul(a.c0, h), s.mul(a.c1, h), s.mul(a.c2, h))
  {
    var z := s.zero;
    MulZero(s, a.c0); MulZero(s, a.c1); MulZero(s, a.c2); MulZero(s, k);
    Use(s, z, z, z);
    Use(s, s.mul(a.c0, h), z, z); Use(s, s.mul(a.c1, h), z, z); Use(s, s.mul(a.c2, h), z, z);
    Use(s, z, s.mul(a.c1, h), z); Use(s, z, s.mul(a.c2, h), z);
  }

  /** Twisting by a homomorphism f of Fp2 and h with f(9 + u) = (9 + u) h^6 is a homomorphism of Fp12. */
  lemma TwistIsHom<T(!new)>(r: Ring<T>, f: F2<T> -> F2<T>, h: F2<T>, m: F12<T> -> F12<T>)
    requires IsRing(r) && IsHom(Fp2(r), Fp2(r), f)
    requires var s := Fp2(r); var e := s.mul(h, h); f(Xi(r)) == s.mul(Xi(r), s.mul(s.mul(e, e), e))
    requires forall a: F12<T> :: m(a) == Twist(r, f, h, a)
    ensures IsHom(Fp12(r), Fp12(r), m)
  {
    var s, six := Fp2(r), Fp6(r);
    var e, d := s.mul(h, h), Cubic(h, s.zero, s.zero);
    var f6 := (a: F6<T>) => CubicTwist(s, f, e, a);
    Fp2IsRing(r);
    Fp6IsRing(r);
    CubicTwistIsHom(s, Xi(r), f, e, f6);
    forall a: F12<T> ensures m(a) == QuadTwist(six, f6, d, a) { BaseFactor(s, Xi(r), f6(a.c1), h); }
    BaseFactor(s, Xi(r), d, h);
    BaseFactor(s, Xi(r), Gamma(r), e);
    MulZero(s, h); MulZero(s, e); MulZero(s, s.mul(e, e));
    QuadTwistIsHom(six, Gamma(r), f6, d, m);
  }

  ghost const COMPOSE_A01 :=
    Equation(Mul(Mul(V(2), Mul(V(0), V(0))), Mul(V(1), V(1))), Mul(V(2), Mul(Mul(V(0), V(1)), Mul(V(0), V(1)))))

  lemma ComposeA01() ensures Valid(COMPOSE_A01) {}

  ghost const COMPOSE_A02 :=
    Equation(Mul(Mul(V(2), Mul(Mul(V(0), V(0)), Mul(V(0), V(0)))), Mul(Mul(V(1), V(1)), Mul(V(1), V(1)))), Mul(V(2),
    Mul(Mul(Mul(V(0), V(1)), Mul(V(0), V(1))), Mul(Mul(V(0), V(1)), Mul(V(0), V(1))))))

  lemma ComposeA02() ensures Valid(COMPOSE_A02) {}

  ghost const COMPOSE_A10 :=
    Equation(Mul(Mul(V(2), V(0)), V(1)), Mul(V(2), Mul(V(0), V(1))))

  lemma ComposeA10() ensures Valid(COMPOSE_A10) {}

  ghost const REGROUP :=
    Equation(Mul(Mul(Mul(V(0), V(2)), V(1)), V(3)), Mul(Mul(V(0), V(1)), Mul(V(2), V(3))))

  lemma Regroup() ensures Valid(REGROUP) {}

  /** Twists compose to twists. */
  lemma TwistsCompose<T(!new)>(r: Ring<T>, f: F2<T> -> F2<T>, h: F2<T>, f': F2<T> -> F2<T>, h': F2<T>,
                               f'': F2<T> -> F2<T>, a: F12<T>)
    requires IsRing(r) && IsHom(Fp2(r), Fp2(r), f) && forall x: F2<T> :: f''(x) == f(f'(x))
    ensures Twist(r, f, h, Twist(r, f', h', a)) == Twist(r, f'', Fp2(r).mul(f(h'), h), a)
  {
    var s := Fp2(r);
    Fp2IsRing(r);
    var e' := s.mul(h', h');
    UseHom(s, s, f, h', h'); UseHom(s, s, f, e', e');
    UseHom(s, s, f, f'(a.c0.c1), e'); UseHom(s, s, f, f'(a.c0.c2), s.mul(e', e'));
    UseHom(s, s, f, f'(a.c1.c0), h');
    UseHom(s, s, f, f'(a.c1.c1), e'); UseHom(s, s, f, s.mul(f'(a.c1.c1), e'), h');
    UseHom(s, s, f, f'(a.c1.c2), s.mul(e', e')); UseHom(s, s, f, s.mul(f'(a.c1.c2), s.mul(e', e')), h');
    ComposeA01(); Apply(s, COMPOSE_A01, [f(h'), h, f''(a.c0.c1)]);
    ComposeA02(); Apply(s, COMPOSE_A02, [f(h'), h, f''(a.c0.c2)]);
    ComposeA10(); Apply(s, COMPOSE_A10, [f(h'), h, f''(a.c1.c0)]);
    var y2, h2 := s.mul(f(h'), f(h')), s.mul(h, h);
    Regroup();
    Apply(s, REGROUP, [s.mul(f''(a.c1.c1), y2), h2, f(h'), h]);
    Apply(s, REGROUP, [s.mul(f''(a.c1.c2), s.mul(y2, y2)), s.mul(h2, h2), f(h'), h]);
    Apply(s, COMPOSE_A01, [f(h'), h, f''(a.c1.c1)]);
    Apply(s, COMPOSE_A02, [f(h'), h, f''(a.c1.c2)]);
  }

  lemma ScalarIsProduct<T(!new)>(r: Ring<T>, a: F2<T>, k: T)
    requires IsRing(r)
    ensures Fp2ScalarMul(r, a, k) == Fp2(r).mul(a, Quad(k, r.zero))
  {
    MulZero(r, a.c0); MulZero(r, a.c1);
    Use(r, r.mul(a.c0, k), r.zero, r.zero);
    SubUnique(r, r.mul(a.c0, k), r.zero, r.mul(a.c0, k));
    Use(r, r.zero, r.mul(a.c1, k), r.zero); Use(r, r.mul(a.c1, k), r.zero, r.zero);
  }

  lemma ScalarsMultiply<T(!new)>(r: Ring<T>, k: T, l: T)
    requires IsRing(r)
    ensures Fp2(r).mul(Quad(k, r.zero), Quad(l, r.zero)) == Quad(r.mul(k, l), r.zero)
  {
    ScalarIsProduct(r, Quad(k, r.zero), l);
    MulZero(r, l);
  }

  ghost function Conj<T>(r: Ring<T>): F2<T> -> F2<T> { (a: F2<T>) => Fp2Conjugate(r, a) }
  ghost function Same<T>(): T -> T { (a: T) => a }

  lemma SameIsHom<T(!new)>(s: Ring<T>)
    ensures IsHom(s, s, Same())
  {
    var h: T -> T := Same();
    forall a: T, b: T ensures HomLaws(s, s, h, a, b) {}
  }

  lemma FrobeniusIsTwist<T(!new)>(r: Ring<T>, g: Gammas<T>, a: F12<T>)
    requires IsRing(r) && GoodGammas(r, g)
    ensures Frobenius(r, g, a) == Twist(r, Conj(r), g.g11, a)
  {
    var s, c := Fp2(r), Conj(r);
    Fp2IsRing(r);
    Use(s, c(a.c1.c1), g.g12, g.g11); Use(s, c(a.c1.c2), g.g14, g.g11);
  }

  lemma FrobeniusCubeIsTwist<T(!new)>(r: Ring<T>, g: Gammas<T>, a: F12<T>)
    requires IsRing(r) && GoodGammas(r, g)
    ensures FrobeniusCube(r, g, a) == Twist(r, Conj(r), g.g31, a)
  {
    var s, c := Fp2(r), Conj(r);
    Fp2IsRing(r);
    Use(s, c(a.c1.c1), g.g32, g.g31); Use(s, c(a.c1.c2), g.g34, g.g31);
  }

  lemma FrobeniusSquareIsTwist<T(!new)>(r: Ring<T>, g: Gammas<T>, a: F12<T>)
    requires IsRing(r) && GoodGammas(r, g)
    ensures FrobeniusSquare(r, g, a) == Twist(r, Same(), Quad(g.g21, r.zero), a)
  {
    var s := Fp2(r);
    Fp2IsRing(r);
    ScalarsMultiply(r, g.g21, g.g21); ScalarsMultiply(r, g.g22, g.g21); ScalarsMultiply(r, g.g22, g.g22);
    ScalarsMultiply(r, g.g24, g.g21);
    ScalarIsProduct(r, a.c0.c1, g.g22); ScalarIsProduct(r, a.c0.c2, g.g24); ScalarIsProduct(r, a.c1.c0, g.g21);
    ScalarIsProduct(r, a.c1.c1, g.g23); ScalarIsProduct(r, a.c1.c2, g.g25);
    Use(s, a.c1.c1, Quad(g.g22, r.zero), Quad(g.g21, r.zero));
    Use(s, a.c1.c2, Quad(g.g24, r.zero), Quad(g.g21, r.zero));
  }

  ghost const SQUARE_OF_CUBE :=
    Equation(Mul(Mul(Mul(V(0), V(0)), Mul(V(0), V(0))), Mul(V(0), V(0))), Mul(Mul(Mul(V(0), V(0)), V(0)),
    Mul(Mul(V(0), V(0)), V(0))))

  lemma SquareOfCube() ensures Valid(SQUARE_OF_CUBE) {}

  ghost const MINUS_ONE_SQUARED :=
    Equation(Mul(Sub(C(0), C(1)), Sub(C(0), C(1))), C(1))

  lemma MinusOneSquared() ensures Valid(MINUS_ONE_SQUARED) {}

  ghost const CUBE_OF_ROOT :=
    Equation(Mul(Mul(V(0), V(0)), V(0)), Add(Sub(C(0), C(1)), Mul(Add(V(0), C(1)), Sub(Mul(V(0), V(0)), Sub(V(0),
    C(1))))))

  lemma CubeOfRoot() ensures Valid(CUBE_OF_ROOT) {}

  /** A root of x^2 - x + 1 has cube -1 and sixth power 1. */
  lemma RootPowers<T(!new)>(r: Ring<T>, g: T)
    requires IsRing(r) && r.mul(g, g) == r.sub(g, r.one)
    ensures r.mul(r.mul(g, g), g) == r.sub(r.zero, r.one)
    ensures var e := r.mul(g, g); r.mul(r.mul(e, e), e) == r.one
  {
    OneIsInteger(r);
    var e := r.mul(g, g);
    CubeOfRoot(); Apply(r, CUBE_OF_ROOT, [g]);
    CancelDifference(r, r.sub(r.zero, r.one), r.add(g, r.one), e);
    var n := r.sub(r.zero, r.one);
    SquareOfCube(); Apply(r, SQUARE_OF_CUBE, [g]);
    MinusOneSquared(); Apply(r, MINUS_ONE_SQUARED, []);
  }

  /** The three twists are homomorphisms: the multiplier of w has the right sixth power. */
  lemma SixthPowers<T(!new)>(r: Ring<T>, g: Gammas<T>)
    requires IsRing(r) && GoodGammas(r, g)
    ensures var s := Fp2(r); var h := Quad(g.g21, r.zero); var e := s.mul(h, h);
            Xi(r) == s.mul(Xi(r), s.mul(s.mul(e, e), e))
    ensures var s := Fp2(r); var e := s.mul(g.g31, g.g31);
            Fp2Conjugate(r, Xi(r)) == s.mul(Xi(r), s.mul(s.mul(e, e), e))
  {
    var s, h := Fp2(r), Quad(g.g21, r.zero);
    var e := s.mul(h, h);
    Fp2IsRing(r);
    RootPowers(r, g.g21);
    ScalarsMultiply(r, g.g21, g.g21); ScalarsMultiply(r, g.g22, g.g22); ScalarsMultiply(r, g.g24, g.g22);
    assert s.mul(s.mul(e, e), e) == s.one;
    Use(s, Xi(r), s.one, s.one);
    ScalarIsProduct(r, g.g11, g.g21);
    SwapMul(s, g.g11, h, g.g11, h); SwapMul(s, g.g12, e, g.g12, e);
    SwapMul(s, s.mul(g.g12, g.g12), s.mul(e, e), g.g12, e);
    Use(s, s.mul(s.mul(g.g12, g.g12), g.g12), s.one, s.one);
  }

  /** The three Frobenius maps keep sums, differences, products and one. */
  lemma FrobeniusIsHom<T(!new)>(r: Ring<T>, g: Gammas<T>)
    requires IsRing(r) && GoodGammas(r, g)
    ensures IsHom(Fp12(r), Fp12(r), (a: F12<T>) => Frobenius(r, g, a))
    ensures IsHom(Fp12(r), Fp12(r), (a: F12<T>) => FrobeniusSquare(r, g, a))
    ensures IsHom(Fp12(r), Fp12(r), (a: F12<T>) => FrobeniusCube(r, g, a))
  {
    Fp2IsRing(r);
    SixthPowers(r, g);
    ConjugationIsHom(r, Conj(r));
    SameIsHom(Fp2(r));
    forall a: F12<T> ensures Frobenius(r, g, a) == Twist(r, Conj(r), g.g11, a) { FrobeniusIsTwist(r, g, a); }
    forall a: F12<T> ensures FrobeniusCube(r, g, a) == Twist(r, Conj(r), g.g31, a) { FrobeniusCubeIsTwist(r, g, a); }
    forall a: F12<T> ensures FrobeniusSquare(r, g, a) == Twist(r, Same(), Quad(g.g21, r.zero), a) {
      FrobeniusSquareIsTwist(r, g, a);
    }
    TwistIsHom(r, Conj(r), g.g11, (a: F12<T>) => Frobenius(r, g, a));
    TwistIsHom(r, Same(), Quad(g.g21, r.zero), (a: F12<T>) => FrobeniusSquare(r, g, a));
    TwistIsHom(r, Conj(r), g.g31, (a: F12<T>) => FrobeniusCube(r, g, a));
  }

  /** frobenius twice is frobenius_square, once more is frobenius_cube, and frobenius_square thrice is conjugate. */
  lemma FrobeniusComposes<T(!new)>(r: Ring<T>, g: Gammas<T>, a: F12<T>)
    requires IsRing(r) && GoodGammas(r, g)
    ensures Frobenius(r, g, Frobenius(r, g, a)) == FrobeniusSquare(r, g, a)
    ensures Frobenius(r, g, FrobeniusSquare(r, g, a)) == FrobeniusCube(r, g, a)
    ensures FrobeniusSquare(r, g, FrobeniusSquare(r, g, FrobeniusSquare(r, g, a))) == Conjugate(r, a)
  {
    var s, c, h := Fp2(r), Conj(r), Quad(g.g21, r.zero);
    Fp2IsRing(r);
    ConjugationIsHom(r, c);
    FrobeniusIsTwist(r, g, a); FrobeniusIsTwist(r, g, Frobenius(r, g, a));
    FrobeniusIsTwist(r, g, FrobeniusSquare(r, g, a));
    FrobeniusSquareIsTwist(r, g, a); FrobeniusCubeIsTwist(r, g, a);
    TwistsCompose(r, c, g.g11, c, g.g11, Same(), a);
    TwistsCompose(r, c, g.g11, Same(), h, c, a);
    Use(r, r.zero, r.zero, r.zero);
    SubUnique(r, r.zero, r.zero, r.zero);
    ScalarIsProduct(r, g.g11, g.g21);
    Use(s, g.g11, h, h);
    ThriceSquare(r, g, a);
  }

  lemma ThriceSquare<T(!new)>(r: Ring<T>, g: Gammas<T>, a: F12<T>)
    requires IsRing(r) && GoodGammas(r, g)
    ensures FrobeniusSquare(r, g, FrobeniusSquare(r, g, FrobeniusSquare(r, g, a))) == Conjugate(r, a)
  {
    var s, id, h := Fp2(r), Same<F2<T>>(), Quad(g.g21, r.zero);
    var n := Quad(r.sub(r.zero, r.one), r.zero);
    Fp2IsRing(r);
    var b := FrobeniusSquare(r, g, a);
    FrobeniusSquareIsTwist(r, g, a); FrobeniusSquareIsTwist(r, g, b);
    FrobeniusSquareIsTwist(r, g, FrobeniusSquare(r, g, b));
    SameIsHom(s);
    TwistsCompose(r, id, h, id, h, id, a);
    TwistsCompose(r, id, h, id, s.mul(h, h), id, a);
    RootPowers(r, g.g21);
    ScalarsMultiply(r, g.g21, g.g21); ScalarsMultiply(r, g.g22, g.g21);
    MinusOneTwist(r, a);
  }

  // Twisting by -1 changes the sign of the odd powers of w.
  lemma MinusOneTwist<T(!new)>(r: Ring<T>, a: F12<T>)
    requires IsRing(r)
    ensures Twist(r, Same(), Quad(r.sub(r.zero, r.one), r.zero), a) == Conjugate(r, a)
  {
    var s, n := Fp2(r), r.sub(r.zero, r.one);
    Fp2IsRing(r);
    OneIsInteger(r);
    NegationIsProduct(r, r.one);
    Use(r, n, r.one, r.one);
    NegateTwice(r, r.one);
    ScalarsMultiply(r, n, n);
    ScalarsMultiply(r, r.one, r.one);
    NegationIsProduct(r, n);
    Use(r, r.one, r.one, r.one);
    Use(s, a.c0.c1, s.one, s.one); Use(s, a.c0.c2, s.one, s.one);
    Use(s, a.c1.c1, s.one, s.one); Use(s, a.c1.c2, s.one, s.one);
    ScalarIsProduct(r, a.c1.c0, n); ScalarIsProduct(r, a.c1.c1, n); ScalarIsProduct(r, a.c1.c2, n);
    NegationIsProduct(r, a.c1.c0.c0); NegationIsProduct(r, a.c1.c0.c1);
    NegationIsProduct(r, a.c1.c1.c0); NegationIsProduct(r, a.c1.c1.c1);
    NegationIsProduct(r, a.c1.c2.c0); NegationIsProduct(r, a.c1.c2.c1);
  }

  ghost const NEGATION :=
    Equation(Mul(V(0), Sub(C(0), C(1))), Sub(C(0), V(0)))

  lemma Negation() ensures Valid(NEGATION) {}

  lemma NegationIsProduct<T(!new)>(r: Ring<T>, a: T)
    requires IsRing(r)
    ensures r.mul(a, r.sub(r.zero, r.one)) == r.sub(r.zero, a)
  {
    OneIsInteger(r);
    Negation(); Apply(r, NEGATION, [a]);
  }
}
