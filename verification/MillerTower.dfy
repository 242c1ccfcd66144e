/** The Miller loop on the tower: line values as sparse elements of Fp12, and the Frobenius images of a point. */
module MillerTower {
  import opened Rings
  import opened Powers
  import opened Solver
  import opened FieldLaws
  import opened Extensions
  import opened Tower
  import opened FrobeniusMaps
  import opened TowerFrobenius
  import opened TowerOperations
  import opened AffineCurve
  import opened MillerSteps
  import opened MillerRuns

  /** The tuple (l0 yp, 0, 0, l1 xp, l2, 0). */
  function LineValue<T>(r: Ring<T>, l: Line<F2<T>>, xp: T, yp: T): F12<T> {
    var z := Fp2(r).zero;
    Quad(Cubic(Fp2ScalarMul(r, l.l0, yp), z, z), Cubic(Fp2ScalarMul(r, l.l1, xp), l.l2, z))
  }

  function TowerSetup<T>(r: Ring<T>, b: F2<T>, half: T, xp: T, yp: T): Setup<F2<T>, F12<T>> {
    Setup(Fp2(r), b, Quad(half, r.zero), Fp12Fast(r),
          (f: F12<T>) => Fp12Square(r, f),
          (l: Line<F2<T>>) => LineValue(r, l, xp, yp))
  }

  lemma ScalarPullsOut<T(!new)>(r: Ring<T>, k: F2<T>, l: F2<T>, x: T)
    requires IsRing(r)
    ensures Fp2ScalarMul(r, Fp2(r).mul(k, l), x) == Fp2(r).mul(k, Fp2ScalarMul(r, l, x))
  {
    var s := Fp2(r);
    Fp2IsRing(r);
    ScalarIsProduct(r, s.mul(k, l), x);
    ScalarIsProduct(r, l, x);
    Use(s, k, l, Quad(x, r.zero));
  }

  lemma ScaledLineValue<T(!new)>(r: Ring<T>, k: F2<T>, l: Line<F2<T>>, xp: T, yp: T)
    requires IsRing(r)
    ensures LineValue(r, Multiple(Fp2(r), k, l), xp, yp) == Fp12Fast(r).mul(InFp12(r, k), LineValue(r, l, xp, yp))
  {
    var s, f := Fp2(r), LineValue(r, l, xp, yp);
    Fp2IsRing(r);
    Fp6IsRing(r);
    FastMul(r, InFp12(r, k), f);
    InnerTimes(Fp6(r), Gamma(r), InCubic(s, k), f);
    BaseTimes(s, Xi(r), k, f.c0); BaseTimes(s, Xi(r), k, f.c1);
    ScalarPullsOut(r, k, l.l0, yp); ScalarPullsOut(r, k, l.l1, xp);
    MulZero(s, k);
  }

  /** At a point with yp other than zero, the lines that are not vertical have nonzero values. */
  lemma LinesAreNotZero<T(!new)>(r: Ring<T>, b: F2<T>, half: T, xp: T, yp: T)
    requires IsRing(r) && yp != r.zero
    ensures NonzeroLines(TowerSetup(r, b, half, xp, yp))
  {
    OneIsUnit(r, yp);
  }

  lemma HalfInFp2<T(!new)>(r: Ring<T>, half: T)
    requires IsRing(r) && r.add(half, half) == r.one
    ensures Fp2(r).add(Quad(half, r.zero), Quad(half, r.zero)) == Fp2(r).one
  {
    Zeros(r, r.zero);
  }

  /** The tower provides a sound setup for the loop. */
  lemma TowerSetupIsSound<T(!new)>(r: Ring<T>, b: F2<T>, half: T, xp: T, yp: T, inv: F2<T> -> F2<T>, e: F2<T> -> F12<T>)
    requires IsRing(r) && CurveSetting(Fp2(r), b, inv) && r.add(half, half) == r.one
    requires forall a: F2<T> :: e(a) == InFp12(r, a)
    ensures SoundSetup(TowerSetup(r, b, half, xp, yp), inv, e)
  {
    var m := TowerSetup(r, b, half, xp, yp);
    HalfInFp2(r, half);
    FastIsRing(r);
    InFp12IsHom(r, e);
    FastHom(r, e);
    forall f: F12<T> ensures m.square(f) == m.w.mul(f, f) {
      Fp12SquareIsSquare(r, f);
      FastMul(r, f, f);
    }
    forall k: F2<T>, l: Line<F2<T>> ensures Scales(m, e, k, l) { ScaledLineValue(r, k, l, xp, yp); }
  }

  lemma FastHom<T(!new)>(r: Ring<T>, e: F2<T> -> F12<T>)
    requires IsRing(r) && IsHom(Fp2(r), Fp12(r), e)
    ensures IsHom(Fp2(r), Fp12Fast(r), e)
  {
    forall a: F2<T>, b: F2<T> ensures HomLaws(Fp2(r), Fp12Fast(r), e, a, b) {
      UseHom(Fp2(r), Fp12(r), e, a, b);
      FastMul(r, e(a), e(b));
    }
  }

  // ---- the Frobenius images of a point of the twist -----------------------------------------------------

  /** Q1 = pi_p(Q) */
  function FirstImage<T>(r: Ring<T>, g: Gammas<T>, q: Point<F2<T>>): Point<F2<T>> {
    Point(Fp2Mul(r, Fp2Conjugate(r, q.x), g.g12), Fp2Mul(r, Fp2Conjugate(r, q.y), g.g13))
  }

  /** Q2 = -pi_p^2(Q) */
  function SecondImage<T>(r: Ring<T>, g: Gammas<T>, q: Point<F2<T>>): Point<F2<T>> {
    Point(Fp2ScalarMul(r, q.x, g.g22), Fp2Neg(r, Fp2ScalarMul(r, q.y, g.g23)))
  }

  ghost const CUBE_OF_PRODUCT :=
    Equation(Mul(Mul(Mul(V(0), V(1)), Mul(V(0), V(1))), Mul(V(0), V(1))), Mul(Mul(Mul(V(0), V(0)), V(0)),
    Mul(Mul(V(1), V(1)), V(1))))

  lemma CubeOfProduct() ensures Valid(CUBE_OF_PRODUCT) {}

  // A homomorphism h and factors with u3^2 = u2^3 = c and h(b) c = b map the curve to itself.
  lemma ImageOnCurve<S(!new)>(s: Ring<S>, h: S -> S, b: S, u2: S, u3: S, q: Point<S>)
    requires IsRing(s) && IsHom(s, s, h) && OnCurve(s, b, q)
    requires s.mul(u3, u3) == s.mul(s.mul(u2, u2), u2) && s.mul(h(b), s.mul(u3, u3)) == b
    ensures OnCurve(s, b, Point(s.mul(h(q.x), u2), s.mul(h(q.y), u3)))
  {
    var c, x2 := s.mul(u3, u3), s.mul(q.x, q.x);
    UseHom(s, s, h, q.y, q.y); UseHom(s, s, h, q.x, q.x); UseHom(s, s, h, x2, q.x); UseHom(s, s, h, s.mul(x2, q.x), b);
    SwapMul(s, h(q.y), u3, h(q.y), u3);
    CubeOfProduct(); Apply(s, CUBE_OF_PRODUCT, [h(q.x), u2]);
    var x3 := h(s.mul(x2, q.x));
    Use(s, c, x3, h(b)); Use(s, c, s.add(x3, h(b)), c); Use(s, c, x3, x3); Use(s, c, h(b), h(b));
  }

  lemma ConjugateCoefficient<T(!new)>(r: Ring<T>, g: Gammas<T>, b: F2<T>, n: T)
    requires IsRing(r) && IsField(Fp2(r)) && GoodGammas(r, g) && Xi(r) != Fp2(r).zero
    requires Fp2(r).mul(b, Xi(r)) == Quad(n, r.zero)
    ensures Fp2(r).mul(Fp2Conjugate(r, b), Fp2(r).mul(Fp2(r).mul(g.g12, g.g12), g.g12)) == b
  {
    var s, h := Fp2(r), Conj(r);
    var c, x := s.mul(s.mul(g.g12, g.g12), g.g12), Xi(r);
    ConjugationIsHom(r, h);
    UseHom(s, s, h, b, x);
    Zeros(r, r.zero);
    // xi (conj(b) c) = conj(b) conj(xi) = conj(3) = 3 = xi b
    Use(s, x, h(b), c); Use(s, h(b), x, c); Use(s, x, c, c); Use(s, b, x, x);
    CancelFactor(s, x, s.mul(h(b), c), b);
  }

  /** Both Frobenius images of a point of the twist lie on the twist. */
  lemma ImagesOnTwist<T(!new)>(r: Ring<T>, g: Gammas<T>, b: F2<T>, n: T, q: Point<F2<T>>)
    requires IsRing(r) && IsField(Fp2(r)) && GoodGammas(r, g) && Xi(r) != Fp2(r).zero
    requires Fp2(r).mul(b, Xi(r)) == Quad(n, r.zero) && OnCurve(Fp2(r), b, q)
    ensures OnCurve(Fp2(r), b, FirstImage(r, g, q)) && OnCurve(Fp2(r), b, SecondImage(r, g, q))
  {
    var s := Fp2(r);
    ConjugateCoefficient(r, g, b, n);
    ConjugationIsHom(r, Conj(r));
    SwapMul(s, g.g12, g.g11, g.g12, g.g11);
    ImageOnCurve(s, Conj(r), b, g.g12, g.g13, q);
    SecondFactors(r, g);
    SameIsHom(s);
    var u2, u3 := Quad(g.g22, r.zero), s.sub(s.zero, Quad(g.g23, r.zero));
    OneIsUnit(s, b);
    ImageOnCurve(s, Same(), b, u2, u3, q);
    ScalarIsProduct(r, q.x, g.g22); ScalarIsProduct(r, q.y, g.g23);
    OppositeProduct(s, q.y, Quad(g.g23, r.zero));
  }

  lemma SecondFactors<T(!new)>(r: Ring<T>, g: Gammas<T>)
    requires IsRing(r) && GoodGammas(r, g)
    ensures var s, u2 := Fp2(r), Quad(g.g22, r.zero);
            var u3 := s.sub(s.zero, Quad(g.g23, r.zero));
            s.mul(u3, u3) == s.mul(s.mul(u2, u2), u2) && s.mul(u3, u3) == s.one
  {
    var s, u := Fp2(r), Quad(g.g21, r.zero);
    Fp2IsRing(r);
    RootPowers(r, g.g21);
    ScalarsMultiply(r, g.g22, g.g22); ScalarsMultiply(r, g.g24, g.g22); ScalarsMultiply(r, g.g23, g.g23);
    var v := Quad(g.g23, r.zero);
    OppositeProduct(s, s.sub(s.zero, v), v);
    Use(s, s.sub(s.zero, v), v, v); OppositeProduct(s, v, v);
    NegateTwice(s, s.mul(v, v));
    // g23 = g22 g21, so g23^2 = g22^2 g21^2 = g22^3
    SwapMul(r, g.g22, g.g21, g.g22, g.g21);
  }

}
