/** Untwisting in the tower: w is the root with w^6 = 9 + u, the lines of the Miller loop are the lines through the
    untwisted points, and the two Frobenius images are the images of the untwisted point. */
module TowerUntwisting {
  import opened Rings
  import opened Powers
  import opened Solver
  import opened FieldLaws
  import opened Extensions
  import opened Tower
  import opened FrobeniusMaps
  import opened TowerFrobenius
  import opened TowerOperations
  import opened AffineCurve
  import opened CurveTransfer
  import opened MillerSteps
  import opened MillerRuns
  import opened MillerTower
  import opened Untwisting
  import opened MillerValue

  /** The element w of Fp12 */
  function Root<T>(r: Ring<T>): F12<T> { QuadRoot(Fp6(r)) }

  /** A point with coordinates in Fp, in Fp12 */
  function PointInFp12<T>(r: Ring<T>, xp: T, yp: T): Point<F12<T>> {
    Point(InFp12(r, Quad(xp, r.zero)), InFp12(r, Quad(yp, r.zero)))
  }

  // e(a) f multiplies every coefficient.
  lemma ScaledCoefficients<T(!new)>(r: Ring<T>, a: F2<T>, f: F12<T>)
    requires IsRing(r)
    ensures var s := Fp2(r);
            Fp12Fast(r).mul(InFp12(r, a), f) ==
            Quad(Cubic(s.mul(a, f.c0.c0), s.mul(a, f.c0.c1), s.mul(a, f.c0.c2)),
                 Cubic(s.mul(a, f.c1.c0), s.mul(a, f.c1.c1), s.mul(a, f.c1.c2)))
  {
    Fp2IsRing(r);
    Fp6IsRing(r);
    FastMul(r, InFp12(r, a), f);
    InnerTimes(Fp6(r), Gamma(r), InCubic(Fp2(r), a), f);
    BaseTimes(Fp2(r), Xi(r), a, f.c0); BaseTimes(Fp2(r), Xi(r), a, f.c1);
  }

  lemma PowersOfRoot<T(!new)>(r: Ring<T>)
    requires IsRing(r)
    ensures var w, g, s, six := Fp12Fast(r), Root(r), Fp2(r), Fp6(r);
            var g2 := w.mul(g, g);
            && g2 == Quad(CubicRoot(s), six.zero) && w.mul(g2, g) == Quad(six.zero, CubicRoot(s))
            && w.mul(w.mul(g2, g2), g2) == InFp12(r, Xi(r))
  {
    var g, six, v := Root(r), Fp6(r), CubicRoot(Fp2(r));
    var g2 := InQuad(six, v);
    Fp6IsRing(r);
    RootOfFp12(r);
    FastMul(r, g, g); FastMul(r, g2, g); FastMul(r, g2, g2); FastMul(r, Fp12(r).mul(g2, g2), g2);
    InnerTimes(six, Gamma(r), v, g);
    Zeros(six, v);
    OneIsUnit(six, v);
  }

  lemma UntwistCoordinates<T(!new)>(r: Ring<T>, e: F2<T> -> F12<T>, q: Point<F2<T>>)
    requires IsRing(r) && forall a: F2<T> :: e(a) == InFp12(r, a)
    ensures var z, six := Fp2(r).zero, Fp6(r);
            Untwist(Fp12Fast(r), e, Root(r), q) ==
            Point(Quad(Cubic(z, q.x, z), six.zero), Quad(six.zero, Cubic(z, q.y, z)))
  {
    var s, z, six := Fp2(r), Fp2(r).zero, Fp6(r);
    Fp2IsRing(r);
    PowersOfRoot(r);
    ScaledCoefficients(r, q.x, Quad(CubicRoot(s), six.zero));
    ScaledCoefficients(r, q.y, Quad(six.zero, CubicRoot(s)));
    Zeros(s, q.x); Zeros(s, q.y);
    OneIsUnit(s, q.x); OneIsUnit(s, q.y);
  }

  // ---- lines -------------------------------------------------------------------------------------------------

  // The sparse element is l0 yp + l1 xp w + l2 w^3.
  lemma SparseValue<T(!new)>(r: Ring<T>, l: Line<F2<T>>, xp: T, yp: T)
    requires IsRing(r)
    ensures var w, g, p := Fp12Fast(r), Root(r), PointInFp12(r, xp, yp);
            LineValue(r, l, xp, yp) ==
            w.add(w.add(w.mul(InFp12(r, l.l0), p.y), w.mul(InFp12(r, l.l1), w.mul(p.x, g))),
                  w.mul(InFp12(r, l.l2), w.mul(w.mul(g, g), g)))
  {
    var s, z, six, p := Fp2(r), Fp2(r).zero, Fp6(r), PointInFp12(r, xp, yp);
    Fp2IsRing(r);
    PowersOfRoot(r);
    ScaledCoefficients(r, Quad(xp, r.zero), Root(r));
    ScaledCoefficients(r, l.l0, p.y);
    ScaledCoefficients(r, l.l1, Quad(six.zero, Cubic(Quad(xp, r.zero), z, z)));
    ScaledCoefficients(r, l.l2, Quad(six.zero, CubicRoot(s)));
    ScalarIsProduct(r, l.l0, yp); ScalarIsProduct(r, l.l1, xp);
    Zeros(s, l.l0); Zeros(s, l.l1); Zeros(s, l.l2); Zeros(s, Quad(xp, r.zero)); Zeros(s, z);
    OneIsUnit(s, l.l2); OneIsUnit(s, Quad(xp, r.zero));
    Zeros(s, Fp2ScalarMul(r, l.l0, yp)); Zeros(s, Fp2ScalarMul(r, l.l1, xp));
  }

  // With V = m, g, x, y, ax, ay: y - m g x + (m ax - ay) g^3 in two forms
  ghost const LINE_VALUE_FORM :=
    Equation(Add(Add(V(3), Mul(Sub(C(0), V(0)), Mul(V(2), V(1)))), Mul(Sub(Mul(V(0), V(4)), V(5)), Mul(Mul(V(1),
    V(1)), V(1)))), Sub(Sub(V(3), Mul(V(5), Mul(Mul(V(1), V(1)), V(1)))), Mul(Mul(V(0), V(1)), Sub(V(2), Mul(V(4),
    Mul(V(1), V(1)))))))

  lemma LineValueForm() ensures Valid(LINE_VALUE_FORM) {}

  // With V = m, x, y, ax, ay: y - m x + (m ax - ay) = (y - ay) - m (x - ax)
  ghost const POINT_SLOPE_FORM :=
    Equation(Add(Add(V(2), Mul(Sub(C(0), V(0)), V(1))), Sub(Mul(V(0), V(3)), V(4))), Sub(Sub(V(2), V(4)), Mul(V(0),
    Sub(V(1), V(3)))))

  lemma PointSlopeForm() ensures Valid(POINT_SLOPE_FORM) {}

  /** (y - ay) - m (x - ax): the value at (x, y) of the line of slope m through (ax, ay) */
  ghost function PointSlope<W>(w: Ring<W>, a: Point<W>, m: W, p: Point<W>): W {
    w.sub(w.sub(p.y, a.y), w.mul(m, w.sub(p.x, a.x)))
  }

  lemma ValueIsPointSlope<W(!new)>(w: Ring<W>, a: Point<W>, m: W, p: Point<W>)
    requires IsRing(w)
    ensures ValueAt(w, AffineLine(w, a, m), p) == PointSlope(w, a, m, p)
  {
    OneIsUnit(w, p.y);
    PointSlopeForm(); Apply(w, POINT_SLOPE_FORM, [m, p.x, p.y, a.x, a.y]);
  }

  // The images of the coefficients of the line of slope m through a, put together
  lemma LineForm<S(!new), W(!new)>(s: Ring<S>, w: Ring<W>, e: S -> W, g: W, a: Point<S>, m: S, p: Point<W>)
    requires IsRing(w) && IsHom(s, w, e)
    ensures var l, g2 := AffineLine(s, a, m), w.mul(g, g);
            w.add(w.add(w.mul(e(l.l0), p.y), w.mul(e(l.l1), w.mul(p.x, g))), w.mul(e(l.l2), w.mul(g2, g))) ==
            w.sub(w.sub(p.y, w.mul(e(a.y), w.mul(g2, g))), w.mul(w.mul(e(m), g), w.sub(p.x, w.mul(e(a.x), g2))))
  {
    UseHom(s, w, e, s.zero, m); UseHom(s, w, e, m, a.x); UseHom(s, w, e, s.mul(m, a.x), a.y);
    OneIsUnit(w, p.y);
    LineValueForm(); Apply(w, LINE_VALUE_FORM, [e(m), g, p.x, p.y, e(a.x), e(a.y)]);
  }

  /** The element of Fp12 that the loop multiplies with, for the line of slope m through the point a of the twist, is
      (yp - a.y w^3) - (m w) (xp - a.x w^2): the value at (xp, yp) of the line of slope m w through the untwisted
      point. */
  lemma LineThroughUntwisted<T(!new)>(r: Ring<T>, e: F2<T> -> F12<T>, a: Point<F2<T>>, m: F2<T>, xp: T, yp: T)
    requires IsRing(r) && forall c: F2<T> :: e(c) == InFp12(r, c)
    ensures var w, g, p := Fp12Fast(r), Root(r), PointInFp12(r, xp, yp);
            var u := Point(w.mul(e(a.x), w.mul(g, g)), w.mul(e(a.y), w.mul(w.mul(g, g), g)));
            && LineValue(r, AffineLine(Fp2(r), a, m), xp, yp) ==
               w.sub(w.sub(p.y, u.y), w.mul(w.mul(e(m), g), w.sub(p.x, u.x)))
            && u == Untwist(w, e, g, a)
  {
    var w := Fp12Fast(r);
    FastIsRing(r);
    InFp12IsHom(r, e);
    FastHom(r, e);
    SparseValue(r, AffineLine(Fp2(r), a, m), xp, yp);
    LineForm(Fp2(r), w, e, Root(r), a, m, PointInFp12(r, xp, yp));
  }

  /** The curve over Fp12, with the lines evaluated at (xp, yp) itself. */
  ghost function BigSetup<T>(r: Ring<T>, b: F12<T>, half: F12<T>, p: Point<F12<T>>): Setup<F12<T>, F12<T>> {
    Setup(Fp12Fast(r), b, half, Fp12Fast(r), (f: F12<T>) => Fp12Square(r, f),
          (l: Line<F12<T>>) => ValueAt(Fp12Fast(r), l, p))
  }

  lemma TowerLinesAreSame<T(!new)>(r: Ring<T>, b: F2<T>, half: T, e: F2<T> -> F12<T>, xp: T, yp: T, b': F12<T>,
      half': F12<T>)
    requires IsRing(r) && IsField(Fp2(r)) && IsField(Fp12Fast(r)) && forall a: F2<T> :: e(a) == InFp12(r, a)
    ensures SameLines(TowerSetup(r, b, half, xp, yp), BigSetup(r, b', half', PointInFp12(r, xp, yp)), e, Root(r))
  {
    var s, w, g, p := Fp2(r), Fp12Fast(r), Root(r), PointInFp12(r, xp, yp);
    InFp12IsHom(r, e);
    FastHom(r, e);
    FieldHomEmbeds(s, w, e);
    forall a: Point<F2<T>>, k: F2<T> ensures
      LineValue(r, AffineLine(s, a, k), xp, yp) == ValueAt(w, AffineLine(w, Untwist(w, e, g, a), w.mul(e(k), g)), p)
    {
      LineThroughUntwisted(r, e, a, k, xp, yp);
      ValueIsPointSlope(w, Untwist(w, e, g, a), w.mul(e(k), g), p);
    }
  }

  /** Untwisting carries the twist with b (9 + u) = n to y^2 = x^3 + n over Fp12. */
  lemma UntwistedCurve<T(!new)>(r: Ring<T>, e: F2<T> -> F12<T>, b: F2<T>, n: T, q: Point<F2<T>>)
    requires IsRing(r) && IsField(Fp2(r)) && IsField(Fp12Fast(r)) && forall a: F2<T> :: e(a) == InFp12(r, a)
    requires Fp2(r).mul(b, Xi(r)) == Quad(n, r.zero)
    ensures var w := Fp12Fast(r);
            OnCurve(w, InFp12(r, Quad(n, r.zero)), Untwist(w, e, Root(r), q)) <==> OnCurve(Fp2(r), b, q)
  {
    var s, w := Fp2(r), Fp12Fast(r);
    InFp12IsHom(r, e);
    FastHom(r, e);
    FieldHomEmbeds(s, w, e);
    PowersOfRoot(r);
    UseHom(s, w, e, b, Xi(r));
    UntwistOnCurve(s, w, e, Root(r), b, q);
  }

  /** A point over Fp is on y^2 = x^3 + n over Fp12 exactly if it is on that curve over Fp. */
  lemma PointOnBigCurve<T(!new)>(r: Ring<T>, n: T, xp: T, yp: T)
    requires IsField(r) && IsField(Fp12Fast(r))
    ensures OnCurve(Fp12Fast(r), InFp12(r, Quad(n, r.zero)), PointInFp12(r, xp, yp)) <==> OnCurve(r, n, Point(xp, yp))
  {
    var w, e, d, h := Fp12Fast(r), (a: F2<T>) => InFp12(r, a), (a: T) => InQuad(r, a), (a: T) => InFp12(r, InQuad(r, a));
    InFp12IsHom(r, e);
    FastHom(r, e);
    InFp2IsHom(r, d);
    HomsCompose(r, Fp2(r), w, d, e, h);
    FieldHomEmbeds(r, w, h);
    MapOnCurve(r, w, h, n, Point(xp, yp));
  }

  // ---- the Frobenius images ------------------------------------------------------------------------------------

  lemma FirstImageUntwists<T(!new)>(r: Ring<T>, g: Gammas<T>, e: F2<T> -> F12<T>, q: Point<F2<T>>)
    requires IsRing(r) && forall a: F2<T> :: e(a) == InFp12(r, a)
    ensures var u := Untwist(Fp12Fast(r), e, Root(r), q);
            Untwist(Fp12Fast(r), e, Root(r), FirstImage(r, g, q)) ==
            Point(Frobenius(r, g, u.x), Frobenius(r, g, u.y))
  {
    UntwistCoordinates(r, e, q);
    UntwistCoordinates(r, e, FirstImage(r, g, q));
    Zeros(r, r.zero);
    ZeroTimes(r, g.g11); ZeroTimes(r, g.g12); ZeroTimes(r, g.g13); ZeroTimes(r, g.g14); ZeroTimes(r, g.g15);
  }

  lemma SquareOfCoordinates<T(!new)>(r: Ring<T>, g: Gammas<T>, a: F2<T>)
    requires IsRing(r)
    ensures var z, six := Fp2(r).zero, Fp6(r).zero;
            && FrobeniusSquare(r, g, Quad(Cubic(z, a, z), six)) == Quad(Cubic(z, Fp2ScalarMul(r, a, g.g22), z), six)
            && FrobeniusSquare(r, g, Quad(six, Cubic(z, a, z))) == Quad(six, Cubic(z, Fp2ScalarMul(r, a, g.g23), z))
  {
    Zeros(r, g.g21); Zeros(r, g.g22); Zeros(r, g.g23); Zeros(r, g.g24); Zeros(r, g.g25);
  }

  lemma NegativeOfCoordinate<T(!new)>(r: Ring<T>, a: F2<T>)
    requires IsRing(r)
    ensures var w, z, six := Fp12Fast(r), Fp2(r).zero, Fp6(r).zero;
            w.sub(w.zero, Quad(six, Cubic(z, a, z))) == Quad(six, Cubic(z, Fp2Neg(r, a), z))
  {
    Zeros(r, r.zero);
  }

  lemma SecondImageUntwists<T(!new)>(r: Ring<T>, g: Gammas<T>, e: F2<T> -> F12<T>, q: Point<F2<T>>)
    requires IsRing(r) && forall a: F2<T> :: e(a) == InFp12(r, a)
    ensures var u := Untwist(Fp12Fast(r), e, Root(r), q);
            Untwist(Fp12Fast(r), e, Root(r), SecondImage(r, g, q)) ==
            Negated(Fp12Fast(r), Point(FrobeniusSquare(r, g, u.x), FrobeniusSquare(r, g, u.y)))
  {
    UntwistCoordinates(r, e, q);
    UntwistCoordinates(r, e, SecondImage(r, g, q));
    SquareOfCoordinates(r, g, q.x); SquareOfCoordinates(r, g, q.y);
    NegativeOfCoordinate(r, Fp2ScalarMul(r, q.y, g.g23));
  }

  /** Q1 is the image of the untwisted Q under frobenius, and Q2 the negative of its image under frobenius_square. */
  lemma ImagesAreFrobenius<T(!new)>(r: Ring<T>, g: Gammas<T>, e: F2<T> -> F12<T>, q: Point<F2<T>>)
    requires IsRing(r) && forall a: F2<T> :: e(a) == InFp12(r, a)
    ensures var w, u := Fp12Fast(r), Untwist(Fp12Fast(r), e, Root(r), q);
            && Untwist(w, e, Root(r), FirstImage(r, g, q)) == Point(Frobenius(r, g, u.x), Frobenius(r, g, u.y))
            && Untwist(w, e, Root(r), SecondImage(r, g, q)) ==
               Negated(w, Point(FrobeniusSquare(r, g, u.x), FrobeniusSquare(r, g, u.y)))
  {
    FirstImageUntwists(r, g, e, q);
    SecondImageUntwists(r, g, e, q);
  }
}
