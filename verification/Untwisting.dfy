/** From the twist to the curve over Fp12: (x, y) goes to (x w^2, y w^3). The affine law, its slopes and its lines go
    along. */
module Untwisting {
  import opened Rings
  import opened Solver
  import opened Powers
  import opened FieldLaws
  import opened AffineCurve
  import opened CurveTransfer
  import opened MillerSteps

  // ---- scaling by g^2 and g^3 in one field ----------------------------------------------------------------

  function Scaled<W>(w: Ring<W>, g: W, p: Point<W>): Point<W> {
    var g2 := w.mul(g, g);
    Point(w.mul(p.x, g2), w.mul(p.y, w.mul(g2, g)))
  }

  ghost const SCALED_X :=
    Equation(Sub(Mul(Mul(V(0), V(1)), Mul(V(0), V(1))), Add(Mul(V(2), Mul(V(1), V(1))), Mul(V(3), Mul(V(1), V(1))))),
    Mul(Sub(Mul(V(0), V(0)), Add(V(2), V(3))), Mul(V(1), V(1))))

  lemma ScaledX() ensures Valid(SCALED_X) {}

  ghost const SCALED_Y :=
    Equation(Sub(Mul(Mul(V(0), V(1)), Sub(Mul(V(2), Mul(V(1), V(1))), Mul(V(3), Mul(V(1), V(1))))),
    Mul(V(4), Mul(Mul(V(1), V(1)), V(1)))), Mul(Sub(Mul(V(0), Sub(V(2), V(3))), V(4)), Mul(Mul(V(1), V(1)), V(1))))

  lemma ScaledY() ensures Valid(SCALED_Y) {}

  // Scaling carries the third point of the line of slope m to that of the line of slope m g.
  lemma ScaledThird<W(!new)>(w: Ring<W>, g: W, p: Point<W>, x2: W, m: W)
    requires IsRing(w)
    ensures ThirdPoint(w, Scaled(w, g, p), w.mul(x2, w.mul(g, g)), w.mul(m, g)) == Scaled(w, g, ThirdPoint(w, p, x2, m))
  {
    ScaledX(); Apply(w, SCALED_X, [m, g, p.x, x2]);
    ScaledY(); Apply(w, SCALED_Y, [m, g, p.x, ThirdPoint(w, p, x2, m).x, p.y]);
  }

  lemma ProductIsZero<W(!new)>(w: Ring<W>, a: W, u: W)
    requires IsField(w) && u != w.zero
    ensures w.mul(a, u) == w.zero <==> a == w.zero
    ensures forall b: W :: w.mul(a, u) == w.mul(b, u) <==> a == b
  {
    NonzeroProduct(w, a, u);
    forall b: W ensures w.mul(a, u) == w.mul(b, u) <==> a == b {
      Use(w, a, u, u); Use(w, b, u, u);
      CancelFactor(w, u, a, b);
    }
  }

  // (n u g) / (d u) = (n / d) g
  lemma ScaledSlope<W(!new)>(w: Ring<W>, n: W, d: W, u: W, g: W)
    requires IsField(w) && u != w.zero
    ensures w.mul(w.mul(n, w.mul(u, g)), Inv(w, w.mul(d, u))) == w.mul(w.mul(n, Inv(w, d)), g)
  {
    if d == w.zero {
      ZeroHasNoInverse(w);
      MulZero(w, u); MulZero(w, n); MulZero(w, g); MulZero(w, w.mul(n, w.mul(u, g)));
    } else {
      var i, j := Inv(w, d), Inv(w, u);
      InvWorks(w, d); InvWorks(w, u);
      SwapMul(w, d, u, i, j);
      OneIsUnit(w, w.one);
      InvUnique(w, w.mul(d, u), w.mul(i, j));
      // (n (u g)) (i j) = (n i) ((u g) j) = (n i) g
      SwapMul(w, n, w.mul(u, g), i, j);
      Use(w, g, u, j); Use(w, u, g, j); OneIsUnit(w, g);
    }
  }

  ghost const SCALED_NUMERATOR :=
    Equation(Mul(C(3), Mul(Mul(V(0), Mul(V(1), V(1))), Mul(V(0), Mul(V(1), V(1))))), Mul(Mul(C(3), Mul(V(0), V(0))),
    Mul(Mul(Mul(V(1), V(1)), V(1)), V(1))))

  lemma ScaledNumerator() ensures Valid(SCALED_NUMERATOR) {}

  ghost predicate NonzeroScale<W(!new)>(w: Ring<W>, g: W) { IsField(w) && g != w.zero }

  lemma ScaleFactors<W(!new)>(w: Ring<W>, g: W, p: Point<W>)
    requires NonzeroScale(w, g)
    ensures w.mul(g, g) != w.zero && w.mul(w.mul(g, g), g) != w.zero
    ensures Scaled(w, g, p) == Infinity(w) <==> p == Infinity(w)
  {
    NonzeroProduct(w, g, g); NonzeroProduct(w, w.mul(g, g), g);
    ProductIsZero(w, p.x, w.mul(g, g)); ProductIsZero(w, p.y, w.mul(w.mul(g, g), g));
  }

  lemma ScaledTangentSlope<W(!new)>(w: Ring<W>, g: W, p: Point<W>)
    requires NonzeroScale(w, g)
    ensures TangentSlope(w, Inverse(w), Scaled(w, g, p)) == w.mul(TangentSlope(w, Inverse(w), p), g)
  {
    var g3 := w.mul(w.mul(g, g), g);
    ScaleFactors(w, g, p);
    ScaledNumerator(); Apply(w, SCALED_NUMERATOR, [p.x, g]);
    Use(w, g3, p.y, p.y); Use(w, p.y, g3, g3); Use(w, w.add(p.y, p.y), g3, g3);
    ScaledSlope(w, w.mul(OfInt(w, 3), w.mul(p.x, p.x)), w.add(p.y, p.y), g3, g);
  }

  lemma ScaledChordSlope<W(!new)>(w: Ring<W>, g: W, p: Point<W>, q: Point<W>)
    requires NonzeroScale(w, g)
    ensures ChordSlope(w, Inverse(w), Scaled(w, g, p), Scaled(w, g, q)) == w.mul(ChordSlope(w, Inverse(w), p, q), g)
  {
    var g2 := w.mul(g, g);
    ScaleFactors(w, g, p);
    DifferenceTimes(w, q.x, p.x, g2); DifferenceTimes(w, q.y, p.y, w.mul(g2, g));
    ScaledSlope(w, w.sub(q.y, p.y), w.sub(q.x, p.x), g2, g);
  }

  lemma ScaledDouble<W(!new)>(w: Ring<W>, g: W, p: Point<W>)
    requires NonzeroScale(w, g)
    ensures PointDouble(w, Inverse(w), Scaled(w, g, p)) == Scaled(w, g, PointDouble(w, Inverse(w), p))
  {
    ScaleFactors(w, g, p);
    if p == Infinity(w) {
      MulZero(w, w.mul(g, g)); MulZero(w, w.mul(w.mul(g, g), g));
    } else {
      ScaledTangentSlope(w, g, p);
      ScaledThird(w, g, p, p.x, TangentSlope(w, Inverse(w), p));
    }
  }

  lemma ScaledNegative<W(!new)>(w: Ring<W>, g: W, p: Point<W>)
    requires IsRing(w)
    ensures Scaled(w, g, Negated(w, p)) == Negated(w, Scaled(w, g, p))
  {
    var g3 := w.mul(w.mul(g, g), g);
    Use(w, w.sub(w.zero, p.y), g3, g3); Use(w, p.y, g3, g3);
    OppositeProduct(w, g3, p.y);
  }

  lemma ScaledAdd<W(!new)>(w: Ring<W>, g: W, p: Point<W>, q: Point<W>)
    requires NonzeroScale(w, g)
    ensures PointAdd(w, Inverse(w), Scaled(w, g, p), Scaled(w, g, q)) == Scaled(w, g, PointAdd(w, Inverse(w), p, q))
  {
    var g2 := w.mul(g, g);
    var g3 := w.mul(g2, g);
    ScaleFactors(w, g, p); ScaleFactors(w, g, q);
    MulZero(w, g2); MulZero(w, g3);
    ProductIsZero(w, p.x, g2); ProductIsZero(w, p.y, g3); ProductIsZero(w, w.sub(w.zero, p.y), g3);
    ScaledNegative(w, g, p);
    ScaledDouble(w, g, p);
    ScaledChordSlope(w, g, p, q);
    ScaledThird(w, g, p, q.x, ChordSlope(w, Inverse(w), p, q));
  }

  ghost const SCALED_CUBE :=
    Equation(Add(Mul(Mul(Mul(V(0), Mul(V(2), V(2))), Mul(V(0), Mul(V(2), V(2)))), Mul(V(0), Mul(V(2), V(2)))),
    Mul(V(1), Mul(Mul(Mul(V(2), V(2)), Mul(V(2), V(2))), Mul(V(2), V(2))))), Mul(Add(Mul(Mul(V(0), V(0)), V(0)),
    V(1)), Mul(Mul(Mul(V(2), V(2)), Mul(V(2), V(2))), Mul(V(2), V(2)))))

  lemma ScaledCube() ensures Valid(SCALED_CUBE) {}

  ghost const SCALED_SQUARE :=
    Equation(Mul(Mul(V(0), Mul(Mul(V(1), V(1)), V(1))), Mul(V(0), Mul(Mul(V(1), V(1)), V(1)))), Mul(Mul(V(0), V(0)),
    Mul(Mul(Mul(V(1), V(1)), Mul(V(1), V(1))), Mul(V(1), V(1)))))

  lemma ScaledSquare() ensures Valid(SCALED_SQUARE) {}

  lemma ScaledOnCurve<W(!new)>(w: Ring<W>, g: W, b: W, p: Point<W>)
    requires NonzeroScale(w, g)
    ensures var e := w.mul(g, g);
            OnCurve(w, w.mul(b, w.mul(w.mul(e, e), e)), Scaled(w, g, p)) <==> OnCurve(w, b, p)
  {
    var e := w.mul(g, g);
    var k, y2 := w.mul(w.mul(e, e), e), w.mul(p.y, p.y);
    NonzeroProduct(w, g, g); NonzeroProduct(w, e, e); NonzeroProduct(w, w.mul(e, e), e);
    ScaledCube(); Apply(w, SCALED_CUBE, [p.x, b, g]);
    ScaledSquare(); Apply(w, SCALED_SQUARE, [p.y, g]);
    ProductIsZero(w, y2, k);
  }

  // ---- untwisting along an embedding of the field of the twist ----------------------------------------------

  /** (x, y) goes to (e(x) g^2, e(y) g^3). */
  function Untwist<S, W>(w: Ring<W>, e: S -> W, g: W, p: Point<S>): Point<W> { Scaled(w, g, MapPoint(e, p)) }

  ghost predicate UntwistSetting<S(!new), W(!new)>(s: Ring<S>, w: Ring<W>, e: S -> W, g: W) {
    Embeds(s, w, e) && g != w.zero
  }

  /** A homomorphism between fields is injective. */
  lemma FieldHomEmbeds<S(!new), W(!new)>(s: Ring<S>, w: Ring<W>, e: S -> W)
    requires IsField(s) && IsField(w) && IsHom(s, w, e)
    ensures Embeds(s, w, e)
  {
    forall a: S, b: S | e(a) == e(b) ensures a == b {
      var d := s.sub(a, b);
      UseHom(s, w, e, a, b);
      DifferenceIsZero(w, e(a), e(b)); DifferenceIsZero(s, a, b);
      if d != s.zero {
        InvWorks(s, d);
        UseHom(s, w, e, d, Inv(s, d));
        MulZero(w, e(Inv(s, d)));
      }
    }
  }

  /** Untwisting is injective, keeps infinity and negatives, and carries doubling and addition along. */
  lemma UntwistIsHom<S(!new), W(!new)>(s: Ring<S>, w: Ring<W>, e: S -> W, g: W, p: Point<S>, q: Point<S>)
    requires UntwistSetting(s, w, e, g)
    ensures Untwist(w, e, g, Negated(s, p)) == Negated(w, Untwist(w, e, g, p))
    ensures Untwist(w, e, g, PointDouble(s, Inverse(s), p)) == PointDouble(w, Inverse(w), Untwist(w, e, g, p))
    ensures Untwist(w, e, g, PointAdd(s, Inverse(s), p, q)) ==
            PointAdd(w, Inverse(w), Untwist(w, e, g, p), Untwist(w, e, g, q))
  {
    UseHom(s, w, e, s.zero, p.y);
    ScaledNegative(w, g, MapPoint(e, p));
    MapDouble(s, w, e, p);
    ScaledDouble(w, g, MapPoint(e, p));
    MapAdd(s, w, e, p, q);
    ScaledAdd(w, g, MapPoint(e, p), MapPoint(e, q));
  }

  /** The twist y^2 = x^3 + b goes to the curve y^2 = x^3 + e(b) g^6. */
  lemma UntwistOnCurve<S(!new), W(!new)>(s: Ring<S>, w: Ring<W>, e: S -> W, g: W, b: S, p: Point<S>)
    requires UntwistSetting(s, w, e, g)
    ensures var f := w.mul(g, g);
            OnCurve(w, w.mul(e(b), w.mul(w.mul(f, f), f)), Untwist(w, e, g, p)) <==> OnCurve(s, b, p)
  {
    MapOnCurve(s, w, e, b, p);
    ScaledOnCurve(w, g, e(b), MapPoint(e, p));
  }

  lemma MapSlopes<S(!new), W(!new)>(s: Ring<S>, w: Ring<W>, e: S -> W, p: Point<S>, q: Point<S>)
    requires Embeds(s, w, e)
    ensures e(TangentSlope(s, Inverse(s), p)) == TangentSlope(w, Inverse(w), MapPoint(e, p))
    ensures e(ChordSlope(s, Inverse(s), p, q)) == ChordSlope(w, Inverse(w), MapPoint(e, p), MapPoint(e, q))
  {
    var x2, d := s.mul(p.x, p.x), s.add(p.y, p.y);
    HomOfInt(s, w, e, 3);
    UseHom(s, w, e, p.x, p.x); UseHom(s, w, e, OfInt(s, 3), x2); UseHom(s, w, e, p.y, p.y);
    MapInverse(s, w, e, d);
    UseHom(s, w, e, s.mul(OfInt(s, 3), x2), Inv(s, d));
    var c := s.sub(q.x, p.x);
    UseHom(s, w, e, q.y, p.y); UseHom(s, w, e, q.x, p.x);
    MapInverse(s, w, e, c);
    UseHom(s, w, e, s.sub(q.y, p.y), Inv(s, c));
  }

  /** A tangent or chord of slope m goes to one of slope e(m) g. */
  lemma UntwistSlopes<S(!new), W(!new)>(s: Ring<S>, w: Ring<W>, e: S -> W, g: W, p: Point<S>, q: Point<S>)
    requires UntwistSetting(s, w, e, g)
    ensures TangentSlope(w, Inverse(w), Untwist(w, e, g, p)) == w.mul(e(TangentSlope(s, Inverse(s), p)), g)
    ensures ChordSlope(w, Inverse(w), Untwist(w, e, g, p), Untwist(w, e, g, q)) ==
            w.mul(e(ChordSlope(s, Inverse(s), p, q)), g)
  {
    MapSlopes(s, w, e, p, q);
    ScaledTangentSlope(w, g, MapPoint(e, p));
    ScaledChordSlope(w, g, MapPoint(e, p), MapPoint(e, q));
  }
}
