/** Points of y^2 = x^3 + b in Jacobian coordinates: the scripts' formulas, and those of EcAddG2.yul. */
module JacobianCurve {
  import opened Rings
  import opened Solver
  import opened Powers
  import opened FieldLaws
  import opened AffineCurve
  import opened ProjectiveCurve

  function Square<T>(r: Ring<T>, z: T): T { r.mul(z, z) }
  function Cube<T>(r: Ring<T>, z: T): T { r.mul(r.mul(z, z), z) }

  /** The affine point (X / Z^2, Y / Z^3) of a triple; every triple with Z = 0 is the point at infinity. */
  ghost predicate Denotes<T>(r: Ring<T>, p: Proj<T>, a: Point<T>) {
    if p.z == r.zero then a == Infinity(r)
    else a != Infinity(r) && p.x == r.mul(a.x, Square(r, p.z)) && p.y == r.mul(a.y, Cube(r, p.z))
  }

  // ---- the shape common to all the formulas -----------------------------------------------------------

  ghost const CHORD_ABSCISSA :=
    Equation(Sub(Sub(Mul(Mul(V(3), V(4)), Mul(V(3), V(4))), Mul(Sub(V(1), V(0)), Mul(V(4), V(4)))), Add(Mul(V(0),
    Mul(V(4), V(4))), Mul(V(0), Mul(V(4), V(4))))), Mul(Sub(Mul(V(3), V(3)), Add(V(0), V(1))), Mul(V(4), V(4))))

  lemma ChordAbscissa() ensures Valid(CHORD_ABSCISSA) {}

  ghost const CHORD_ORDINATE :=
    Equation(Sub(Mul(Mul(V(3), V(4)), Sub(Mul(V(0), Mul(V(4), V(4))), Mul(V(5), Mul(V(4), V(4))))), Mul(V(2),
    Mul(Mul(V(4), V(4)), V(4)))), Mul(Sub(Mul(V(3), Sub(V(0), V(5))), V(2)), Mul(Mul(V(4), V(4)), V(4))))

  lemma ChordOrdinate() ensures Valid(CHORD_ORDINATE) {}

  ghost const TANGENT_ABSCISSA :=
    Equation(Sub(Mul(Mul(V(3), V(4)), Mul(V(3), V(4))), Add(Mul(V(0), Mul(V(4), V(4))), Mul(V(0), Mul(V(4),
    V(4))))), Mul(Sub(Mul(V(3), V(3)), Add(V(0), V(0))), Mul(V(4), V(4))))

  lemma TangentAbscissa() ensures Valid(TANGENT_ABSCISSA) {}

  // From x1 k^2, (x2 - x1) k^2, y1 k^3 and m k the formulas compute the third point with denominator k.
  lemma ChordShape<T(!new)>(r: Ring<T>, p: Point<T>, x2: T, m: T, k: T, v: T, j: T, s: T, n: T)
    requires IsRing(r) && v == r.mul(p.x, Square(r, k)) && j == r.mul(r.sub(x2, p.x), Square(r, k))
    requires s == r.mul(p.y, Cube(r, k)) && n == r.mul(m, k)
    ensures var t, x := ThirdPoint(r, p, x2, m), r.sub(r.sub(r.mul(n, n), j), r.add(v, v));
            x == r.mul(t.x, Square(r, k)) && r.sub(r.mul(n, r.sub(v, x)), s) == r.mul(t.y, Cube(r, k))
  {
    var t := ThirdPoint(r, p, x2, m);
    ChordAbscissa(); Apply(r, CHORD_ABSCISSA, [p.x, x2, p.y, m, k]);
    ChordOrdinate(); Apply(r, CHORD_ORDINATE, [p.x, x2, p.y, m, k, t.x]);
  }

  lemma TangentShape<T(!new)>(r: Ring<T>, p: Point<T>, m: T, k: T, v: T, s: T, n: T)
    requires IsRing(r) && v == r.mul(p.x, Square(r, k)) && s == r.mul(p.y, Cube(r, k)) && n == r.mul(m, k)
    ensures var t, x := ThirdPoint(r, p, p.x, m), r.sub(r.mul(n, n), r.add(v, v));
            x == r.mul(t.x, Square(r, k)) && r.sub(r.mul(n, r.sub(v, x)), s) == r.mul(t.y, Cube(r, k))
  {
    var t := ThirdPoint(r, p, p.x, m);
    TangentAbscissa(); Apply(r, TANGENT_ABSCISSA, [p.x, p.x, p.y, m, k]);
    ChordOrdinate(); Apply(r, CHORD_ORDINATE, [p.x, p.x, p.y, m, k, t.x]);
  }

  // ---- doubling ------------------------------------------------------------------------------------------

  /** 9 X^4 - 8 X Y^2, 3 X^2 (4 X Y^2 - X') - 8 Y^4, 2 Y Z */
  ghost function DoubledTriple<T>(r: Ring<T>, p: Proj<T>): Proj<T> {
    var xx, yy := r.mul(p.x, p.x), r.mul(p.y, p.y);
    var n, v, s := r.mul(OfInt(r, 3), xx), r.mul(OfInt(r, 4), r.mul(p.x, yy)), r.mul(OfInt(r, 8), r.mul(yy, yy));
    var x := r.sub(r.mul(n, n), r.add(v, v));
    Proj(x, r.sub(r.mul(n, r.sub(v, x)), s), r.mul(OfInt(r, 2), r.mul(p.y, p.z)))
  }

  ghost const DOUBLE_V :=
    Equation(Mul(C(4), Mul(Mul(V(0), V(2)), Mul(Mul(V(1), V(1)), Mul(Mul(V(2), V(2)), V(2))))), Mul(V(0),
    Mul(Mul(Add(V(1), V(1)), Mul(V(2), V(2))), Mul(Add(V(1), V(1)), Mul(V(2), V(2))))))

  lemma DoubleV() ensures Valid(DOUBLE_V) {}

  ghost const DOUBLE_S :=
    Equation(Mul(C(8), Mul(Mul(Mul(V(0), V(0)), Mul(V(0), V(0))), Mul(Mul(V(1), V(1)), V(1)))), Mul(V(0),
    Mul(Mul(Mul(Add(V(0), V(0)), V(1)), Mul(Add(V(0), V(0)), V(1))), Mul(Add(V(0), V(0)), V(1)))))

  lemma DoubleS() ensures Valid(DOUBLE_S) {}

  ghost const TWO_TIMES :=
    Equation(Mul(C(2), V(0)), Add(V(0), V(0)))

  lemma TwoTimes() ensures Valid(TWO_TIMES) {}

  /** The doubling formulas give the tangent's third point with denominator 2 y Z^4, from any representative. */
  lemma DoubledTripleRefines<T(!new)>(r: Ring<T>, b: T, inv: T -> T, p: Proj<T>, a: Point<T>)
    requires CurveSetting(r, b, inv) && OnCurve(r, b, a) && p.z != r.zero && Denotes(r, p, a)
    ensures var d := DoubledTriple(r, p); d.z != r.zero && Denotes(r, d, PointDouble(r, inv, a))
  {
    var x, y, z2 := a.x, a.y, Square(r, p.z);
    var z3, z4, d := Cube(r, p.z), r.mul(z2, z2), r.add(y, y);
    var m := r.mul(r.mul(OfInt(r, 3), r.mul(x, x)), inv(d));
    var k := r.mul(d, z4);
    DoubleIsTangent(r, b, inv, a);
    CurvePointFacts(r, b, inv, a);
    CurvePointFacts(r, b, inv, PointDouble(r, inv, a));
    DoubledParts(r, a, p, m);
    var xx, yy := r.mul(p.x, p.x), r.mul(p.y, p.y);
    TangentShape(r, a, m, k, r.mul(OfInt(r, 4), r.mul(p.x, yy)), r.mul(OfInt(r, 8), r.mul(yy, yy)),
        r.mul(OfInt(r, 3), xx));
    NonzeroProduct(r, p.z, p.z); NonzeroProduct(r, z2, z2); NonzeroProduct(r, d, z4);
  }

  lemma DoubledParts<T(!new)>(r: Ring<T>, a: Point<T>, p: Proj<T>, m: T)
    requires IsRing(r) && p.x == r.mul(a.x, Square(r, p.z)) && p.y == r.mul(a.y, Cube(r, p.z))
    requires r.mul(m, r.add(a.y, a.y)) == r.mul(OfInt(r, 3), r.mul(a.x, a.x))
    ensures var z2, xx, yy := Square(r, p.z), r.mul(p.x, p.x), r.mul(p.y, p.y);
            var k := r.mul(r.add(a.y, a.y), r.mul(z2, z2));
            && r.mul(OfInt(r, 3), xx) == r.mul(m, k)
            && r.mul(OfInt(r, 4), r.mul(p.x, yy)) == r.mul(a.x, Square(r, k))
            && r.mul(OfInt(r, 8), r.mul(yy, yy)) == r.mul(a.y, Cube(r, k))
            && r.mul(OfInt(r, 2), r.mul(p.y, p.z)) == k
  {
    var z, z2, z3, d := p.z, Square(r, p.z), Cube(r, p.z), r.add(a.y, a.y);
    SwapMul(r, a.x, z2, a.x, z2); SwapMul(r, a.y, z3, a.y, z3); SwapMul(r, z2, z, z2, z);
    var z4 := r.mul(z2, z2);
    Use(r, OfInt(r, 3), r.mul(a.x, a.x), z4); Use(r, m, d, z4);
    var env := [a.x, a.y, z2];
    DoubleV(); Apply(r, DOUBLE_V, env);
    var w, yy := r.mul(z4, z2), r.mul(a.y, a.y);
    SwapMul(r, yy, w, yy, w); SwapMul(r, z4, z2, z4, z2);
    DoubleS(); Apply(r, DOUBLE_S, [a.y, z4]);
    Use(r, a.y, z3, z); Use(r, z2, z, z);
    TwoTimes(); Apply(r, TWO_TIMES, [r.mul(a.y, z4)]);
    Use(r, z4, a.y, a.y); Use(r, a.y, z4, z4); Use(r, d, z4, z4);
  }

  /** double of jacobian_projective_point.py. */
  function JacobianDouble<T(==)>(r: Ring<T>, p: Proj<T>): Proj<T> {
    if p.z == r.zero then p
    else if p.y == r.zero then Proj(r.zero, r.zero, r.zero)
    else
      var xx, yy := r.mul(p.x, p.x), r.mul(p.y, p.y);
      var yyyy := r.mul(yy, yy);
      var s := r.mul(OfInt(r, 4), r.mul(p.x, yy));
      var m := r.mul(OfInt(r, 3), xx);
      var x0 := r.sub(Power(r, m, 2), r.mul(OfInt(r, 2), s));
      var y0 := r.sub(r.mul(m, r.sub(s, x0)), r.mul(OfInt(r, 8), yyyy));
      Proj(x0, y0, r.mul(r.mul(p.y, p.z), OfInt(r, 2)))
  }

  ghost const EIGHT_TIMES_BY_DOUBLING :=
    Equation(Add(Add(Add(V(0), V(0)), Add(V(0), V(0))), Add(Add(V(0), V(0)), Add(V(0), V(0)))), Mul(C(8), V(0)))

  lemma EightTimesByDoubling() ensures Valid(EIGHT_TIMES_BY_DOUBLING) {}

  ghost const FOUR_PRODUCTS :=
    Equation(Add(Sub(Sub(Mul(Add(V(0), V(1)), Add(V(0), V(1))), Mul(V(0), V(0))), Mul(V(1), V(1))),
    Sub(Sub(Mul(Add(V(0), V(1)), Add(V(0), V(1))), Mul(V(0), V(0))), Mul(V(1), V(1)))), Mul(C(4), Mul(V(0), V(1))))

  lemma FourProducts() ensures Valid(FOUR_PRODUCTS) {}

  /** g2JacobianDouble of EcAddG2.yul. */
  function G2JacobianDouble<T>(s: Ring<T>, p: Proj<T>): Proj<T> {
    var a, b := s.mul(p.x, p.x), s.mul(p.y, p.y);
    var c := s.mul(b, b);
    var t0 := s.add(p.x, b);
    var t3 := s.sub(s.sub(s.mul(t0, t0), a), c);
    var d := s.add(t3, t3);
    var e := s.add(s.add(a, a), a);
    var f := s.mul(e, e);
    var x := s.sub(f, s.add(d, d));
    var t6 := s.add(c, c);
    var t61 := s.add(t6, t6);
    var t62 := s.add(t61, t61);
    var t8 := s.mul(p.y, p.z);
    Proj(x, s.sub(s.mul(e, s.sub(d, x)), t62), s.add(t8, t8))
  }

  lemma BothDouble<T(!new)>(r: Ring<T>, p: Proj<T>)
    requires IsRing(r)
    ensures G2JacobianDouble(r, p) == DoubledTriple(r, p)
    ensures p.z != r.zero && p.y != r.zero ==> JacobianDouble(r, p) == DoubledTriple(r, p)
  {
    var xx, yy := r.mul(p.x, p.x), r.mul(p.y, p.y);
    var v, n, t := r.mul(OfInt(r, 4), r.mul(p.x, yy)), r.mul(OfInt(r, 3), xx), r.mul(p.y, p.z);
    SmallPowers(r, n);
    TwoTimes(); Apply(r, TWO_TIMES, [v]); Apply(r, TWO_TIMES, [t]);
    Use(r, t, OfInt(r, 2), t);
    EightTimesByDoubling(); Apply(r, EIGHT_TIMES_BY_DOUBLING, [r.mul(yy, yy)]);
    FourProducts(); Apply(r, FOUR_PRODUCTS, [p.x, yy]);
    ThriceIs(r, xx);
  }

  /** Doubling refines the affine law on every triple that denotes a point of the curve or infinity. */
  lemma DoubleRefinesAffine<T(!new)>(r: Ring<T>, b: T, inv: T -> T, p: Proj<T>, a: Point<T>)
    requires CurveSetting(r, b, inv) && Proper(r, b, a) && Denotes(r, p, a)
    ensures Denotes(r, JacobianDouble(r, p), PointDouble(r, inv, a))
    ensures p.z != r.zero ==>
                Denotes(r, G2JacobianDouble(r, p), PointDouble(r, inv, a)) && G2JacobianDouble(r, p).z != r.zero
  {
    if p.z != r.zero {
      CurvePointFacts(r, b, inv, a);
      NonzeroProduct(r, p.z, p.z); NonzeroProduct(r, Square(r, p.z), p.z); NonzeroProduct(r, a.y, Cube(r, p.z));
      BothDouble(r, p);
      DoubledTripleRefines(r, b, inv, p, a);
    }
  }

  // ---- addition -------------------------------------------------------------------------------------------

  /** add of jacobian_projective_point.py. */
  function JacobianAdd<T(==)>(r: Ring<T>, p: Proj<T>, q: Proj<T>): Proj<T> {
    if p.z == r.zero then q
    else if q.z == r.zero then p
    else
      var zpzp, zqzq := r.mul(p.z, p.z), r.mul(q.z, q.z);
      var t1, t2 := r.mul(p.x, zqzq), r.mul(q.x, zpzp);
      var s1, s2 := r.mul(p.y, r.mul(q.z, zqzq)), r.mul(q.y, r.mul(p.z, zpzp));
      if t1 == t2 then
        if s1 != s2 then Proj(r.zero, r.zero, r.zero) else JacobianDouble(r, p)
      else
        var h, n := r.sub(t2, t1), r.sub(s2, s1);
        var hh := r.mul(h, h);
        var hhh := r.mul(hh, h);
        var x := r.sub(r.sub(r.mul(n, n), hhh), r.mul(r.mul(t1, hh), OfInt(r, 2)));
        Proj(x, r.sub(r.mul(n, r.sub(r.mul(t1, hh), x)), r.mul(s1, hhh)), r.mul(h, r.mul(p.z, q.z)))
  }

  /** g2JacobianAdd of EcAddG2.yul. */
  function G2JacobianAdd<T>(s: Ring<T>, a: Proj<T>, b: Proj<T>): Proj<T> {
    var aa, bb := s.mul(a.z, a.z), s.mul(b.z, b.z);
    var u1, u2 := s.mul(a.x, bb), s.mul(b.x, aa);
    var s1, s2 := s.mul(a.y, s.mul(b.z, bb)), s.mul(b.y, s.mul(a.z, aa));
    var h := s.sub(u2, u1);
    var t4 := s.add(h, h);
    var i := s.mul(t4, t4);
    var j := s.mul(h, i);
    var t6 := s.sub(s2, s1);
    var n := s.add(t6, t6);
    var v := s.mul(u1, i);
    var x := s.sub(s.sub(s.mul(n, n), j), s.add(v, v));
    var t16 := s.mul(s1, j);
    var t22 := s.add(a.z, b.z);
    Proj(x, s.sub(s.mul(n, s.sub(v, x)), s.add(t16, t16)), s.mul(s.sub(s.sub(s.mul(t22, t22), aa), bb), h))
  }

  ghost const TWICE_PRODUCT :=
    Equation(Sub(Sub(Mul(Add(V(0), V(1)), Add(V(0), V(1))), Mul(V(0), V(0))), Mul(V(1), V(1))), Mul(C(2), Mul(V(0),
    V(1))))

  lemma TwiceProduct() ensures Valid(TWICE_PRODUCT) {}

  ghost const SCALED_ABSCISSA :=
    Equation(Mul(Mul(V(0), Mul(V(1), V(1))), Mul(V(2), V(2))), Mul(V(0), Mul(Mul(V(2), V(1)), Mul(V(2), V(1)))))

  lemma ScaledAbscissa() ensures Valid(SCALED_ABSCISSA) {}

  ghost const SCALED_ORDINATE :=
    Equation(Mul(Mul(V(0), Mul(Mul(V(1), V(1)), V(1))), Mul(Mul(V(2), V(2)), V(2))), Mul(V(0), Mul(Mul(Mul(V(2),
    V(1)), Mul(V(2), V(1))), Mul(V(2), V(1)))))

  lemma ScaledOrdinate() ensures Valid(SCALED_ORDINATE) {}

  ghost const SCALED_SLOPE :=
    Equation(Mul(Mul(V(3), V(0)), Mul(Mul(V(1), V(1)), V(1))), Mul(V(3), Mul(Mul(V(0), Mul(V(1), V(1))), V(1))))

  lemma ScaledSlope() ensures Valid(SCALED_SLOPE) {}

  ghost const TWICE_SCALED_ABSCISSA :=
    Equation(Mul(Mul(V(0), Mul(V(1), V(1))), Mul(Add(V(2), V(2)), Add(V(2), V(2)))), Mul(V(0), Mul(Mul(V(2),
    Add(V(1), V(1))), Mul(V(2), Add(V(1), V(1))))))

  lemma TwiceScaledAbscissa() ensures Valid(TWICE_SCALED_ABSCISSA) {}

  ghost const TWICE_SCALED_ORDINATE :=
    Equation(Add(Mul(Mul(V(0), Mul(Mul(V(1), V(1)), V(1))), Mul(V(2), Mul(Add(V(2), V(2)), Add(V(2), V(2))))),
    Mul(Mul(V(0), Mul(Mul(V(1), V(1)), V(1))), Mul(V(2), Mul(Add(V(2), V(2)), Add(V(2), V(2)))))), Mul(V(0),
    Mul(Mul(Mul(V(2), Add(V(1), V(1))), Mul(V(2), Add(V(1), V(1)))), Mul(V(2), Add(V(1), V(1))))))

  lemma TwiceScaledOrdinate() ensures Valid(TWICE_SCALED_ORDINATE) {}

  ghost const TWICE_SCALED_SLOPE :=
    Equation(Add(Mul(Mul(V(3), V(0)), Mul(Mul(V(1), V(1)), V(1))), Mul(Mul(V(3), V(0)), Mul(Mul(V(1), V(1)),
    V(1)))), Mul(V(3), Mul(Mul(V(0), Mul(V(1), V(1))), Add(V(1), V(1)))))

  lemma TwiceScaledSlope() ensures Valid(TWICE_SCALED_SLOPE) {}

  // What the cross products t1, t2, s1, s2 are, with v = zp zq
  lemma CrossProducts<T(!new)>(r: Ring<T>, p: Proj<T>, q: Proj<T>, ap: Point<T>, aq: Point<T>)
    requires IsRing(r) && p.x == r.mul(ap.x, Square(r, p.z)) && p.y == r.mul(ap.y, Cube(r, p.z))
    requires q.x == r.mul(aq.x, Square(r, q.z)) && q.y == r.mul(aq.y, Cube(r, q.z))
    ensures var v, pp, qq := r.mul(p.z, q.z), r.mul(p.z, p.z), r.mul(q.z, q.z);
            && r.mul(p.x, qq) == r.mul(ap.x, Square(r, v)) && r.mul(q.x, pp) == r.mul(aq.x, Square(r, v))
            && r.mul(p.y, r.mul(q.z, qq)) == r.mul(ap.y, Cube(r, v))
                && r.mul(q.y, r.mul(p.z, pp)) == r.mul(aq.y, Cube(r, v))
            && r.sub(r.mul(q.x, pp), r.mul(p.x, qq)) == r.mul(r.sub(aq.x, ap.x), Square(r, v))
            && r.sub(r.mul(q.y, r.mul(p.z, pp)), r.mul(p.y, r.mul(q.z, qq))) == r.mul(r.sub(aq.y, ap.y), Cube(r, v))
  {
    var v, pp, qq := r.mul(p.z, q.z), r.mul(p.z, p.z), r.mul(q.z, q.z);
    SwapMul(r, p.z, q.z, p.z, q.z); SwapMul(r, pp, qq, p.z, q.z);
    Use(r, pp, qq, qq); Use(r, q.z, qq, qq); Use(r, p.z, pp, pp);
    Use(r, ap.x, pp, qq); Use(r, aq.x, qq, pp);
    var p3, q3 := r.mul(pp, p.z), r.mul(qq, q.z);
    Use(r, ap.y, p3, q3); Use(r, aq.y, q3, p3); Use(r, p3, q3, q3);
    DifferenceTimes(r, aq.x, ap.x, Square(r, v)); DifferenceTimes(r, aq.y, ap.y, Cube(r, v));
  }

  /** For different abscissas the chord's third point comes out with denominator (x2 - x1) v^3, or twice that. */
  lemma ChordTriple<T(!new)>(r: Ring<T>, p: Proj<T>, q: Proj<T>, ap: Point<T>, aq: Point<T>, m: T)
    requires IsField(r) && p.z != r.zero && q.z != r.zero && ap.x != aq.x && r.add(r.one, r.one) != r.zero
    requires p.x == r.mul(ap.x, Square(r, p.z)) && p.y == r.mul(ap.y, Cube(r, p.z))
    requires q.x == r.mul(aq.x, Square(r, q.z)) && q.y == r.mul(aq.y, Cube(r, q.z))
    requires r.mul(m, r.sub(aq.x, ap.x)) == r.sub(aq.y, ap.y)
    ensures var d, t := JacobianAdd(r, p, q), ThirdPoint(r, ap, aq.x, m);
            d.z != r.zero && d.x == r.mul(t.x, Square(r, d.z)) && d.y == r.mul(t.y, Cube(r, d.z))
    ensures var d, t := G2JacobianAdd(r, p, q), ThirdPoint(r, ap, aq.x, m);
            d.z != r.zero && d.x == r.mul(t.x, Square(r, d.z)) && d.y == r.mul(t.y, Cube(r, d.z))
  {
    var v, e := r.mul(p.z, q.z), r.sub(aq.x, ap.x);
    var h := r.mul(e, Square(r, v));
    CrossProducts(r, p, q, ap, aq);
    DifferenceIsZero(r, aq.x, ap.x);
    NonzeroProduct(r, p.z, q.z); NonzeroProduct(r, v, v); NonzeroProduct(r, e, Square(r, v)); NonzeroProduct(r, h, v);
    DifferenceIsZero(r, r.mul(q.x, r.mul(p.z, p.z)), r.mul(p.x, r.mul(q.z, q.z)));
    ScriptChord(r, ap, aq, m, v, h);
    G2Chord(r, ap, aq, m, v, h);
    OneIsUnit(r, v);
    Use(r, v, r.one, r.one);
    NonzeroProduct(r, v, r.add(r.one, r.one)); NonzeroProduct(r, h, r.add(v, v));
    TwiceProduct(); Apply(r, TWICE_PRODUCT, [p.z, q.z]);
    TwoTimes(); Apply(r, TWO_TIMES, [v]); Apply(r, TWO_TIMES, [r.mul(r.mul(ap.x, Square(r, v)), r.mul(h, h))]);
    var w := r.mul(r.mul(ap.x, Square(r, v)), r.mul(h, h));
    Use(r, w, OfInt(r, 2), w); Use(r, h, r.add(v, v), v);
  }

  lemma ScriptChord<T(!new)>(r: Ring<T>, ap: Point<T>, aq: Point<T>, m: T, v: T, h: T)
    requires IsRing(r) && h == r.mul(r.sub(aq.x, ap.x), Square(r, v))
    requires r.mul(m, r.sub(aq.x, ap.x)) == r.sub(aq.y, ap.y)
    ensures var t1, s1, n, k := r.mul(ap.x, Square(r, v)), r.mul(ap.y, Cube(r, v)),
                r.mul(r.sub(aq.y, ap.y), Cube(r, v)), r.mul(h, v);
            var hh := r.mul(h, h);
            var hhh := r.mul(hh, h);
            var x, t := r.sub(r.sub(r.mul(n, n), hhh), r.add(r.mul(t1, hh), r.mul(t1, hh))), ThirdPoint(r, ap, aq.x, m);
            && x == r.mul(t.x, Square(r, k))
            && r.sub(r.mul(n, r.sub(r.mul(t1, hh), x)), r.mul(s1, hhh)) == r.mul(t.y, Cube(r, k))
  {
    var e, hh, k := r.sub(aq.x, ap.x), r.mul(h, h), r.mul(h, v);
    ScaledAbscissa(); Apply(r, SCALED_ABSCISSA, [ap.x, v, h]); Apply(r, SCALED_ABSCISSA, [e, v, h]);
    Use(r, h, hh, hh);
    ScaledOrdinate(); Apply(r, SCALED_ORDINATE, [ap.y, v, h]);
    ScaledSlope(); Apply(r, SCALED_SLOPE, [e, v, h, m]);
    var t1, s1, n := r.mul(ap.x, Square(r, v)), r.mul(ap.y, Cube(r, v)), r.mul(r.sub(aq.y, ap.y), Cube(r, v));
    ChordShape(r, ap, aq.x, m, k, r.mul(t1, hh), r.mul(hh, h), r.mul(s1, r.mul(hh, h)), n);
  }

  lemma G2Chord<T(!new)>(r: Ring<T>, ap: Point<T>, aq: Point<T>, m: T, v: T, h: T)
    requires IsRing(r) && h == r.mul(r.sub(aq.x, ap.x), Square(r, v))
    requires r.mul(m, r.sub(aq.x, ap.x)) == r.sub(aq.y, ap.y)
    ensures var u1, s1, t6 := r.mul(ap.x, Square(r, v)), r.mul(ap.y, Cube(r, v)), r.mul(r.sub(aq.y, ap.y), Cube(r, v));
            var i, n, k := r.mul(r.add(h, h), r.add(h, h)), r.add(t6, t6), r.mul(h, r.add(v, v));
            var j, w := r.mul(h, i), r.mul(u1, i);
            var x, t := r.sub(r.sub(r.mul(n, n), j), r.add(w, w)), ThirdPoint(r, ap, aq.x, m);
            && x == r.mul(t.x, Square(r, k))
            && r.sub(r.mul(n, r.sub(w, x)), r.add(r.mul(s1, j), r.mul(s1, j))) == r.mul(t.y, Cube(r, k))
  {
    var e, i, k := r.sub(aq.x, ap.x), r.mul(r.add(h, h), r.add(h, h)), r.mul(h, r.add(v, v));
    TwiceScaledAbscissa(); Apply(r, TWICE_SCALED_ABSCISSA, [ap.x, v, h]); Apply(r, TWICE_SCALED_ABSCISSA, [e, v, h]);
    TwiceScaledOrdinate(); Apply(r, TWICE_SCALED_ORDINATE, [ap.y, v, h]);
    TwiceScaledSlope(); Apply(r, TWICE_SCALED_SLOPE, [e, v, h, m]);
    var u1, s1, t6 := r.mul(ap.x, Square(r, v)), r.mul(ap.y, Cube(r, v)), r.mul(r.sub(aq.y, ap.y), Cube(r, v));
    var j := r.mul(h, i);
    ChordShape(r, ap, aq.x, m, k, r.mul(u1, i), j, r.add(r.mul(s1, j), r.mul(s1, j)), r.add(t6, t6));
  }

  /** Addition refines the affine law on all triples that denote points of the curve or infinity. */
  lemma AddRefinesAffine<T(!new)>(r: Ring<T>, b: T, inv: T -> T, p: Proj<T>, q: Proj<T>, ap: Point<T>, aq: Point<T>)
    requires CurveSetting(r, b, inv) && Proper(r, b, ap) && Proper(r, b, aq) && Denotes(r, p, ap) && Denotes(r, q, aq)
    ensures Denotes(r, JacobianAdd(r, p, q), PointAdd(r, inv, ap, aq))
    ensures p.z != r.zero && q.z != r.zero && ap.x != aq.x ==>
              G2JacobianAdd(r, p, q).z != r.zero && Denotes(r, G2JacobianAdd(r, p, q), PointAdd(r, inv, ap, aq))
  {
    if p.z != r.zero && q.z != r.zero {
      CurvePointFacts(r, b, inv, ap); CurvePointFacts(r, b, inv, aq);
      if ap.x != aq.x {
        var m := r.mul(r.sub(aq.y, ap.y), inv(r.sub(aq.x, ap.x)));
        AddIsChord(r, b, inv, ap, aq);
        CurvePointFacts(r, b, inv, PointAdd(r, inv, ap, aq));
        ChordTriple(r, p, q, ap, aq, m);
      } else {
        SameX(r, b, ap, aq);
        SameAbscissa(r, b, inv, p, q, ap, aq);
        DoubleRefinesAffine(r, b, inv, p, ap);
      }
    }
  }

  lemma SameAbscissa<T(!new)>(r: Ring<T>, b: T, inv: T -> T, p: Proj<T>, q: Proj<T>, ap: Point<T>, aq: Point<T>)
    requires CurveSetting(r, b, inv) && OnCurve(r, b, ap) && OnCurve(r, b, aq) && Denotes(r, p, ap) && Denotes(r, q, aq)
    requires p.z != r.zero && q.z != r.zero && ap.x == aq.x
    ensures JacobianAdd(r, p, q) == if ap.y == aq.y then JacobianDouble(r, p) else Proj(r.zero, r.zero, r.zero)
    ensures PointAdd(r, inv, ap, aq) == if ap.y == aq.y then PointDouble(r, inv, ap) else Infinity(r)
  {
    var v := r.mul(p.z, q.z);
    CurvePointFacts(r, b, inv, ap); CurvePointFacts(r, b, inv, aq);
    CrossProducts(r, p, q, ap, aq);
    NonzeroProduct(r, p.z, q.z); NonzeroProduct(r, v, v); NonzeroProduct(r, Square(r, v), v);
    Use(r, Cube(r, v), ap.y, aq.y); Use(r, Cube(r, v), aq.y, ap.y);
    CancelFactor(r, Cube(r, v), ap.y, aq.y);
    SameX(r, b, ap, aq);
    Use(r, r.zero, ap.y, ap.y);
  }

  /** A triple and its rescaling by a nonzero factor denote the same point. */
  lemma Rescaled<T(!new)>(r: Ring<T>, p: Proj<T>, a: Point<T>, l: T)
    requires IsField(r) && l != r.zero && Denotes(r, p, a)
    ensures Denotes(r, Proj(r.mul(p.x, Square(r, l)), r.mul(p.y, Cube(r, l)), r.mul(p.z, l)), a)
  {
    NonzeroProduct(r, p.z, l);
    if p.z != r.zero {
      var z2, l2 := Square(r, p.z), Square(r, l);
      SwapMul(r, p.z, p.z, l, l); SwapMul(r, z2, p.z, l2, l);
      Use(r, a.x, z2, l2); Use(r, a.y, Cube(r, p.z), Cube(r, l));
    }
  }

  /** Rescaling the inputs of add and double does not change the affine point they compute. */
  lemma RescalingInvariance<T(!new)>(r: Ring<T>, b: T, inv: T -> T, p: Proj<T>, q: Proj<T>, ap: Point<T>,
      aq: Point<T>, l: T, k: T)
    requires CurveSetting(r, b, inv) && Proper(r, b, ap) && Proper(r, b, aq) && Denotes(r, p, ap) && Denotes(r, q, aq)
    requires l != r.zero && k != r.zero
    ensures var p' := Proj(r.mul(p.x, Square(r, l)), r.mul(p.y, Cube(r, l)), r.mul(p.z, l));
            var q' := Proj(r.mul(q.x, Square(r, k)), r.mul(q.y, Cube(r, k)), r.mul(q.z, k));
            && Denotes(r, JacobianAdd(r, p, q), PointAdd(r, inv, ap, aq))
                && Denotes(r, JacobianAdd(r, p', q'), PointAdd(r, inv, ap, aq))
            && Denotes(r, JacobianDouble(r, p), PointDouble(r, inv, ap))
                && Denotes(r, JacobianDouble(r, p'), PointDouble(r, inv, ap))
  {
    var p' := Proj(r.mul(p.x, Square(r, l)), r.mul(p.y, Cube(r, l)), r.mul(p.z, l));
    var q' := Proj(r.mul(q.x, Square(r, k)), r.mul(q.y, Cube(r, k)), r.mul(q.z, k));
    Rescaled(r, p, ap, l); Rescaled(r, q, aq, k);
    AddRefinesAffine(r, b, inv, p, q, ap, aq); AddRefinesAffine(r, b, inv, p', q', ap, aq);
    DoubleRefinesAffine(r, b, inv, p, ap); DoubleRefinesAffine(r, b, inv, p', ap);
  }

  // ---- conversions and scalar multiplication ----------------------------------------------------------------

  /** from_affine. */
  function FromAffine<T(==)>(r: Ring<T>, a: Point<T>): Proj<T> {
    if a == Infinity(r) then Proj(r.zero, r.zero, r.zero) else Proj(a.x, a.y, r.one)
  }

  /** into_affine, with the inverse taken by inv. */
  function IntoAffine<T(==)>(r: Ring<T>, inv: T -> T, p: Proj<T>): Point<T> {
    if p.z == r.zero then Point(r.zero, r.zero)
    else
      var t1 := inv(p.z);
      var t2 := Power(r, t1, 2);
      Point(r.mul(p.x, t2), r.mul(p.y, r.mul(t1, t2)))
  }

  lemma InverseCancels<T(!new)>(r: Ring<T>, x: T, z: T, i: T)
    requires IsRing(r) && r.mul(z, i) == r.one
    ensures r.mul(r.mul(x, z), i) == x
  {
    Use(r, x, z, i); OneIsUnit(r, x);
  }

  /** The conversions are inverse to each other: they lead from points to denotations and back. */
  lemma ConversionsRoundTrip<T(!new)>(r: Ring<T>, inv: T -> T, p: Proj<T>, a: Point<T>)
    requires IsField(r) && Inverts(r, inv)
    ensures Denotes(r, FromAffine(r, a), a)
    ensures Denotes(r, p, a) ==> IntoAffine(r, inv, p) == a
  {
    OneIsUnit(r, r.one); OneIsUnit(r, a.x); OneIsUnit(r, a.y);
    if Denotes(r, p, a) && p.z != r.zero {
      var z, i := p.z, inv(p.z);
      var j := r.mul(i, i);
      SmallPowers(r, i);
      SwapMul(r, z, z, i, i); SwapMul(r, Square(r, z), z, j, i);
      OneIsUnit(r, r.one);
      Use(r, j, i, i);
      InverseCancels(r, a.x, Square(r, z), j); InverseCancels(r, a.y, Cube(r, z), r.mul(j, i));
    }
  }

  /** mul of jacobian_projective_point.py refines affine double-and-add for every scalar. */
  method Multiply<T(==,!new)>(r: Ring<T>, p: Proj<T>, k: nat, ghost b: T, ghost inv: T -> T, ghost a: Point<T>)
    returns (res: Proj<T>)
    requires CurveSetting(r, b, inv) && Proper(r, b, a) && Denotes(r, p, a)
    ensures Denotes(r, res, DoubleAndAdd(r, inv, Infinity(r), a, k))
    ensures IntoAffine(r, inv, res) == DoubleAndAdd(r, inv, Infinity(r), a, k)
  {
    res := Proj(r.zero, r.zero, r.zero);
    var q, scalar := p, k;
    ghost var ar, aq := Infinity(r), a;
    while scalar > 0
      invariant Proper(r, b, ar) && Proper(r, b, aq) && Denotes(r, res, ar) && Denotes(r, q, aq)
      invariant DoubleAndAdd(r, inv, ar, aq, scalar) == DoubleAndAdd(r, inv, Infinity(r), a, k)
    {
      if scalar % 2 != 0 {
        AddProper(r, b, inv, ar, aq);
        AddRefinesAffine(r, b, inv, res, q, ar, aq);
        res := JacobianAdd(r, res, q);
        ar := PointAdd(r, inv, ar, aq);
      }
      DoubleProper(r, b, inv, aq);
      DoubleRefinesAffine(r, b, inv, q, aq);
      q := JacobianDouble(r, q);
      aq := PointDouble(r, inv, aq);
      scalar := scalar / 2;
    }
    ConversionsRoundTrip(r, inv, res, ar);
  }
}
