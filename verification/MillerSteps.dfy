/** The steps of the Miller loop: point doubling and addition on the twist with the line coefficients. */
module MillerSteps {
  import opened Rings
  import opened Solver
  import opened Powers
  import opened FieldLaws
  import opened AffineCurve
  import opened ProjectiveCurve

  /** The line l0 y + l1 x + l2 = 0 */
  datatype Line<S> = Line(l0: S, l1: S, l2: S)

  function DoubleStep<S>(s: Ring<S>, b: S, half: S, t: Proj<S>): (Line<S>, Proj<S>) {
    var a := s.mul(s.mul(t.x, t.y), half);
    var bb, c := s.mul(t.y, t.y), s.mul(t.z, t.z);
    var d := s.add(s.add(c, c), c);
    var e := s.mul(d, b);
    var f := s.add(s.add(e, e), e);
    var g := s.mul(s.add(bb, f), half);
    var h := s.add(t.y, t.z);
    var h2 := s.sub(s.mul(h, h), s.add(bb, c));
    var i := s.sub(e, bb);
    var j := s.mul(t.x, t.x);
    var ee := s.mul(e, e);
    var k := s.add(s.add(ee, ee), ee);
    (Line(s.sub(s.zero, h2), s.add(s.add(j, j), j), i),
     Proj(s.mul(s.sub(bb, f), a), s.sub(s.mul(g, g), k), s.mul(bb, h2)))
  }

  function MixedAdditionStep<S>(s: Ring<S>, q: Point<S>, t: Proj<S>): (Line<S>, Proj<S>) {
    var o := s.sub(t.y, s.mul(q.y, t.z));
    var l := s.sub(t.x, s.mul(q.x, t.z));
    var c, d := s.mul(o, o), s.mul(l, l);
    var e := s.mul(l, d);
    var f, g := s.mul(t.z, c), s.mul(t.x, d);
    var h := s.sub(s.add(e, f), s.add(g, g));
    var j := s.sub(s.mul(q.x, o), s.mul(l, q.y));
    (Line(l, s.sub(s.zero, o), j),
     Proj(s.mul(l, h), s.sub(s.mul(s.sub(g, h), o), s.mul(t.y, e)), s.mul(e, t.z)))
  }

  // ---- the right lines -------------------------------------------------------------------------------------

  // The line of slope m through a, with coefficient 1 of y
  ghost function AffineLine<S>(s: Ring<S>, a: Point<S>, m: S): Line<S> {
    Line(s.one, s.sub(s.zero, m), s.sub(s.mul(m, a.x), a.y))
  }

  ghost function Multiple<S>(s: Ring<S>, k: S, l: Line<S>): Line<S> {
    Line(s.mul(k, l.l0), s.mul(k, l.l1), s.mul(k, l.l2))
  }

  ghost function ValueAt<S>(s: Ring<S>, l: Line<S>, p: Point<S>): S {
    s.add(s.add(s.mul(l.l0, p.y), s.mul(l.l1, p.x)), l.l2)
  }

  ghost const HALVED_X :=
    Equation(Mul(Sub(V(1), Mul(C(3), V(2))), Mul(V(0), V(3))), Add(Mul(Mul(C(2), Mul(V(0), Sub(V(1), Mul(C(3),
    V(2))))), Mul(V(3), V(3))), Mul(Mul(Sub(V(1), Mul(C(3), V(2))), Mul(V(0), V(3))), Sub(C(1), Add(V(3), V(3))))))

  lemma HalvedX() ensures Valid(HALVED_X) {}

  ghost const HALVED_Y :=
    Equation(Sub(Mul(Mul(Add(V(1), Mul(C(3), V(2))), V(3)), Mul(Add(V(1), Mul(C(3), V(2))), V(3))), Mul(C(3),
    Mul(V(2), V(2)))), Add(Mul(Add(Mul(Sub(V(1), Mul(C(3), V(2))), Add(V(1), V(2))), Mul(C(8), Mul(V(1), V(2)))),
    Mul(V(3), V(3))), Mul(Mul(Sub(C(0), Mul(C(3), Mul(V(2), V(2)))), Add(C(1), Add(V(3), V(3)))), Sub(C(1),
    Add(V(3), V(3))))))

  lemma HalvedY() ensures Valid(HALVED_Y) {}

  ghost const HALVED_Z :=
    Equation(Mul(V(1), Mul(C(2), V(4))), Add(Mul(Mul(C(8), Mul(V(1), V(4))), Mul(V(3), V(3))), Mul(Mul(Mul(C(2),
    Mul(V(1), V(4))), Add(C(1), Add(V(3), V(3)))), Sub(C(1), Add(V(3), V(3))))))

  lemma HalvedZ() ensures Valid(HALVED_Z) {}

  ghost const TRIPLE_TIMES :=
    Equation(Mul(Add(Add(V(0), V(0)), V(0)), V(1)), Mul(Mul(C(3), V(1)), V(0)))

  lemma TripleTimes() ensures Valid(TRIPLE_TIMES) {}

  ghost const TWICE_YZ :=
    Equation(Sub(Mul(Add(V(0), V(1)), Add(V(0), V(1))), Add(Mul(V(0), V(0)), Mul(V(1), V(1)))), Mul(C(2), Mul(V(0),
    V(1))))

  lemma TwiceYz() ensures Valid(TWICE_YZ) {}

  ghost const TANGENT_L0 :=
    Equation(Sub(C(0), Mul(C(2), Mul(V(0), V(1)))), Sub(C(0), Mul(Add(V(0), V(0)), V(1))))

  lemma TangentL0() ensures Valid(TANGENT_L0) {}

  ghost const TANGENT_L1 :=
    Equation(Mul(Mul(V(2), Add(V(0), V(0))), V(1)), Mul(Sub(C(0), Mul(Add(V(0), V(0)), V(1))), Sub(C(0), V(2))))

  lemma TangentL1() ensures Valid(TANGENT_L1) {}

  ghost const TANGENT_L2 :=
    Equation(Mul(Sub(C(0), Mul(Add(V(0), V(0)), V(1))), Sub(Mul(V(2), V(3)), V(0))), Mul(Sub(Mul(C(2), Mul(V(0),
    V(0))), Mul(Mul(V(2), Add(V(0), V(0))), V(3))), V(1)))

  lemma TangentL2() ensures Valid(TANGENT_L2) {}

  ghost const TANGENT_CONSTANT :=
    Equation(Mul(Sub(Mul(C(2), Add(V(0), V(1))), Mul(C(3), V(0))), V(2)), Sub(Mul(Mul(C(3), V(1)), V(2)),
    Mul(Add(V(0), V(1)), V(2))))

  lemma TangentConstant() ensures Valid(TANGENT_CONSTANT) {}

  ghost const MIXED_H :=
    Equation(Sub(Add(Mul(Mul(V(0), V(0)), Mul(Sub(V(3), V(4)), V(1))), Mul(V(1), Mul(Mul(V(2), V(0)), Mul(V(2),
    V(0))))), Add(Mul(Mul(V(3), V(1)), Mul(V(0), V(0))), Mul(Mul(V(3), V(1)), Mul(V(0), V(0))))), Mul(Mul(V(0),
    V(0)), Mul(V(1), Sub(Mul(V(2), V(2)), Add(V(3), V(4))))))

  lemma MixedH() ensures Valid(MIXED_H) {}

  ghost const MIXED_Y :=
    Equation(Sub(Mul(Sub(Mul(Mul(V(3), V(1)), Mul(V(0), V(0))), Mul(Mul(V(0), V(0)), Mul(V(1), V(6)))), Mul(V(2),
    V(0))), Mul(Mul(V(5), V(1)), Mul(V(0), Mul(V(0), V(0))))), Mul(Sub(Mul(V(2), Sub(V(3), V(6))), V(5)),
    Mul(Mul(V(0), Mul(V(0), V(0))), V(1))))

  lemma MixedY() ensures Valid(MIXED_Y) {}

  ghost const MIXED_X :=
    Equation(Mul(V(0), Mul(Mul(V(0), V(0)), Mul(V(1), V(6)))), Mul(V(6), Mul(Mul(V(0), Mul(V(0), V(0))), V(1))))

  lemma MixedX() ensures Valid(MIXED_X) {}

  ghost const MIXED_L2 :=
    Equation(Sub(Mul(V(2), Mul(V(1), V(0))), Mul(V(0), V(3))), Mul(V(0), Sub(Mul(V(1), V(2)), V(3))))

  lemma MixedL2() ensures Valid(MIXED_L2) {}

  ghost const MIXED_L1 :=
    Equation(Sub(C(0), Mul(V(1), V(0))), Mul(V(0), Sub(C(0), V(1))))

  lemma MixedL1() ensures Valid(MIXED_L1) {}

  ghost const SAME_INTERCEPT :=
    Equation(Sub(Mul(V(0), V(1)), V(2)), Add(Sub(Mul(V(0), V(3)), V(4)), Sub(Mul(V(0), Sub(V(1), V(3))), Sub(V(2),
    V(4)))))

  lemma SameIntercept() ensures Valid(SAME_INTERCEPT) {}

  ghost const LINE_VALUE :=
    Equation(Add(Add(Mul(V(0), V(5)), Mul(Mul(V(0), Sub(C(0), V(1))), V(4))), Mul(V(0), Sub(Mul(V(1), V(2)),
    V(3)))), Mul(V(0), Sub(V(5), Add(Mul(V(1), Sub(V(4), V(2))), V(3)))))

  lemma LineValueValid() ensures Valid(LINE_VALUE) {}


  /** A multiple of the line of slope m through a vanishes exactly on that line. */
  lemma LineVanishes<S(!new)>(s: Ring<S>, k: S, a: Point<S>, m: S, p: Point<S>)
    requires IsField(s) && k != s.zero
    ensures ValueAt(s, Multiple(s, k, AffineLine(s, a, m)), p) == s.zero <==>
                p.y == s.add(s.mul(m, s.sub(p.x, a.x)), a.y)
  {
    var l := AffineLine(s, a, m);
    OneIsUnit(s, k);
    LineValueValid(); Apply(s, LINE_VALUE, [k, m, a.x, a.y, p.x, p.y]);
    var v := s.add(s.mul(m, s.sub(p.x, a.x)), a.y);
    NonzeroProduct(s, k, s.sub(p.y, v));
    DifferenceIsZero(s, p.y, v);
  }

  lemma LineSlope<S(!new)>(s: Ring<S>, a: Point<S>, c: Point<S>, m: S)
    requires IsRing(s) && s.mul(m, s.sub(a.x, c.x)) == s.sub(a.y, c.y)
    ensures AffineLine(s, a, m) == AffineLine(s, c, m)
  {
    SameIntercept(); Apply(s, SAME_INTERCEPT, [m, a.x, a.y, c.x, c.y]);
    var d := s.sub(a.y, c.y);
    DifferenceIsZero(s, d, d);
    var i := s.sub(s.mul(m, c.x), c.y);
    Use(s, i, s.zero, s.zero);
  }

  // ---- doubling --------------------------------------------------------------------------------------------

  lemma ScaledRepresents<S(!new)>(s: Ring<S>, p: Proj<S>, a: Point<S>, c: S)
    requires IsField(s) && c != s.zero && Represents(s, p, a)
    ensures Represents(s, Proj(s.mul(p.x, c), s.mul(p.y, c), s.mul(p.z, c)), a)
  {
    NonzeroProduct(s, p.z, c);
    Use(s, a.x, p.z, c); Use(s, a.y, p.z, c);
  }

  lemma DoubleStepIsHalved<S(!new)>(s: Ring<S>, b: S, half: S, t: Proj<S>)
    requires IsRing(s) && s.add(half, half) == s.one
    ensures var d, p, c := Doubled(s, s.mul(OfInt(s, 3), b), t), DoubleStep(s, b, half, t).1, s.mul(half, half);
            p == Proj(s.mul(d.x, c), s.mul(d.y, c), s.mul(d.z, c))
    ensures DoubleStep(s, b, half, t).0.l0 == s.sub(s.zero, s.mul(OfInt(s, 2), s.mul(t.y, t.z)))
  {
    var bb, c, w := s.mul(t.y, t.y), s.mul(t.z, t.z), s.mul(t.y, t.z);
    var e := s.mul(s.add(s.add(c, c), c), b);
    var env := [s.mul(t.x, t.y), bb, e, half, w];
    OneIsInteger(s);
    TripleTimes(); Apply(s, TRIPLE_TIMES, [c, b]);
    TwiceYz(); Apply(s, TWICE_YZ, [t.y, t.z]);
    ThriceIs(s, e); ThriceIs(s, s.mul(e, e));
    HalvedX(); Apply(s, HALVED_X, env);
    HalvedY(); Apply(s, HALVED_Y, env);
    HalvedZ(); Apply(s, HALVED_Z, env);
    var d := Doubled(s, s.mul(OfInt(s, 3), b), t);
    var hh, q, g := s.mul(half, half), s.mul(t.x, t.y), s.sub(bb, s.mul(OfInt(s, 3), e));
    CancelDifference(s, s.mul(d.x, hh), s.mul(g, s.mul(q, half)), s.one);
    CancelDifference(s, s.mul(d.y, hh),
        s.mul(s.sub(OfInt(s, 0), s.mul(OfInt(s, 3), s.mul(e, e))), s.add(OfInt(s, 1), s.one)), s.one);
    CancelDifference(s, s.mul(d.z, hh), s.mul(s.mul(OfInt(s, 2), s.mul(bb, w)), s.add(OfInt(s, 1), s.one)), s.one);
  }

  ghost function TangentSlope<S>(s: Ring<S>, inv: S -> S, a: Point<S>): S {
    s.mul(s.mul(OfInt(s, 3), s.mul(a.x, a.x)), inv(s.add(a.y, a.y)))
  }

  ghost function ChordSlope<S>(s: Ring<S>, inv: S -> S, a: Point<S>, q: Point<S>): S {
    s.mul(s.sub(q.y, a.y), inv(s.sub(q.x, a.x)))
  }

  lemma TangentLine<S(!new)>(s: Ring<S>, b: S, half: S, t: Proj<S>, a: Point<S>, m: S)
    requires IsRing(s) && OnCurve(s, b, a) && t.x == s.mul(a.x, t.z) && t.y == s.mul(a.y, t.z)
    requires s.mul(m, s.add(a.y, a.y)) == s.mul(OfInt(s, 3), s.mul(a.x, a.x)) && s.add(half, half) == s.one
    ensures var k := s.sub(s.zero, s.mul(s.add(a.y, a.y), s.mul(t.z, t.z)));
            DoubleStep(s, b, half, t).0 == Multiple(s, k, AffineLine(s, a, m))
  {
    var x, y, z2 := a.x, a.y, s.mul(t.z, t.z);
    var k, xx, yy := s.sub(s.zero, s.mul(s.add(y, y), z2)), s.mul(x, x), s.mul(y, y);
    OneIsUnit(s, k);
    DoubleStepIsHalved(s, b, half, t);
    Use(s, y, t.z, t.z);
    TangentL0(); Apply(s, TANGENT_L0, [y, z2, m]);
    SwapMul(s, x, t.z, x, t.z); SwapMul(s, y, t.z, y, t.z);
    ThriceIs(s, s.mul(t.x, t.x));
    Use(s, OfInt(s, 3), xx, z2);
    TangentL1(); Apply(s, TANGENT_L1, [y, z2, m]);
    TripleTimes(); Apply(s, TRIPLE_TIMES, [z2, b]);
    TangentL2(); Apply(s, TANGENT_L2, [y, z2, m, x]);
    Use(s, OfInt(s, 3), xx, x);
    TangentConstant(); Apply(s, TANGENT_CONSTANT, [s.mul(xx, x), b, z2]);
  }

  /** double_step refines the tangent construction: it returns a representative of 2 a and, up to a nonzero factor,
      the tangent at a. */
  lemma DoubleStepRefines<S(!new)>(s: Ring<S>, b: S, inv: S -> S, half: S, t: Proj<S>, a: Point<S>)
    requires CurveSetting(s, b, inv) && s.add(half, half) == s.one
    requires OnCurve(s, b, a) && t.z != s.zero && Represents(s, t, a)
    ensures var p := DoubleStep(s, b, half, t).1;
            p.z != s.zero && Represents(s, p, PointDouble(s, inv, a)) && OnCurve(s, b, PointDouble(s, inv, a))
    ensures var k := s.sub(s.zero, s.mul(s.add(a.y, a.y), s.mul(t.z, t.z)));
            k != s.zero && DoubleStep(s, b, half, t).0 == Multiple(s, k, AffineLine(s, a, TangentSlope(s, inv, a)))
  {
    DoubleIsTangent(s, b, inv, a);
    CurvePointFacts(s, b, inv, a);
    HalfIsNotZero(s, half);
    NonzeroProduct(s, half, half); NonzeroProduct(s, t.z, t.z);
    NonzeroProduct(s, s.add(a.y, a.y), s.mul(t.z, t.z));
    NonzeroNegative(s, s.mul(s.add(a.y, a.y), s.mul(t.z, t.z)));
    DoubleRefines(s, b, inv, t, a);
    var d := Doubled(s, s.mul(OfInt(s, 3), b), t);
    ScaledRepresents(s, d, PointDouble(s, inv, a), s.mul(half, half));
    NonzeroProduct(s, d.z, s.mul(half, half));
    DoubleStepIsHalved(s, b, half, t);
    TangentLine(s, b, half, t, a, TangentSlope(s, inv, a));
  }

  lemma HalfIsNotZero<S(!new)>(s: Ring<S>, half: S)
    requires IsField(s) && s.add(half, half) == s.one
    ensures half != s.zero
  {
    Use(s, s.zero, s.zero, s.zero);
  }

  lemma NonzeroNegative<S(!new)>(s: Ring<S>, x: S)
    requires IsRing(s) && x != s.zero
    ensures s.sub(s.zero, x) != s.zero
  {
    DifferenceIsZero(s, s.zero, x);
  }

  // ---- mixed addition ------------------------------------------------------------------------------------------

  lemma MixedParts<S(!new)>(s: Ring<S>, q: Point<S>, t: Proj<S>, a: Point<S>, m: S)
    requires IsRing(s) && t.x == s.mul(a.x, t.z) && t.y == s.mul(a.y, t.z)
    requires s.mul(m, s.sub(a.x, q.x)) == s.sub(a.y, q.y)
    ensures var l, p, x := s.mul(s.sub(a.x, q.x), t.z), MixedAdditionStep(s, q, t).1,
                s.sub(s.mul(m, m), s.add(a.x, q.x));
            && p.z == s.mul(s.mul(l, s.mul(l, l)), t.z)
            && p.x == s.mul(x, p.z) && p.y == s.mul(s.sub(s.mul(m, s.sub(a.x, x)), a.y), p.z)
    ensures var l := s.mul(s.sub(a.x, q.x), t.z);
            MixedAdditionStep(s, q, t).0 == Multiple(s, l, AffineLine(s, q, m))
  {
    var z, l := t.z, s.mul(s.sub(a.x, q.x), t.z);
    DifferenceTimes(s, a.x, q.x, z); DifferenceTimes(s, a.y, q.y, z);
    Use(s, m, s.sub(a.x, q.x), z);
    var o, x := s.mul(m, l), s.sub(s.mul(m, m), s.add(a.x, q.x));
    Use(s, l, s.mul(l, l), l);
    MixedH(); Apply(s, MIXED_H, [l, z, m, a.x, q.x]);
    MixedX(); Apply(s, MIXED_X, [l, z, m, a.x, q.x, a.y, x]);
    MixedY(); Apply(s, MIXED_Y, [l, z, m, a.x, q.x, a.y, x]);
    MixedL1(); Apply(s, MIXED_L1, [l, m]);
    MixedL2(); Apply(s, MIXED_L2, [l, m, q.x, q.y]);
    OneIsUnit(s, l);
  }

  // The chord case: different abscissas
  lemma ChordStep<S(!new)>(s: Ring<S>, b: S, inv: S -> S, q: Point<S>, t: Proj<S>, a: Point<S>)
    requires CurveSetting(s, b, inv) && OnCurve(s, b, q) && a.x != q.x
    requires OnCurve(s, b, a) && t.z != s.zero && Represents(s, t, a)
    ensures var p := MixedAdditionStep(s, q, t).1;
            p.z != s.zero && Represents(s, p, PointAdd(s, inv, a, q)) && OnCurve(s, b, PointAdd(s, inv, a, q))
    ensures var k := s.mul(s.sub(a.x, q.x), t.z);
            k != s.zero && MixedAdditionStep(s, q, t).0 == Multiple(s, k, AffineLine(s, a, ChordSlope(s, inv, a, q)))
  {
    var m, l := ChordSlope(s, inv, a, q), s.mul(s.sub(a.x, q.x), t.z);
    AddIsChord(s, b, inv, a, q);
    CurvePointFacts(s, b, inv, PointAdd(s, inv, a, q));
    SlopeFlips(s, m, a, q);
    LineSlope(s, a, q, m);
    MixedParts(s, q, t, a, m);
    DifferenceIsZero(s, a.x, q.x);
    NonzeroProduct(s, s.sub(a.x, q.x), t.z); NonzeroProduct(s, l, l); NonzeroProduct(s, l, s.mul(l, l));
    NonzeroProduct(s, s.mul(l, s.mul(l, l)), t.z);
  }

  // The vertical line through a
  ghost function Vertical<S>(s: Ring<S>, a: Point<S>): Line<S> { Line(s.zero, s.sub(s.zero, s.one), a.x) }

  // The vertical case: equal abscissas give a multiple of the vertical line and the denominator zero.
  lemma VerticalStep<S(!new)>(s: Ring<S>, q: Point<S>, t: Proj<S>, a: Point<S>)
    requires IsRing(s) && t.x == s.mul(a.x, t.z) && t.y == s.mul(a.y, t.z) && a.x == q.x
    ensures var k, step := s.mul(s.sub(a.y, q.y), t.z), MixedAdditionStep(s, q, t);
            && step.0 == Multiple(s, k, Vertical(s, a)) && step.1.x == s.zero && step.1.z == s.zero
            && (k == s.zero ==> step.1.y == s.zero)
  {
    var z, k, y := t.z, s.mul(s.sub(a.y, q.y), t.z), s.zero;
    DifferenceTimes(s, a.y, q.y, z);
    DifferenceIsZero(s, t.x, t.x); DifferenceIsZero(s, y, y);
    MulZero(s, y); MulZero(s, z); MulZero(s, t.x); MulZero(s, t.y); MulZero(s, q.y); MulZero(s, k);
    var f := s.mul(z, s.mul(k, k));
    MulZero(s, s.sub(s.add(y, f), s.add(y, y)));
    MulZero(s, s.sub(y, s.sub(s.add(y, f), s.add(y, y))));
    Use(s, y, y, y); Use(s, s.mul(q.x, k), y, y); Use(s, q.x, k, k);
    SubUnique(s, s.mul(q.x, k), y, s.mul(q.x, k));
    OppositeProduct(s, k, s.one); Use(s, k, k, k);
  }

  /** A step from a with a line: the chord, or the vertical line for opposite points. */
  ghost function LineThrough<S>(s: Ring<S>, inv: S -> S, a: Point<S>, q: Point<S>): Line<S> {
    if a.x != q.x then AffineLine(s, a, ChordSlope(s, inv, a, q)) else Vertical(s, a)
  }

  ghost function LineFactor<S>(s: Ring<S>, t: Proj<S>, a: Point<S>, q: Point<S>): S {
    s.mul(if a.x != q.x then s.sub(a.x, q.x) else s.sub(a.y, q.y), t.z)
  }

  /** mixed_addition_step on all points of the curve: for a and q different it returns their sum and a nonzero multiple
      of the line through them, with denominator zero exactly for opposite points; for a = q it returns zeros only. */
  lemma MixedAdditionRefines<S(!new)>(s: Ring<S>, b: S, inv: S -> S, q: Point<S>, t: Proj<S>, a: Point<S>)
    requires CurveSetting(s, b, inv) && OnCurve(s, b, q) && OnCurve(s, b, a) && t.z != s.zero && Represents(s, t, a)
    ensures MixedAdditionStep(s, q, t).1.z != s.zero <==> a.x != q.x
    ensures a != q ==> Represents(s, MixedAdditionStep(s, q, t).1, PointAdd(s, inv, a, q))
    ensures a != q ==> LineFactor(s, t, a, q) != s.zero
    ensures a != q ==> MixedAdditionStep(s, q, t).0 == Multiple(s, LineFactor(s, t, a, q), LineThrough(s, inv, a, q))
    ensures a == q ==> MixedAdditionStep(s, q, t) == (Line(s.zero, s.zero, s.zero), Proj(s.zero, s.zero, s.zero))
  {
    if a.x != q.x {
      ChordStep(s, b, inv, q, t, a);
    } else {
      VerticalStep(s, q, t, a);
      DifferenceIsZero(s, a.y, q.y);
      NonzeroProduct(s, s.sub(a.y, q.y), t.z);
      EqualOrOpposite(s, b, inv, a, q);
      MulZero(s, s.sub(s.zero, s.one)); MulZero(s, s.zero); MulZero(s, a.x);
    }
  }

  /** A triple with z = 0 stays one in both steps. */
  lemma StepsKeepInfinity<S(!new)>(s: Ring<S>, b: S, half: S, q: Point<S>, t: Proj<S>)
    requires IsRing(s) && t.z == s.zero
    ensures DoubleStep(s, b, half, t).1.z == s.zero && MixedAdditionStep(s, q, t).1.z == s.zero
  {
    var bb, y := s.mul(t.y, t.y), t.y;
    MulZero(s, s.zero);
    Use(s, y, y, y); Use(s, bb, s.zero, s.zero);
    DifferenceIsZero(s, bb, bb);
    MulZero(s, bb);
    var l := s.sub(t.x, s.mul(q.x, t.z));
    MulZero(s, s.mul(l, s.mul(l, l)));
  }

  lemma SlopeFlips<S(!new)>(s: Ring<S>, m: S, a: Point<S>, q: Point<S>)
    requires IsRing(s) && s.mul(m, s.sub(q.x, a.x)) == s.sub(q.y, a.y)
    ensures s.mul(m, s.sub(a.x, q.x)) == s.sub(a.y, q.y)
  {
    Opposite(s, a.x, q.x); Opposite(s, a.y, q.y);
    OppositeProduct(s, m, s.sub(q.x, a.x));
  }

  function Negated<S>(s: Ring<S>, a: Point<S>): Point<S> { Point(a.x, s.sub(s.zero, a.y)) }

  ghost const NEGATED_ORDINATE :=
    Equation(Sub(C(0), Sub(Mul(V(0), Sub(V(1), V(2))), V(3))), Add(Mul(V(0), Sub(V(2), V(1))), V(3)))

  lemma NegatedOrdinate() ensures Valid(NEGATED_ORDINATE) {}

  lemma ThirdPointOnLine<S(!new)>(s: Ring<S>, p: Point<S>, x2: S, m: S)
    requires IsRing(s)
    ensures var t := Negated(s, ThirdPoint(s, p, x2, m)); t.y == s.add(s.mul(m, s.sub(t.x, p.x)), p.y)
  {
    var x := ThirdPoint(s, p, x2, m).x;
    NegatedOrdinate(); Apply(s, NEGATED_ORDINATE, [m, p.x, x, p.y]);
  }

  /** The line of double_step vanishes at a and at -(2 a). */
  lemma DoubleLineVanishes<S(!new)>(s: Ring<S>, b: S, inv: S -> S, half: S, t: Proj<S>, a: Point<S>)
    requires CurveSetting(s, b, inv) && s.add(half, half) == s.one
    requires OnCurve(s, b, a) && t.z != s.zero && Represents(s, t, a)
    ensures ValueAt(s, DoubleStep(s, b, half, t).0, a) == s.zero
    ensures ValueAt(s, DoubleStep(s, b, half, t).0, Negated(s, PointDouble(s, inv, a))) == s.zero
  {
    var m, k := TangentSlope(s, inv, a), s.sub(s.zero, s.mul(s.add(a.y, a.y), s.mul(t.z, t.z)));
    DoubleStepRefines(s, b, inv, half, t, a);
    DoubleIsTangent(s, b, inv, a);
    ThirdPointOnLine(s, a, a.x, m);
    DifferenceIsZero(s, a.x, a.x);
    MulZero(s, m);
    Use(s, s.zero, a.y, a.y); Use(s, a.y, s.zero, s.zero);
    LineVanishes(s, k, a, m, a);
    LineVanishes(s, k, a, m, Negated(s, PointDouble(s, inv, a)));
  }

  /** The line of mixed_addition_step vanishes at a and at q, and for different abscissas at -(a + q). */
  lemma AdditionLineVanishes<S(!new)>(s: Ring<S>, b: S, inv: S -> S, q: Point<S>, t: Proj<S>, a: Point<S>)
    requires CurveSetting(s, b, inv) && OnCurve(s, b, q) && OnCurve(s, b, a) && t.z != s.zero && Represents(s, t, a)
    ensures var l := MixedAdditionStep(s, q, t).0;
            && ValueAt(s, l, a) == s.zero && ValueAt(s, l, q) == s.zero
            && (a.x != q.x ==> ValueAt(s, l, Negated(s, PointAdd(s, inv, a, q))) == s.zero)
  {
    if a.x != q.x {
      ChordLineVanishes(s, b, inv, q, t, a);
    } else {
      VerticalStep(s, q, t, a);
      VerticalVanishes(s, s.mul(s.sub(a.y, q.y), t.z), a, a.y);
      VerticalVanishes(s, s.mul(s.sub(a.y, q.y), t.z), a, q.y);
    }
  }

  lemma VerticalVanishes<S(!new)>(s: Ring<S>, k: S, a: Point<S>, y: S)
    requires IsRing(s)
    ensures ValueAt(s, Multiple(s, k, Vertical(s, a)), Point(a.x, y)) == s.zero
  {
    var n, x := s.sub(s.zero, s.one), a.x;
    MulZero(s, k); MulZero(s, y);
    OppositeProduct(s, x, s.one); Use(s, k, n, x); Use(s, n, x, x); Use(s, x, x, x);
    Use(s, k, s.sub(s.zero, x), x); Use(s, s.zero, x, x);
    Use(s, s.zero, s.mul(k, s.sub(s.zero, x)), x); Use(s, s.mul(k, s.sub(s.zero, x)), s.zero, x);
  }

  lemma ChordLineVanishes<S(!new)>(s: Ring<S>, b: S, inv: S -> S, q: Point<S>, t: Proj<S>, a: Point<S>)
    requires CurveSetting(s, b, inv) && OnCurve(s, b, q) && a.x != q.x
    requires OnCurve(s, b, a) && t.z != s.zero && Represents(s, t, a)
    ensures var l := MixedAdditionStep(s, q, t).0;
            && ValueAt(s, l, a) == s.zero && ValueAt(s, l, q) == s.zero
            && ValueAt(s, l, Negated(s, PointAdd(s, inv, a, q))) == s.zero
  {
    var m, k := ChordSlope(s, inv, a, q), s.mul(s.sub(a.x, q.x), t.z);
    ChordStep(s, b, inv, q, t, a);
    AddIsChord(s, b, inv, a, q);
    ThirdPointOnLine(s, a, q.x, m);
    DifferenceIsZero(s, a.x, a.x);
    MulZero(s, m);
    Use(s, s.zero, a.y, a.y); Use(s, a.y, s.zero, s.zero);
    Use(s, q.y, a.y, a.y);
    LineVanishes(s, k, a, m, a); LineVanishes(s, k, a, m, q);
    LineVanishes(s, k, a, m, Negated(s, PointAdd(s, inv, a, q)));
  }
}
