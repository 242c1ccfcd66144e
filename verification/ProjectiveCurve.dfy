/** Points of y^2 = x^3 + b in homogeneous projective coordinates, with the formulas of EcMul.yul. */
module ProjectiveCurve {
  import opened Rings
  import opened Solver
  import opened Powers
  import opened FieldLaws
  import opened AffineCurve

  datatype Proj<T> = Proj(x: T, y: T, z: T)

  /** The affine point that a triple stands for; every triple with z = 0 is the point at infinity. */
  ghost predicate Represents<T>(r: Ring<T>, p: Proj<T>, a: Point<T>) {
    if p.z == r.zero then a == Infinity(r)
    else a != Infinity(r) && p.x == r.mul(a.x, p.z) && p.y == r.mul(a.y, p.z)
  }

  // ---- doubling ---------------------------------------------------------------------------------------

  /** 2 X Y (Y^2 - 3 b3 Z^2), (Y^2 - 3 b3 Z^2) (Y^2 + b3 Z^2) + 8 b3 Y^2 Z^2, 8 Y^3 Z */
  ghost function Doubled<T>(r: Ring<T>, b3: T, p: Proj<T>): Proj<T> {
    Proj(
      r.mul(OfInt(r, 2), r.mul(r.mul(p.x, p.y), r.sub(r.mul(p.y, p.y), r.mul(OfInt(r, 3), r.mul(b3, r.mul(p.z,
      p.z)))))),
      r.add(r.mul(r.sub(r.mul(p.y, p.y), r.mul(OfInt(r, 3), r.mul(b3, r.mul(p.z, p.z)))), r.add(r.mul(p.y, p.y),
      r.mul(b3, r.mul(p.z, p.z)))), r.mul(OfInt(r, 8), r.mul(r.mul(p.y, p.y), r.mul(b3, r.mul(p.z, p.z))))),
      r.mul(OfInt(r, 8), r.mul(r.mul(p.y, p.y), r.mul(p.y, p.z))))
  }

  ghost const DOUBLE_X :=
    Equation(Add(Mul(Sub(Mul(V(1), V(1)), Add(Add(Mul(V(3), Mul(V(2), V(2))), Mul(V(3), Mul(V(2), V(2)))), Mul(V(3),
    Mul(V(2), V(2))))), Mul(V(0), V(1))), Mul(Sub(Mul(V(1), V(1)), Add(Add(Mul(V(3), Mul(V(2), V(2))), Mul(V(3),
    Mul(V(2), V(2)))), Mul(V(3), Mul(V(2), V(2))))), Mul(V(0), V(1)))), Mul(C(2), Mul(Mul(V(0), V(1)), Sub(Mul(V(1),
    V(1)), Mul(C(3), Mul(V(3), Mul(V(2), V(2))))))))

  lemma DoubleX() ensures Valid(DOUBLE_X) {}

  ghost const DOUBLE_Y :=
    Equation(Add(Mul(Mul(V(3), Mul(V(2), V(2))), Add(Add(Add(Mul(V(1), V(1)), Mul(V(1), V(1))), Add(Mul(V(1), V(1)),
    Mul(V(1), V(1)))), Add(Add(Mul(V(1), V(1)), Mul(V(1), V(1))), Add(Mul(V(1), V(1)), Mul(V(1), V(1)))))),
    Mul(Sub(Mul(V(1), V(1)), Add(Add(Mul(V(3), Mul(V(2), V(2))), Mul(V(3), Mul(V(2), V(2)))), Mul(V(3), Mul(V(2),
    V(2))))), Add(Mul(V(1), V(1)), Mul(V(3), Mul(V(2), V(2)))))), Add(Mul(Sub(Mul(V(1), V(1)), Mul(C(3), Mul(V(3),
    Mul(V(2), V(2))))), Add(Mul(V(1), V(1)), Mul(V(3), Mul(V(2), V(2))))), Mul(C(8), Mul(Mul(V(1), V(1)), Mul(V(3),
    Mul(V(2), V(2)))))))

  lemma DoubleY() ensures Valid(DOUBLE_Y) {}

  ghost const DOUBLE_Z :=
    Equation(Mul(Mul(V(1), V(2)), Add(Add(Add(Mul(V(1), V(1)), Mul(V(1), V(1))), Add(Mul(V(1), V(1)), Mul(V(1),
    V(1)))), Add(Add(Mul(V(1), V(1)), Mul(V(1), V(1))), Add(Mul(V(1), V(1)), Mul(V(1), V(1)))))), Mul(C(8),
    Mul(Mul(V(1), V(1)), Mul(V(1), V(2)))))

  lemma DoubleZ() ensures Valid(DOUBLE_Z) {}

  ghost const SCALED_X :=
    Equation(Mul(C(2), Mul(Mul(V(0), V(2)), Sub(Mul(V(1), V(2)), Mul(C(3), Mul(Mul(C(3), V(3)), V(2)))))),
    Mul(Mul(V(2), V(2)), Mul(C(2), Mul(V(0), Sub(V(1), Mul(C(9), V(3)))))))

  lemma ScaledX() ensures Valid(SCALED_X) {}

  ghost const SCALED_Y :=
    Equation(Add(Mul(Sub(Mul(V(1), V(2)), Mul(C(3), Mul(Mul(C(3), V(3)), V(2)))), Add(Mul(V(1), V(2)), Mul(Mul(C(3),
    V(3)), V(2)))), Mul(C(8), Mul(Mul(V(1), V(2)), Mul(Mul(C(3), V(3)), V(2))))), Mul(Mul(V(2), V(2)),
    Add(Mul(Sub(V(1), Mul(C(9), V(3))), Add(V(1), Mul(C(3), V(3)))), Mul(C(24), Mul(V(3), V(1))))))

  lemma ScaledY() ensures Valid(SCALED_Y) {}

  ghost const SCALED_Z :=
    Equation(Mul(C(8), Mul(Mul(V(1), V(2)), Mul(V(4), V(2)))), Mul(Mul(V(2), V(2)), Mul(C(8), Mul(V(1), V(4)))))

  lemma ScaledZ() ensures Valid(SCALED_Z) {}

  ghost const CLEARED_X :=
    Equation(Mul(Sub(Mul(V(0), V(0)), Add(V(1), V(1))), Mul(Mul(V(2), V(2)), V(2))), Sub(Mul(Mul(Mul(V(0), V(2)),
    Mul(V(0), V(2))), V(2)), Mul(Add(V(1), V(1)), Mul(Mul(V(2), V(2)), V(2)))))

  lemma ClearedX() ensures Valid(CLEARED_X) {}

  ghost const CLEARED_Y :=
    Equation(Mul(Sub(Mul(V(0), Sub(V(1), Sub(Mul(V(0), V(0)), Add(V(1), V(1))))), V(3)), Mul(Mul(V(2), V(2)),
    V(2))), Sub(Mul(Mul(V(0), V(2)), Sub(Mul(Mul(C(3), V(1)), Mul(V(2), V(2))), Mul(Mul(V(0), V(2)), Mul(V(0),
    V(2))))), Mul(V(3), Mul(Mul(V(2), V(2)), V(2)))))

  lemma ClearedY() ensures Valid(CLEARED_Y) {}

  ghost const TANGENT_X :=
    Equation(Mul(C(2), Mul(Mul(V(0), V(1)), Sub(Add(Mul(Mul(V(0), V(0)), V(0)), V(2)), Mul(C(9), V(2))))),
    Sub(Mul(Mul(Mul(C(3), Mul(V(0), V(0))), Mul(C(3), Mul(V(0), V(0)))), Add(V(1), V(1))), Mul(Add(V(0), V(0)),
    Mul(C(8), Mul(Add(Mul(Mul(V(0), V(0)), V(0)), V(2)), V(1))))))

  lemma TangentX() ensures Valid(TANGENT_X) {}

  ghost const TANGENT_CUBES :=
    Equation(Mul(Mul(C(3), V(0)), Sub(Mul(Mul(C(3), V(1)), Mul(C(4), V(2))), Mul(Mul(C(3), V(0)), Mul(C(3),
    V(0))))), Sub(Mul(C(36), Mul(Mul(V(0), V(1)), V(2))), Mul(C(27), Mul(Mul(V(0), V(0)), V(0)))))

  lemma TangentCubes() ensures Valid(TANGENT_CUBES) {}

  ghost const TANGENT_Y :=
    Equation(Add(Mul(Sub(Add(V(0), V(1)), Mul(C(9), V(1))), Add(Add(V(0), V(1)), Mul(C(3), V(1)))), Mul(C(24),
    Mul(V(1), Add(V(0), V(1))))), Sub(Sub(Mul(C(36), Mul(V(0), Add(V(0), V(1)))), Mul(C(27), Mul(V(0), V(0)))),
    Mul(C(8), Mul(Add(V(0), V(1)), Add(V(0), V(1))))))

  lemma TangentY() ensures Valid(TANGENT_Y) {}

  ghost const FOUR_SQUARES :=
    Equation(Mul(Add(V(0), V(0)), Add(V(0), V(0))), Mul(C(4), Mul(V(0), V(0))))

  lemma FourSquares() ensures Valid(FOUR_SQUARES) {}

  ghost const EIGHT_TIMES :=
    Equation(Mul(V(0), Mul(C(8), Mul(V(1), V(0)))), Mul(C(8), Mul(V(1), Mul(V(0), V(0)))))

  lemma EightTimes() ensures Valid(EIGHT_TIMES) {}

  ghost const CHORD_X :=
    Equation(Mul(V(0), Sub(Mul(Mul(Mul(V(1), V(0)), Mul(V(1), V(0))), V(2)), Mul(Mul(V(0), V(0)), Add(V(3),
    V(4))))), Mul(Mul(Mul(V(0), V(0)), V(0)), Sub(Mul(Mul(V(1), V(1)), V(2)), Add(V(4), V(3)))))

  lemma ChordX() ensures Valid(CHORD_X) {}

  ghost const CHORD_Y :=
    Equation(Sub(Mul(Mul(V(1), V(0)), Sub(Mul(V(3), Mul(V(0), V(0))), Sub(Mul(Mul(Mul(V(1), V(0)), Mul(V(1), V(0))),
    V(2)), Mul(Mul(V(0), V(0)), Add(V(3), V(4)))))), Mul(V(5), Mul(Mul(V(0), V(0)), V(0)))), Mul(Mul(Mul(V(0),
    V(0)), V(0)), Sub(Mul(V(1), Sub(V(3), Sub(Mul(Mul(V(1), V(1)), V(2)), Add(V(4), V(3))))), V(5))))

  lemma ChordY() ensures Valid(CHORD_Y) {}

  ghost const ABSCISSA_TIMES :=
    Equation(Mul(Sub(Mul(V(0), V(0)), Add(V(3), V(2))), V(1)), Sub(Mul(Mul(V(0), V(0)), V(1)), Add(Mul(V(3), V(1)),
    Mul(V(2), V(1)))))

  lemma AbscissaTimes() ensures Valid(ABSCISSA_TIMES) {}

  ghost const ORDINATE_TIMES :=
    Equation(Mul(Sub(Mul(V(0), Sub(V(2), V(4))), V(5)), V(1)), Sub(Mul(V(0), Sub(Mul(V(2), V(1)), Mul(V(4), V(1)))),
    Mul(V(5), V(1))))

  lemma OrdinateTimes() ensures Valid(ORDINATE_TIMES) {}

  /** projectiveDouble, Algorithm 9 of eprint 2015/1060. */
  method ProjectiveDouble<T(!new)>(r: Ring<T>, b3: T, p: Proj<T>) returns (xr: T, yr: T, zr: T)
    requires IsRing(r)
    ensures Proj(xr, yr, zr) == Doubled(r, b3, p)
  {
    var t0 := r.mul(p.y, p.y);
    zr := r.add(t0, t0);
    zr := r.add(zr, zr);
    zr := r.add(zr, zr);
    var t1 := r.mul(p.y, p.z);
    var t2 := r.mul(p.z, p.z);
    t2 := r.mul(b3, t2);
    xr := r.mul(t2, zr);
    yr := r.add(t0, t2);
    zr := r.mul(t1, zr);
    t1 := r.add(t2, t2);
    t2 := r.add(t1, t2);
    t0 := r.sub(t0, t2);
    yr := r.mul(t0, yr);
    yr := r.add(xr, yr);
    t1 := r.mul(p.x, p.y);
    xr := r.mul(t0, t1);
    xr := r.add(xr, xr);
    ghost var env := [p.x, p.y, p.z, b3];
    DoubleX(); Apply(r, DOUBLE_X, env);
    DoubleY(); Apply(r, DOUBLE_Y, env);
    DoubleZ(); Apply(r, DOUBLE_Z, env);
  }

  // The double of an affine point, with denominator 8 y^3
  ghost function DoubleNumerators<T>(r: Ring<T>, b: T, a: Point<T>): Proj<T> {
    var x, y := a.x, a.y;
    Proj(
      r.mul(OfInt(r, 2), r.mul(r.mul(x, y), r.sub(r.mul(y, y), r.mul(OfInt(r, 9), b)))),
      r.add(r.mul(r.sub(r.mul(y, y), r.mul(OfInt(r, 9), b)), r.add(r.mul(y, y), r.mul(OfInt(r, 3), b))),
      r.mul(OfInt(r, 24), r.mul(b, r.mul(y, y)))),
      r.mul(OfInt(r, 8), r.mul(r.mul(y, y), y)))
  }

  lemma DoubledIsScaled<T(!new)>(r: Ring<T>, b: T, p: Proj<T>, a: Point<T>)
    requires IsRing(r) && p.x == r.mul(a.x, p.z) && p.y == r.mul(a.y, p.z)
    ensures var z2 := r.mul(p.z, p.z);
            var d, n, k := Doubled(r, r.mul(OfInt(r, 3), b), p), DoubleNumerators(r, b, a), r.mul(z2, z2);
            d.x == r.mul(k, n.x) && d.y == r.mul(k, n.y) && d.z == r.mul(k, n.z)
  {
    SwapMul(r, a.x, p.z, a.y, p.z); SwapMul(r, a.y, p.z, a.y, p.z); Use(r, a.y, p.z, p.z);
    var env := [r.mul(a.x, a.y), r.mul(a.y, a.y), r.mul(p.z, p.z), b, a.y];
    ScaledX(); Apply(r, SCALED_X, env);
    ScaledY(); Apply(r, SCALED_Y, env);
    ScaledZ(); Apply(r, SCALED_Z, env);
  }

  // With m d = s the third point of a tangent has denominator d^3.
  lemma ClearedTangent<T(!new)>(r: Ring<T>, a: Point<T>, m: T, d: T)
    requires IsRing(r)
    ensures var t, s, e := ThirdPoint(r, a, a.x, m), r.mul(m, d), r.mul(r.mul(d, d), d);
            && r.mul(t.x, e) == r.sub(r.mul(r.mul(s, s), d), r.mul(r.add(a.x, a.x), e))
            && r.mul(t.y, e) ==
                r.sub(r.mul(s, r.sub(r.mul(r.mul(OfInt(r, 3), a.x), r.mul(d, d)), r.mul(s, s))), r.mul(a.y, e))
  {
    ClearedX(); Apply(r, CLEARED_X, [m, a.x, d]);
    ClearedY(); Apply(r, CLEARED_Y, [m, a.x, d, a.y]);
  }

  lemma TangentNumerators<T(!new)>(r: Ring<T>, b: T, a: Point<T>, m: T)
    requires IsRing(r) && OnCurve(r, b, a) && r.mul(m, r.add(a.y, a.y)) == r.mul(OfInt(r, 3), r.mul(a.x, a.x))
    ensures var n, t := DoubleNumerators(r, b, a), ThirdPoint(r, a, a.x, m);
            n.x == r.mul(t.x, n.z) && n.y == r.mul(t.y, n.z)
  {
    var c := r.mul(a.y, a.y);
    ClearedTangent(r, a, m, r.add(a.y, a.y));
    EightCubes(); Apply(r, EIGHT_CUBES, [a.y]);
    FourSquares(); Apply(r, FOUR_SQUARES, [a.y]);
    EightTimes(); Apply(r, EIGHT_TIMES, [a.y, c]);
    TangentX(); Apply(r, TANGENT_X, [a.x, a.y, b]);
    var q := r.mul(a.x, a.x);
    SwapMul(r, q, a.x, q, a.x);
    TangentCubes(); Apply(r, TANGENT_CUBES, [q, a.x, c]);
    TangentY(); Apply(r, TANGENT_Y, [r.mul(r.mul(a.x, a.x), a.x), b]);
  }

  /** Doubling refines the affine law, for every representative of every point of the curve. */
  lemma DoubleRefines<T(!new)>(r: Ring<T>, b: T, inv: T -> T, p: Proj<T>, a: Point<T>)
    requires CurveSetting(r, b, inv) && OnCurve(r, b, a) && p.z != r.zero && Represents(r, p, a)
    ensures var d := Doubled(r, r.mul(OfInt(r, 3), b), p);
            d.z != r.zero && Represents(r, d, PointDouble(r, inv, a))
  {
    var z2 := r.mul(p.z, p.z);
    var n, k := DoubleNumerators(r, b, a), r.mul(z2, z2);
    var m := r.mul(r.mul(OfInt(r, 3), r.mul(a.x, a.x)), inv(r.add(a.y, a.y)));
    DoubledIsScaled(r, b, p, a);
    DoubleIsTangent(r, b, inv, a);
    CurvePointFacts(r, b, inv, PointDouble(r, inv, a));
    TangentNumerators(r, b, a, m);
    CurvePointFacts(r, b, inv, a);
    var t := PointDouble(r, inv, a);
    Use(r, k, t.x, n.z); Use(r, t.x, k, n.z); Use(r, k, t.y, n.z); Use(r, t.y, k, n.z);
    DenominatorOfDouble(r, a.y);
    NonzeroProduct(r, p.z, p.z); NonzeroProduct(r, z2, z2); NonzeroProduct(r, k, n.z);
  }

  ghost const EIGHT_CUBES :=
    Equation(Mul(C(8), Mul(Mul(V(0), V(0)), V(0))), Mul(Mul(Add(V(0), V(0)), Add(V(0), V(0))), Add(V(0), V(0))))

  lemma EightCubes() ensures Valid(EIGHT_CUBES) {}

  lemma DenominatorOfDouble<T(!new)>(r: Ring<T>, y: T)
    requires IsField(r) && r.add(y, y) != r.zero
    ensures r.mul(OfInt(r, 8), r.mul(r.mul(y, y), y)) != r.zero
  {
    var d := r.add(y, y);
    EightCubes(); Apply(r, EIGHT_CUBES, [y]);
    NonzeroProduct(r, d, d); NonzeroProduct(r, r.mul(d, d), d);
  }

  // ---- addition ----------------------------------------------------------------------------------------

  // The differences that the loop of EcMul.yul computes from q and p
  function Crossed<T>(r: Ring<T>, q: Proj<T>, p: Proj<T>): (T, T) {
    (r.sub(r.mul(q.y, p.z), r.mul(p.y, q.z)), r.sub(r.mul(q.x, p.z), r.mul(p.x, q.z)))
  }

  // The sum that it computes from them when they do not both vanish
  function Added<T>(r: Ring<T>, q: Proj<T>, p: Proj<T>): Proj<T> {
    var t0, t1 := r.mul(q.y, p.z), r.mul(p.y, q.z);
    var t := r.sub(t0, t1);
    var u0, u1 := r.mul(q.x, p.z), r.mul(p.x, q.z);
    var u := r.sub(u0, u1);
    var u2 := r.mul(u, u);
    var u3 := r.mul(u2, u);
    var v := r.mul(q.z, p.z);
    var w := r.sub(r.mul(r.mul(t, t), v), r.mul(u2, r.add(u0, u1)));
    Proj(r.mul(u, w), r.sub(r.mul(t, r.sub(r.mul(u0, u2), w)), r.mul(t0, u3)), r.mul(u3, v))
  }

  lemma CrossedProducts<T(!new)>(r: Ring<T>, q: Proj<T>, p: Proj<T>, aq: Point<T>, ap: Point<T>)
    requires IsRing(r) && q.x == r.mul(aq.x, q.z) && q.y == r.mul(aq.y, q.z)
    requires p.x == r.mul(ap.x, p.z) && p.y == r.mul(ap.y, p.z)
    ensures var v := r.mul(q.z, p.z);
            && r.mul(q.y, p.z) == r.mul(aq.y, v) && r.mul(p.y, q.z) == r.mul(ap.y, v)
            && r.mul(q.x, p.z) == r.mul(aq.x, v) && r.mul(p.x, q.z) == r.mul(ap.x, v)
            && Crossed(r, q, p) == (r.mul(r.sub(aq.y, ap.y), v), r.mul(r.sub(aq.x, ap.x), v))
  {
    var v := r.mul(q.z, p.z);
    Use(r, aq.y, q.z, p.z); Use(r, ap.y, p.z, q.z); Use(r, aq.x, q.z, p.z); Use(r, ap.x, p.z, q.z);
    Use(r, q.z, p.z, p.z);
    DifferenceTimes(r, aq.y, ap.y, v); DifferenceTimes(r, aq.x, ap.x, v);
  }

  /** The two differences vanish together exactly on equal points, and u alone exactly on opposite points. */
  lemma CrossedMeans<T(!new)>(r: Ring<T>, q: Proj<T>, p: Proj<T>, aq: Point<T>, ap: Point<T>)
    requires IsField(r) && q.z != r.zero && p.z != r.zero && Represents(r, q, aq) && Represents(r, p, ap)
    ensures var (t, u) := Crossed(r, q, p);
            (t == r.zero <==> aq.y == ap.y) && (u == r.zero <==> aq.x == ap.x)
  {
    var v := r.mul(q.z, p.z);
    CrossedProducts(r, q, p, aq, ap);
    NonzeroProduct(r, q.z, p.z);
    NonzeroProduct(r, r.sub(aq.y, ap.y), v); NonzeroProduct(r, r.sub(aq.x, ap.x), v);
    DifferenceIsZero(r, aq.y, ap.y); DifferenceIsZero(r, aq.x, ap.x);
  }

  lemma ChordFormula<T(!new)>(r: Ring<T>, q: Proj<T>, p: Proj<T>, aq: Point<T>, ap: Point<T>, m: T)
    requires IsRing(r) && q.x == r.mul(aq.x, q.z) && q.y == r.mul(aq.y, q.z)
    requires p.x == r.mul(ap.x, p.z) && p.y == r.mul(ap.y, p.z)
    requires r.mul(m, r.sub(aq.x, ap.x)) == r.sub(aq.y, ap.y)
    ensures var s, x := Added(r, q, p), r.sub(r.mul(m, m), r.add(ap.x, aq.x));
            s.x == r.mul(x, s.z) && s.y == r.mul(r.sub(r.mul(m, r.sub(aq.x, x)), aq.y), s.z)
  {
    var x, d, v := r.sub(r.mul(m, m), r.add(ap.x, aq.x)), r.sub(aq.x, ap.x), r.mul(q.z, p.z);
    var u := r.mul(d, v);
    CrossedProducts(r, q, p, aq, ap);
    Use(r, m, d, v);
    var u3 := r.mul(r.mul(u, u), u);
    ChordX(); Apply(r, CHORD_X, [u, m, v, r.mul(aq.x, v), r.mul(ap.x, v)]);
    ChordY(); Apply(r, CHORD_Y, [u, m, v, r.mul(aq.x, v), r.mul(ap.x, v), r.mul(aq.y, v)]);
    AbscissaTimes(); Apply(r, ABSCISSA_TIMES, [m, v, aq.x, ap.x]);
    OrdinateTimes(); Apply(r, ORDINATE_TIMES, [m, v, aq.x, ap.x, x, aq.y]);
    var y := r.sub(r.mul(m, r.sub(aq.x, x)), aq.y);
    Use(r, x, u3, v); Use(r, u3, x, v); Use(r, y, u3, v); Use(r, u3, y, v);
  }

  /** Addition refines the affine law: for different abscissas it is the chord, for opposite points it gives z = 0. */
  lemma AddRefines<T(!new)>(r: Ring<T>, b: T, inv: T -> T, q: Proj<T>, p: Proj<T>, aq: Point<T>, ap: Point<T>)
    requires CurveSetting(r, b, inv) && OnCurve(r, b, aq) && OnCurve(r, b, ap) && aq != ap
    requires q.z != r.zero && p.z != r.zero && Represents(r, q, aq) && Represents(r, p, ap)
    ensures Represents(r, Added(r, q, p), PointAdd(r, inv, ap, aq))
  {
    var v := r.mul(q.z, p.z);
    var u := Crossed(r, q, p).1;
    CrossedMeans(r, q, p, aq, ap);
    CurvePointFacts(r, b, inv, aq); CurvePointFacts(r, b, inv, ap);
    NonzeroProduct(r, q.z, p.z); NonzeroProduct(r, u, u); NonzeroProduct(r, r.mul(u, u), u);
    NonzeroProduct(r, r.mul(r.mul(u, u), u), v);
    if aq.x == ap.x {
      SameX(r, b, ap, aq);
    } else {
      var m := r.mul(r.sub(aq.y, ap.y), inv(r.sub(aq.x, ap.x)));
      AddIsChord(r, b, inv, ap, aq);
      ChordFormula(r, q, p, aq, ap, m);
      CurvePointFacts(r, b, inv, PointAdd(r, inv, ap, aq));
      OtherEndOfChord(r, aq, ap, m, r.sub(r.mul(m, m), r.add(ap.x, aq.x)));
    }
  }
}
