/** Affine points of y^2 = x^3 + b over a field, with the chord-and-tangent law of double_and_add.py. */
module AffineCurve {
  import opened Rings
  import opened Solver
  import opened Powers
  import opened FieldLaws

  datatype Point<T> = Point(x: T, y: T)

  /** The point at infinity is written (0, 0). */
  function Infinity<T>(r: Ring<T>): Point<T> { Point(r.zero, r.zero) }

  function PointDouble<T(==)>(r: Ring<T>, inv: T -> T, p: Point<T>): Point<T> {
    if p == Infinity(r) then Infinity(r)
    else
      var m := r.mul(r.mul(OfInt(r, 3), r.mul(p.x, p.x)), inv(r.add(p.y, p.y)));
      var x := r.sub(r.mul(m, m), r.add(p.x, p.x));
      Point(x, r.sub(r.mul(m, r.sub(p.x, x)), p.y))
  }

  function PointAdd<T(==)>(r: Ring<T>, inv: T -> T, p: Point<T>, q: Point<T>): Point<T> {
    if p == Infinity(r) && q == Infinity(r) then Infinity(r)
    else if p == Infinity(r) then q
    else if q == Infinity(r) then p
    else if p.x == q.x && r.sub(r.zero, p.y) == q.y then Infinity(r)
    else if p.x == q.x && p.y == q.y then PointDouble(r, inv, p)
    else
      var m := r.mul(r.sub(q.y, p.y), inv(r.sub(q.x, p.x)));
      var x := r.sub(r.mul(m, m), r.add(p.x, q.x));
      Point(x, r.sub(r.mul(m, r.sub(p.x, x)), p.y))
  }

  predicate OnCurve<T(==)>(r: Ring<T>, b: T, p: Point<T>) {
    r.mul(p.y, p.y) == r.add(r.mul(r.mul(p.x, p.x), p.x), b)
  }

  predicate Proper<T(==)>(r: Ring<T>, b: T, p: Point<T>) { p == Infinity(r) || OnCurve(r, b, p) }

  /** inv inverts every nonzero element. */
  ghost predicate Inverts<T(!new)>(r: Ring<T>, inv: T -> T) {
    forall a: T {:trigger inv(a)} :: a != r.zero ==> r.mul(a, inv(a)) == r.one
  }

  /** No point of the curve has y = 0. */
  ghost predicate NoTwoTorsion<T(!new)>(r: Ring<T>, b: T) {
    forall x: T {:trigger r.mul(x, x)} :: r.add(r.mul(r.mul(x, x), x), b) != r.zero
  }

  ghost predicate CurveSetting<T(!new)>(r: Ring<T>, b: T, inv: T -> T) {
    && IsField(r) && Inverts(r, inv) && NoTwoTorsion(r, b)
    && r.add(r.one, r.one) != r.zero
  }

  lemma CurvePointFacts<T(!new)>(r: Ring<T>, b: T, inv: T -> T, p: Point<T>)
    requires CurveSetting(r, b, inv) && OnCurve(r, b, p)
    ensures p.y != r.zero && r.add(p.y, p.y) != r.zero && p != Infinity(r)
  {
    MulZero(r, p.y);
    OneIsUnit(r, p.y);
    Use(r, p.y, r.one, r.one);
    NonzeroProduct(r, p.y, r.add(r.one, r.one));
  }

  // ---- lines meeting the cubic ----------------------------------------------------------------------

  // The line of slope m through (x, y) meets the cubic at x + w where w Residual(w) = 0.
  ghost function Residual<T>(r: Ring<T>, x: T, y: T, m: T, w: T): T {
    r.add(r.add(r.sub(r.mul(OfInt(r, 3), r.mul(x, x)), r.mul(OfInt(r, 2), r.mul(m, y))), r.mul(OfInt(r, 3), r.mul(x,
    w))), r.sub(r.mul(w, w), r.mul(r.mul(m, m), w)))
  }

  ghost const LINE_ON_CUBIC :=
    Equation(Sub(Add(Mul(Mul(Add(V(0), V(4)), Add(V(0), V(4))), Add(V(0), V(4))), V(3)), Mul(Add(Mul(V(2), V(4)),
    V(1)), Add(Mul(V(2), V(4)), V(1)))), Add(Sub(Add(Mul(Mul(V(0), V(0)), V(0)), V(3)), Mul(V(1), V(1))), Mul(V(4),
    Add(Add(Sub(Mul(C(3), Mul(V(0), V(0))), Mul(C(2), Mul(V(2), V(1)))), Mul(C(3), Mul(V(0), V(4)))), Sub(Mul(V(4),
    V(4)), Mul(Mul(V(2), V(2)), V(4)))))))

  lemma LineOnCubic() ensures Valid(LINE_ON_CUBIC) {}

  ghost const ROOT_DIFFERENCE :=
    Equation(Sub(Add(Add(Sub(Mul(C(3), Mul(V(0), V(0))), Mul(C(2), Mul(V(2), V(1)))), Mul(C(3), Mul(V(0), V(4)))),
    Sub(Mul(V(4), V(4)), Mul(Mul(V(2), V(2)), V(4)))), Add(Add(Sub(Mul(C(3), Mul(V(0), V(0))), Mul(C(2), Mul(V(2),
    V(1)))), Mul(C(3), Mul(V(0), V(5)))), Sub(Mul(V(5), V(5)), Mul(Mul(V(2), V(2)), V(5))))), Mul(Sub(V(4), V(5)),
    Sub(Add(Mul(C(3), V(0)), Add(V(4), V(5))), Mul(V(2), V(2)))))

  lemma RootDifference() ensures Valid(ROOT_DIFFERENCE) {}

  ghost const REFLECTED_SQUARE :=
    Equation(Mul(Sub(Mul(V(2), Sub(V(0), V(1))), V(3)), Sub(Mul(V(2), Sub(V(0), V(1))), V(3))), Mul(Add(Mul(V(2),
    Sub(V(1), V(0))), V(3)), Add(Mul(V(2), Sub(V(1), V(0))), V(3))))

  lemma ReflectedSquare() ensures Valid(REFLECTED_SQUARE) {}

  ghost const ROOTS_SUM :=
    Equation(Add(Mul(C(3), V(0)), Add(Sub(Sub(V(2), Add(V(0), V(1))), V(0)), Sub(V(1), V(0)))), V(2))

  lemma RootsSum() ensures Valid(ROOTS_SUM) {}

  ghost const TANGENT_AT_ZERO :=
    Equation(Add(Add(Sub(Mul(C(3), Mul(V(0), V(0))), Mul(C(2), Mul(V(2), V(1)))), Mul(C(3), Mul(V(0), C(0)))),
    Sub(Mul(C(0), C(0)), Mul(Mul(V(2), V(2)), C(0)))), Sub(Mul(C(3), Mul(V(0), V(0))), Mul(V(2), Add(V(1), V(1)))))

  lemma TangentAtZero() ensures Valid(TANGENT_AT_ZERO) {}

  lemma LineMeetsCubic<T(!new)>(r: Ring<T>, b: T, x: T, y: T, m: T, u: T)
    requires IsRing(r) && OnCurve(r, b, Point(x, y))
    ensures OnCurve(r, b, Point(r.add(x, u), r.add(r.mul(m, u), y))) <==> r.mul(u, Residual(r, x, y, m, u)) == r.zero
  {
    LineOnCubic(); Apply(r, LINE_ON_CUBIC, [x, y, m, b, u]);
    var s, t := r.add(x, u), r.add(r.mul(m, u), y);
    DifferenceIsZero(r, r.add(r.mul(r.mul(x, x), x), b), r.mul(y, y));
    DifferenceIsZero(r, r.add(r.mul(r.mul(s, s), s), b), r.mul(t, t));
    var w := r.mul(u, Residual(r, x, y, m, u));
    Use(r, r.zero, w, w); Use(r, w, r.zero, r.zero);
  }

  // The roots 0, u, v of w Residual(w) sum up so that one of u, v being a root makes the other one.
  lemma OtherRoot<T(!new)>(r: Ring<T>, x: T, y: T, m: T, u: T, v: T)
    requires IsRing(r) && Residual(r, x, y, m, v) == r.zero
    requires r.add(r.mul(OfInt(r, 3), x), r.add(u, v)) == r.mul(m, m)
    ensures Residual(r, x, y, m, u) == r.zero
  {
    RootDifference(); Apply(r, ROOT_DIFFERENCE, [x, y, m, m, u, v]);
    DifferenceIsZero(r, r.mul(m, m), r.mul(m, m));
    MulZero(r, r.sub(u, v));
    DifferenceIsZero(r, Residual(r, x, y, m, u), Residual(r, x, y, m, v));
  }

  // The point that chord or tangent of slope m through p = (x1, y1) and abscissa x2 give
  function ThirdPoint<T>(r: Ring<T>, p: Point<T>, x2: T, m: T): Point<T> {
    var x := r.sub(r.mul(m, m), r.add(p.x, x2));
    Point(x, r.sub(r.mul(m, r.sub(p.x, x)), p.y))
  }

  lemma ThirdPointOnCurve<T(!new)>(r: Ring<T>, b: T, p: Point<T>, x2: T, m: T)
    requires IsRing(r) && OnCurve(r, b, p) && Residual(r, p.x, p.y, m, r.sub(x2, p.x)) == r.zero
    ensures OnCurve(r, b, ThirdPoint(r, p, x2, m))
  {
    var q := ThirdPoint(r, p, x2, m);
    var u := r.sub(q.x, p.x);
    RootsSum(); Apply(r, ROOTS_SUM, [p.x, x2, r.mul(m, m)]);
    OtherRoot(r, p.x, p.y, m, u, r.sub(x2, p.x));
    MulZero(r, u);
    LineMeetsCubic(r, b, p.x, p.y, m, u);
    Use(r, q.x, p.x, p.x); Use(r, p.x, u, u);
    ReflectedSquare(); Apply(r, REFLECTED_SQUARE, [p.x, q.x, m, p.y]);
  }

  lemma TangentResidual<T(!new)>(r: Ring<T>, p: Point<T>, m: T)
    requires IsRing(r) && r.mul(m, r.add(p.y, p.y)) == r.mul(OfInt(r, 3), r.mul(p.x, p.x))
    ensures Residual(r, p.x, p.y, m, r.sub(p.x, p.x)) == r.zero
  {
    TangentAtZero(); Apply(r, TANGENT_AT_ZERO, [p.x, p.y, m]);
    DifferenceIsZero(r, p.x, p.x);
    var t := r.mul(m, r.add(p.y, p.y));
    DifferenceIsZero(r, t, t);
  }

  lemma ChordResidual<T(!new)>(r: Ring<T>, b: T, p: Point<T>, q: Point<T>, m: T)
    requires IsField(r) && OnCurve(r, b, p) && OnCurve(r, b, q) && p.x != q.x
    requires r.mul(m, r.sub(q.x, p.x)) == r.sub(q.y, p.y)
    ensures Residual(r, p.x, p.y, m, r.sub(q.x, p.x)) == r.zero
  {
    var v := r.sub(q.x, p.x);
    LineMeetsCubic(r, b, p.x, p.y, m, v);
    Use(r, q.x, p.x, p.x); Use(r, p.x, v, v); Use(r, q.y, p.y, p.y);
    DifferenceIsZero(r, q.x, p.x);
    NonzeroProduct(r, v, Residual(r, p.x, p.y, m, v));
  }

  // ---- the affine law --------------------------------------------------------------------------------

  lemma DoubleIsTangent<T(!new)>(r: Ring<T>, b: T, inv: T -> T, p: Point<T>)
    requires CurveSetting(r, b, inv) && OnCurve(r, b, p)
    ensures var m := r.mul(r.mul(OfInt(r, 3), r.mul(p.x, p.x)), inv(r.add(p.y, p.y)));
            && r.mul(m, r.add(p.y, p.y)) == r.mul(OfInt(r, 3), r.mul(p.x, p.x))
            && PointDouble(r, inv, p) == ThirdPoint(r, p, p.x, m)
    ensures OnCurve(r, b, PointDouble(r, inv, p))
  {
    var d, n := r.add(p.y, p.y), r.mul(OfInt(r, 3), r.mul(p.x, p.x));
    CurvePointFacts(r, b, inv, p);
    QuotientTimes(r, n, d, inv(d));
    TangentResidual(r, p, r.mul(n, inv(d)));
    ThirdPointOnCurve(r, b, p, p.x, r.mul(n, inv(d)));
  }

  lemma AddIsChord<T(!new)>(r: Ring<T>, b: T, inv: T -> T, p: Point<T>, q: Point<T>)
    requires CurveSetting(r, b, inv) && OnCurve(r, b, p) && OnCurve(r, b, q) && p.x != q.x
    ensures var m := r.mul(r.sub(q.y, p.y), inv(r.sub(q.x, p.x)));
            && r.mul(m, r.sub(q.x, p.x)) == r.sub(q.y, p.y)
            && PointAdd(r, inv, p, q) == ThirdPoint(r, p, q.x, m)
    ensures OnCurve(r, b, PointAdd(r, inv, p, q))
  {
    var d, n := r.sub(q.x, p.x), r.sub(q.y, p.y);
    CurvePointFacts(r, b, inv, p); CurvePointFacts(r, b, inv, q);
    DifferenceIsZero(r, q.x, p.x);
    QuotientTimes(r, n, d, inv(d));
    ChordResidual(r, b, p, q, r.mul(n, inv(d)));
    ThirdPointOnCurve(r, b, p, q.x, r.mul(n, inv(d)));
  }

  ghost const DIFFERENCE_OF_SQUARES :=
    Equation(Mul(Sub(V(0), V(1)), Add(V(0), V(1))), Sub(Mul(V(0), V(0)), Mul(V(1), V(1))))

  lemma DifferenceOfSquares() ensures Valid(DIFFERENCE_OF_SQUARES) {}

  /** Points of the curve with the same x are equal or opposite. */
  lemma SameX<T(!new)>(r: Ring<T>, b: T, p: Point<T>, q: Point<T>)
    requires IsField(r) && OnCurve(r, b, p) && OnCurve(r, b, q) && p.x == q.x
    ensures p.y == q.y || r.sub(r.zero, p.y) == q.y
  {
    DifferenceOfSquares(); Apply(r, DIFFERENCE_OF_SQUARES, [p.y, q.y]);
    DifferenceIsZero(r, r.mul(p.y, p.y), r.mul(q.y, q.y));
    NonzeroProduct(r, r.sub(p.y, q.y), r.add(p.y, q.y));
    DifferenceIsZero(r, p.y, q.y);
    if r.add(p.y, q.y) == r.zero { Use(r, p.y, q.y, q.y); SubUnique(r, r.zero, p.y, q.y); }
  }

  /** Points of the curve with the same x: either they are equal and their sum is a double, or they are opposite. */
  lemma EqualOrOpposite<T(!new)>(s: Ring<T>, b: T, inv: T -> T, p: Point<T>, q: Point<T>)
    requires CurveSetting(s, b, inv) && p.x == q.x && OnCurve(s, b, p) && OnCurve(s, b, q)
    ensures p.y != q.y ==> s.sub(s.zero, p.y) == q.y && PointAdd(s, inv, p, q) == Infinity(s)
    ensures p.y == q.y ==> PointAdd(s, inv, p, q) == PointDouble(s, inv, p)
  {
    CurvePointFacts(s, b, inv, p); CurvePointFacts(s, b, inv, q);
    SameX(s, b, p, q);
    Use(s, s.zero, p.y, p.y);
  }

  /** Doubling stays on the curve. */
  lemma DoubleProper<T(!new)>(r: Ring<T>, b: T, inv: T -> T, p: Point<T>)
    requires CurveSetting(r, b, inv) && Proper(r, b, p)
    ensures Proper(r, b, PointDouble(r, inv, p))
    ensures OnCurve(r, b, p) ==> OnCurve(r, b, PointDouble(r, inv, p))
  {
    if OnCurve(r, b, p) { DoubleIsTangent(r, b, inv, p); }
  }

  /** Adding stays on the curve. */
  lemma AddProper<T(!new)>(r: Ring<T>, b: T, inv: T -> T, p: Point<T>, q: Point<T>)
    requires CurveSetting(r, b, inv) && Proper(r, b, p) && Proper(r, b, q)
    ensures Proper(r, b, PointAdd(r, inv, p, q))
  {
    if p != Infinity(r) && q != Infinity(r) {
      if p.x == q.x {
        SameX(r, b, p, q);
        DoubleProper(r, b, inv, p);
      } else {
        AddIsChord(r, b, inv, p, q);
      }
    }
  }

  /** t is the third point of the line of slope m through p that also has the abscissa x2, reflected. */
  ghost predicate ReflectedThird<T>(r: Ring<T>, p: Point<T>, x2: T, m: T, t: Point<T>) {
    t.x == r.sub(r.mul(m, m), r.add(p.x, x2)) && t.y == r.sub(r.mul(m, r.sub(p.x, t.x)), p.y)
  }

  ghost predicate ByTangent<T(!new)>(r: Ring<T>, p: Point<T>, t: Point<T>) {
    exists m: T :: r.mul(m, r.add(p.y, p.y)) == r.mul(OfInt(r, 3), r.mul(p.x, p.x)) && ReflectedThird(r, p, p.x, m, t)
  }

  ghost predicate ByChord<T(!new)>(r: Ring<T>, p: Point<T>, q: Point<T>, t: Point<T>) {
    exists m: T :: r.mul(m, r.sub(q.x, p.x)) == r.sub(q.y, p.y) && ReflectedThird(r, p, q.x, m, t)
  }

  /** The affine law by cases: infinity is neutral, different points with the same abscissa add up to infinity, and
      the other sums are given by the tangent or the chord. */
  lemma SumByCases<T(!new)>(r: Ring<T>, b: T, inv: T -> T, p: Point<T>, q: Point<T>)
    requires CurveSetting(r, b, inv) && Proper(r, b, p) && Proper(r, b, q)
    ensures p == Infinity(r) ==> PointAdd(r, inv, p, q) == q
    ensures q == Infinity(r) ==> PointAdd(r, inv, p, q) == p
    ensures p != Infinity(r) && q != Infinity(r) ==>
              && (p.x == q.x && p.y != q.y ==>
                    PointAdd(r, inv, p, q) == Infinity(r) && r.sub(r.zero, p.y) == q.y)
              && (p == q ==> ByTangent(r, p, PointAdd(r, inv, p, q)))
              && (p.x != q.x ==> ByChord(r, p, q, PointAdd(r, inv, p, q)))
  {
    if p != Infinity(r) && q != Infinity(r) {
      if p.x == q.x {
        EqualOrOpposite(r, b, inv, p, q);
        DoubleIsTangent(r, b, inv, p);
      } else {
        AddIsChord(r, b, inv, p, q);
      }
    }
  }

  ghost const OTHER_END :=
    Equation(Sub(Mul(V(2), Sub(V(0), V(6))), V(1)), Add(Sub(Mul(V(2), Sub(V(4), V(6))), V(5)), Sub(Mul(V(2),
    Sub(V(0), V(4))), Sub(V(1), V(5)))))

  lemma OtherEnd() ensures Valid(OTHER_END) {}

  // The ordinate computed from either end of a chord is the same.
  lemma OtherEndOfChord<T(!new)>(r: Ring<T>, p: Point<T>, q: Point<T>, m: T, x: T)
    requires IsRing(r) && r.mul(m, r.sub(p.x, q.x)) == r.sub(p.y, q.y)
    ensures r.sub(r.mul(m, r.sub(p.x, x)), p.y) == r.sub(r.mul(m, r.sub(q.x, x)), q.y)
  {
    OtherEnd(); Apply(r, OTHER_END, [p.x, p.y, m, m, q.x, q.y, x]);
    var t := r.sub(p.y, q.y);
    DifferenceIsZero(r, t, t);
    var s := r.sub(r.mul(m, r.sub(q.x, x)), q.y);
    Use(r, s, r.zero, r.zero);
  }

  // Reversing a chord negates numerator and denominator of its slope.
  lemma ReversedSlope<T(!new)>(r: Ring<T>, inv: T -> T, a: T, c: T, x: T, z: T)
    requires IsField(r) && Inverts(r, inv) && x != z
    ensures r.mul(r.sub(c, a), inv(r.sub(z, x))) == r.mul(r.sub(a, c), inv(r.sub(x, z)))
  {
    var d, e, n, k := r.sub(z, x), r.sub(x, z), r.sub(c, a), r.sub(a, c);
    DifferenceIsZero(r, z, x); DifferenceIsZero(r, x, z);
    Opposite(r, z, x); Opposite(r, c, a);
    QuotientTimes(r, n, d, inv(d)); QuotientTimes(r, k, e, inv(e));
    var s, t := r.mul(n, inv(d)), r.mul(k, inv(e));
    // t d = n = s d
    OppositeProduct(r, t, e);
    CancelFactor(r, d, s, t);
    Use(r, d, s, s); Use(r, d, t, t);
  }

  lemma Opposite<T(!new)>(r: Ring<T>, a: T, c: T)
    requires IsRing(r)
    ensures r.sub(a, c) == r.sub(r.zero, r.sub(c, a))
  {
    OppositeDifference(); Apply(r, OPPOSITE_DIFFERENCE, [a, c]);
  }

  ghost const OPPOSITE_DIFFERENCE :=
    Equation(Sub(V(0), V(1)), Sub(C(0), Sub(V(1), V(0))))

  lemma OppositeDifference() ensures Valid(OPPOSITE_DIFFERENCE) {}

  /** The affine law is commutative. */
  lemma AddCommutes<T(!new)>(r: Ring<T>, b: T, inv: T -> T, p: Point<T>, q: Point<T>)
    requires CurveSetting(r, b, inv) && Proper(r, b, p) && Proper(r, b, q)
    ensures PointAdd(r, inv, p, q) == PointAdd(r, inv, q, p)
  {
    if p != Infinity(r) && q != Infinity(r) {
      if p.x == q.x {
        SameX(r, b, p, q);
        NegateTwice(r, p.y); NegateTwice(r, q.y);
      } else {
        AddIsChord(r, b, inv, p, q); AddIsChord(r, b, inv, q, p);
        ReversedSlope(r, inv, p.y, q.y, p.x, q.x);
        Use(r, p.x, q.x, q.x);
        var m := r.mul(r.sub(p.y, q.y), inv(r.sub(p.x, q.x)));
        OtherEndOfChord(r, p, q, m, r.sub(r.mul(m, m), r.add(p.x, q.x)));
      }
    }
  }

  /** The law does not depend on which inversion is used. */
  lemma SameLaw<T(!new)>(r: Ring<T>, b: T, inv: T -> T, inv': T -> T, p: Point<T>, q: Point<T>)
    requires CurveSetting(r, b, inv) && Inverts(r, inv') && Proper(r, b, p) && Proper(r, b, q)
    ensures PointDouble(r, inv, p) == PointDouble(r, inv', p) && PointAdd(r, inv, p, q) == PointAdd(r, inv', p, q)
  {
    forall a: T | a != r.zero ensures inv(a) == inv'(a) { InverseUnique(r, a, inv(a), inv'(a)); }
    if p != Infinity(r) { CurvePointFacts(r, b, inv, p); }
    DifferenceIsZero(r, q.x, p.x);
    if p != Infinity(r) && q != Infinity(r) && p.x == q.x { SameX(r, b, p, q); }
  }

  // ---- scalar multiplication -----------------------------------------------------------------------

  /** The loop of double_and_add.py from accumulator res and point p. */
  function DoubleAndAdd<T(==)>(r: Ring<T>, inv: T -> T, res: Point<T>, p: Point<T>, k: nat): Point<T>
    decreases k
  {
    if k == 0 then res
    else
      DoubleAndAdd(r, inv, if k % 2 == 1 then PointAdd(r, inv, res, p) else res, PointDouble(r, inv, p), k / 2)
  }

  /** double_and_add.py: scalar multiplication by updating accumulator and point. */
  method ScalarMultiply<T(==)>(r: Ring<T>, inv: T -> T, point: Point<T>, scalar: nat) returns (res: Point<T>)
    ensures res == DoubleAndAdd(r, inv, Infinity(r), point, scalar)
  {
    var p, multiplier := point, scalar;
    res := Infinity(r);
    while multiplier > 0
      invariant DoubleAndAdd(r, inv, res, p, multiplier) == DoubleAndAdd(r, inv, Infinity(r), point, scalar)
    {
      if multiplier % 2 == 1 { res := PointAdd(r, inv, res, p); }
      p := PointDouble(r, inv, p);
      multiplier := multiplier / 2;
    }
  }

  /** Scalar multiplication stays on the curve. */
  lemma {:induction false} MultiplyProper<T(!new)>(r: Ring<T>, b: T, inv: T -> T, res: Point<T>, p: Point<T>, k: nat)
    requires CurveSetting(r, b, inv) && Proper(r, b, res) && Proper(r, b, p)
    ensures Proper(r, b, DoubleAndAdd(r, inv, res, p, k))
    decreases k
  {
    if k > 0 {
      AddProper(r, b, inv, res, p);
      DoubleProper(r, b, inv, p);
      MultiplyProper(r, b, inv, if k % 2 == 1 then PointAdd(r, inv, res, p) else res, PointDouble(r, inv, p), k / 2);
    }
  }
}
