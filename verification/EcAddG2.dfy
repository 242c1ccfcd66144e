/** EcAddG2.yul: addition on the twisted curve over Fp2 through Jacobian coordinates on Montgomery residues. */
module EcAddG2 {
  import opened Arithmetic
  import opened Rings
  import opened Powers
  import opened FieldLaws
  import opened BaseField
  import opened FieldInversion
  import opened Extensions
  import opened Tower
  import opened TowerInverses
  import opened AffineCurve
  import opened CurveTransfer
  import opened ProjectiveCurve
  import opened JacobianCurve
  import opened AltBn128Curve
  import opened Torsion
  import opened PlainPoints
  import Reduction

  /** The coefficient 3 / (9 + u) of the twisted curve, in plain and in Montgomery form. */
  const TWISTED_CURVE_COEFFS: F2<Fe> :=
    Quad(19485874751759354771024239261021720505790618469301721065564631296452457478373,
         266929791119991161246907387137283842545076965332900288569378510910307636690)
  const MONTGOMERY_TWISTED_CURVE_COEFFS: F2<Fe> :=
    Quad(16772280239760917788496391897731603718812008455956943122563801666366297604776,
         568440292453150825972223760836185707764922522371208948902804025364325400423)

  function DecodeFp2(a: F2<Fe>): F2<Fe> { Quad(OutOfMontgomeryForm(a.c0), OutOfMontgomeryForm(a.c1)) }
  function EncodeFp2(a: F2<Fe>): F2<Fe> { Quad(IntoMontgomeryForm(a.c0), IntoMontgomeryForm(a.c1)) }

  lemma CoefficientsDecode()
    ensures DecodeFp2(MONTGOMERY_TWISTED_CURVE_COEFFS) == TWISTED_CURVE_COEFFS
  {
    OutIs(MONTGOMERY_TWISTED_CURVE_COEFFS.c0, TWISTED_CURVE_COEFFS.c0);
    OutIs(MONTGOMERY_TWISTED_CURVE_COEFFS.c1, TWISTED_CURVE_COEFFS.c1);
  }

  lemma DecodeEncode(a: F2<Fe>)
    ensures DecodeFp2(EncodeFp2(a)) == a
  {
    DecodedWord(a.c0); DecodedWord(a.c1);
  }

  // Mapping coefficients is a homomorphism of quadratic extensions.
  lemma CoefficientMapIsHom<S(!new), T(!new)>(r: Ring<S>, s: Ring<T>, h: S -> T, m: F2<S> -> F2<T>)
    requires IsHom(r, s, h) && forall a: F2<S> :: m(a) == Quad(h(a.c0), h(a.c1))
    ensures IsHom(Fp2(r), Fp2(s), m)
  {
    forall a: F2<S>, b: F2<S> ensures HomLaws(Fp2(r), Fp2(s), m, a, b) {
      UseHom(r, s, h, a.c0, b.c0); UseHom(r, s, h, a.c1, b.c1); UseHom(r, s, h, a.c0, b.c1);
      UseHom(r, s, h, a.c1, b.c0);
      UseHom(r, s, h, r.mul(a.c0, b.c0), r.mul(a.c1, b.c1));
      UseHom(r, s, h, r.mul(a.c0, b.c1), r.mul(a.c1, b.c0));
    }
  }

  // Through a homomorphism with a right inverse, the image of a field is a field.
  lemma FieldAlong<S(!new), T(!new)>(r: Ring<S>, s: Ring<T>, h: S -> T, g: T -> S)
    requires IsField(r) && IsRing(s) && IsHom(r, s, h) && Injective(h) && forall a: T :: h(g(a)) == a
    ensures IsField(s)
  {
    forall a: T | a != s.zero ensures HasInverse(s, a) {
      var m := g(a);
      InvWorks(r, m);
      UseHom(r, s, h, m, Inv(r, m));
      assert h(m) == a;
      assert Inverses(s, a, h(Inv(r, m)));
    }
  }

  lemma TwistEmbeds(r: Ring<F2<Fe>>, s: Ring<F2<Fe>>, h: F2<Fe> -> F2<Fe>)
    requires IsPrime(P) && r == Fp2(Mont()) && s == Fp2(Fp()) && h == DecodeFp2
    ensures Embeds(r, s, h)
  {
    Fp2IsField();
    FpIsRing();
    Fp2IsRing(Fp());
    OutIsHom();
    CoefficientMapIsHom(Mont(), Fp(), OutOfMontgomeryForm, h);
    forall a: F2<Fe> ensures h(EncodeFp2(a)) == a { DecodeEncode(a); }
    DecodeIsInjective(h);
    FieldAlong(r, s, h, EncodeFp2);
  }

  lemma DecodeIsInjective(h: F2<Fe> -> F2<Fe>)
    requires h == DecodeFp2
    ensures Injective(h)
  {
    forall a: F2<Fe>, b: F2<Fe> | h(a) == h(b) ensures a == b {
      OutIsInjective(a.c0, b.c0); OutIsInjective(a.c1, b.c1);
    }
  }

  lemma TwoInFp2<T>(r: Ring<T>)
    requires r.add(r.one, r.one) != r.zero
    ensures Fp2(r).add(Fp2(r).one, Fp2(r).one) != Fp2(r).zero
  {
  }

  lemma TwistCurves<S(!new), T(!new)>(r: Ring<S>, s: Ring<T>, h: S -> T, g: T -> S, b: S)
    requires Embeds(r, s, h) && (forall a: T :: h(g(a)) == a) && NoTwoTorsion(r, b)
    requires r.add(r.one, r.one) != r.zero && s.add(s.one, s.one) != s.zero
    ensures CurveSetting(r, b, Inverse(r)) && CurveSetting(s, h(b), Inverse(s))
  {
    InverseInverts(r);
    InverseInverts(s);
    MapNoTwoTorsion(r, s, h, g, b);
  }

  lemma MinusCoefficients()
    ensures Fp2(Mont()).sub(Fp2(Mont()).zero, MONTGOMERY_TWISTED_CURVE_COEFFS) == MINUS_TWIST
  {
    MontSumValues(0, MONTGOMERY_TWISTED_CURVE_COEFFS.c0);
    MontSumValues(0, MONTGOMERY_TWISTED_CURVE_COEFFS.c1);
  }

  /** Both forms of the twisted curve meet the requirements of the affine law, and decoding maps one to the other. */
  lemma TwistIsSound(r: Ring<F2<Fe>>, s: Ring<F2<Fe>>, h: F2<Fe> -> F2<Fe>)
    requires IsPrime(P) && r == Fp2(Mont()) && s == Fp2(Fp()) && h == DecodeFp2
    ensures Embeds(r, s, h) && h(MONTGOMERY_TWISTED_CURVE_COEFFS) == TWISTED_CURVE_COEFFS
    ensures CurveSetting(r, MONTGOMERY_TWISTED_CURVE_COEFFS, Inverse(r))
                && CurveSetting(s, TWISTED_CURVE_COEFFS, Inverse(s))
  {
    TwistEmbeds(r, s, h);
    CoefficientsDecode();
    TwoIsNotZero(Mont());
    TwoIsNotZero(Fp());
    TwoInFp2(Mont());
    TwoInFp2(Fp());
    MinusCoefficients();
    TwistHasNoTwoTorsion(r, MONTGOMERY_TWISTED_CURVE_COEFFS);
    var g := (a: F2<Fe>) => EncodeFp2(a);
    forall a: F2<Fe> ensures h(g(a)) == a { DecodeEncode(a); }
    TwistCurves(r, s, h, g, MONTGOMERY_TWISTED_CURVE_COEFFS);
  }

  /** g2OutOfJacobian, on triples whose z does not vanish. */
  method G2OutOfJacobian(r: Ring<F2<Fe>>, p: Proj<F2<Fe>>, ghost a: Point<F2<Fe>>) returns (out: Point<F2<Fe>>)
    requires IsPrime(P) && r == Fp2(Mont()) && p.z != r.zero && Denotes(r, p, a)
    ensures out == a
  {
    Fp2IsField();
    var square := r.mul(p.z, p.z);
    var cube := r.mul(square, p.z);
    NonzeroProduct(r, p.z, p.z); NonzeroProduct(r, square, p.z);
    assert Invertible(Fp2Norm(Mont(), square)) && Invertible(Fp2Norm(Mont(), cube));
    var t0 := Fp2Inv(square);
    var t2 := Fp2Inv(cube);
    out := Point(r.mul(p.x, t0), r.mul(p.y, t2));
    InverseCancels(r, a.x, square, t0); InverseCancels(r, a.y, cube, t2);
  }

  function EncodePoint(p: Point<F2<Fe>>): Point<F2<Fe>> { Point(EncodeFp2(p.x), EncodeFp2(p.y)) }
  function DecodePoint(p: Point<F2<Fe>>): Point<F2<Fe>> { Point(DecodeFp2(p.x), DecodeFp2(p.y)) }

  // How encoded points and their law decode
  lemma DecodedOnTwist(r: Ring<F2<Fe>>, s: Ring<F2<Fe>>, p: Point<F2<Fe>>, q: Point<F2<Fe>>)
    requires IsPrime(P) && r == Fp2(Mont()) && s == Fp2(Fp())
    ensures OnCurve(r, MONTGOMERY_TWISTED_CURVE_COEFFS, EncodePoint(p)) <==> OnCurve(s, TWISTED_CURVE_COEFFS, p)
    ensures EncodePoint(p).x == EncodePoint(q).x <==> p.x == q.x
    ensures DecodePoint(PointAdd(r, Inverse(r), EncodePoint(p), EncodePoint(q))) == PointAdd(s, Inverse(s), p, q)
    ensures DecodePoint(PointDouble(r, Inverse(r), EncodePoint(p))) == PointDouble(s, Inverse(s), p)
  {
    var h := DecodeFp2;
    TwistIsSound(r, s, h);
    DecodeEncode(p.x); DecodeEncode(p.y); DecodeEncode(q.x); DecodeEncode(q.y);
    MapsDecode(r, s, h, EncodePoint(p), EncodePoint(q));
  }

  lemma MapsDecode(r: Ring<F2<Fe>>, s: Ring<F2<Fe>>, h: F2<Fe> -> F2<Fe>, p: Point<F2<Fe>>, q: Point<F2<Fe>>)
    requires h == DecodeFp2 && Embeds(r, s, h) && h(MONTGOMERY_TWISTED_CURVE_COEFFS) == TWISTED_CURVE_COEFFS
    ensures OnCurve(r, MONTGOMERY_TWISTED_CURVE_COEFFS, p) <==> OnCurve(s, TWISTED_CURVE_COEFFS, DecodePoint(p))
    ensures DecodePoint(PointAdd(r, Inverse(r), p, q)) == PointAdd(s, Inverse(s), DecodePoint(p), DecodePoint(q))
    ensures DecodePoint(PointDouble(r, Inverse(r), p)) == PointDouble(s, Inverse(s), DecodePoint(p))
  {
    MapOnCurve(r, s, h, MONTGOMERY_TWISTED_CURVE_COEFFS, p);
    MapAdd(r, s, h, p, q);
    MapDouble(r, s, h, p);
  }

  // g2AffinePointIsOnCurve on the encoded coordinates
  method PointIsOnTwist(p: Point<F2<Fe>>) returns (on: bool)
    requires IsPrime(P)
    ensures on == OnCurve(Fp2(Fp()), TWISTED_CURVE_COEFFS, p)
  {
    var r := Fp2(Mont());
    DecodedOnTwist(r, Fp2(Fp()), p, p);
    on := OnCurve(r, MONTGOMERY_TWISTED_CURVE_COEFFS, EncodePoint(p));
  }

  lemma EncodedDenotes(r: Ring<F2<Fe>>, b: F2<Fe>, inv: F2<Fe> -> F2<Fe>, p: Point<F2<Fe>>)
    requires CurveSetting(r, b, inv) && OnCurve(r, b, p)
    ensures Denotes(r, Proj(p.x, p.y, r.one), p)
  {
    CurvePointFacts(r, b, inv, p);
    OneIsUnit(r, r.one); OneIsUnit(r, p.x); OneIsUnit(r, p.y);
  }

  // A + A = 2 A
  method DoubleOnTwist(p: Point<F2<Fe>>) returns (out: Point<F2<Fe>>)
    requires IsPrime(P) && OnCurve(Fp2(Fp()), TWISTED_CURVE_COEFFS, p)
    ensures out == PointDouble(Fp2(Fp()), Inverse(Fp2(Fp())), p)
  {
    var r := Fp2(Mont());
    ghost var b, inv := MONTGOMERY_TWISTED_CURVE_COEFFS, Inverse(r);
    TwistIsSound(r, Fp2(Fp()), DecodeFp2);
    DecodedOnTwist(r, Fp2(Fp()), p, p);
    var m := EncodePoint(p);
    EncodedDenotes(r, b, inv, m);
    DoubleRefinesAffine(r, b, inv, Proj(m.x, m.y, r.one), m);
    var c := G2JacobianDouble(r, Proj(m.x, m.y, r.one));
    var a := G2OutOfJacobian(r, c, PointDouble(r, inv, m));
    out := DecodePoint(a);
  }

  // A + B = C
  method AddOnTwist(p: Point<F2<Fe>>, q: Point<F2<Fe>>) returns (out: Point<F2<Fe>>)
    requires IsPrime(P) && p.x != q.x
    requires OnCurve(Fp2(Fp()), TWISTED_CURVE_COEFFS, p) && OnCurve(Fp2(Fp()), TWISTED_CURVE_COEFFS, q)
    ensures out == PointAdd(Fp2(Fp()), Inverse(Fp2(Fp())), p, q)
  {
    var r := Fp2(Mont());
    ghost var b, inv := MONTGOMERY_TWISTED_CURVE_COEFFS, Inverse(r);
    TwistIsSound(r, Fp2(Fp()), DecodeFp2);
    DecodedOnTwist(r, Fp2(Fp()), p, q);
    DecodedOnTwist(r, Fp2(Fp()), q, q);
    var m, n := EncodePoint(p), EncodePoint(q);
    EncodedDenotes(r, b, inv, m); EncodedDenotes(r, b, inv, n);
    AddRefinesAffine(r, b, inv, Proj(m.x, m.y, r.one), Proj(n.x, n.y, r.one), m, n);
    var c := G2JacobianAdd(r, Proj(m.x, m.y, r.one), Proj(n.x, n.y, r.one));
    var a := G2OutOfJacobian(r, c, PointAdd(r, inv, m, n));
    out := DecodePoint(a);
  }

  // ---- the precompile ------------------------------------------------------------------------------------

  /** Four words stand for a point: all zero, or coordinates in range on the twisted curve. */
  ghost predicate Acceptable(x: Quad<Word>, y: Quad<Word>) {
    InRange(x) && InRange(y) && Proper(Fp2(Fp()), TWISTED_CURVE_COEFFS, PointOf(x, y))
  }

  predicate InRange(x: Quad<Word>) { x.c0 < P && x.c1 < P }

  function Element(x: Quad<Word>): F2<Fe>
    requires InRange(x)
  {
    Quad(x.c0, x.c1)
  }

  function PointOf(x: Quad<Word>, y: Quad<Word>): Point<F2<Fe>>
    requires InRange(x) && InRange(y)
  {
    Point(Element(x), Element(y))
  }

  /** The specification: the affine law over Fp2 on plain residues. */
  ghost function Sum(aX: Quad<Word>, aY: Quad<Word>, bX: Quad<Word>, bY: Quad<Word>): Outcome<F2<Fe>> {
    if !(Acceptable(aX, aY) && Acceptable(bX, bY)) then Burned
    else Returned(PointAdd(Fp2(Fp()), Inverse(Fp2(Fp())), PointOf(aX, aY), PointOf(bX, bY)))
  }

  // On the curve with the same x: equal, or opposite with sum infinity.
  lemma SameXOnTwist(s: Ring<F2<Fe>>, p: Point<F2<Fe>>, q: Point<F2<Fe>>)
    requires IsPrime(P) && s == Fp2(Fp()) && p.x == q.x
    requires OnCurve(s, TWISTED_CURVE_COEFFS, p) && OnCurve(s, TWISTED_CURVE_COEFFS, q)
    ensures p.y != q.y ==> s.sub(s.zero, p.y) == q.y && PointAdd(s, Inverse(s), p, q) == Infinity(s)
    ensures p.y == q.y ==> PointAdd(s, Inverse(s), p, q) == PointDouble(s, Inverse(s), p)
  {
    TwistIsSound(Fp2(Mont()), s, DecodeFp2);
    EqualOrOpposite(s, TWISTED_CURVE_COEFFS, Inverse(s), p, q);
  }

  /** For every calldata the precompile burns exactly what is not a pair of points, and else returns their sum; the
      branch for equal x and different y is left with a result only when the points are opposite. */
  method EcAddG2(aX: Quad<Word>, aY: Quad<Word>, bX: Quad<Word>, bY: Quad<Word>) returns (out: Outcome<F2<Fe>>)
    requires IsPrime(P)
    ensures out == Sum(aX, aY, bX, bY)
  {
    var zero := Quad<Word>.Quad(0, 0);
    var origin: Point<F2<Fe>> := Point(Quad(0, 0), Quad(0, 0));
    var aIsInfinity := aX == zero && aY == zero;
    var bIsInfinity := bX == zero && bY == zero;
    if aIsInfinity && bIsInfinity {
      return Returned(origin);
    }
    if aIsInfinity {
      if !(InRange(bX) && InRange(bY)) { return Burned; }
      var on := PointIsOnTwist(PointOf(bX, bY));
      return if on then Returned(PointOf(bX, bY)) else Burned;
    }
    if bIsInfinity {
      if !(InRange(aX) && InRange(aY)) { return Burned; }
      var on := PointIsOnTwist(PointOf(aX, aY));
      return if on then Returned(PointOf(aX, aY)) else Burned;
    }
    if aX == bX {
      if !(InRange(aX) && InRange(aY)) { return Burned; }
      var on := PointIsOnTwist(PointOf(aX, aY));
      if !on { return Burned; }
      if aY == bY {
        SameXOnTwist(Fp2(Fp()), PointOf(aX, aY), PointOf(aX, aY));
        var c := DoubleOnTwist(PointOf(aX, aY));
        return Returned(c);
      }
      if !InRange(bY) { return Burned; }
      var onB := PointIsOnTwist(PointOf(aX, bY));
      if !onB { return Burned; }
      SameXOnTwist(Fp2(Fp()), PointOf(aX, aY), PointOf(aX, bY));
      return Returned(origin);
    }
    if !(InRange(aX) && InRange(aY)) { return Burned; }
    if !(InRange(bX) && InRange(bY)) { return Burned; }
    var onA := PointIsOnTwist(PointOf(aX, aY));
    if !onA { return Burned; }
    var onB := PointIsOnTwist(PointOf(bX, bY));
    if !onB { return Burned; }
    var c := AddOnTwist(PointOf(aX, aY), PointOf(bX, bY));
    return Returned(c);
  }

  /** The sum of two acceptable points is again on the twisted curve or infinity, and does not depend on their order. */
  lemma SumLaws(aX: Quad<Word>, aY: Quad<Word>, bX: Quad<Word>, bY: Quad<Word>)
    requires IsPrime(P)
    ensures Sum(aX, aY, bX, bY) == Sum(bX, bY, aX, aY)
    ensures Sum(aX, aY, bX, bY).Returned? ==> Proper(Fp2(Fp()), TWISTED_CURVE_COEFFS, Sum(aX, aY, bX, bY).point)
  {
    if Acceptable(aX, aY) && Acceptable(bX, bY) {
      var s := Fp2(Fp());
      TwistIsSound(Fp2(Mont()), s, DecodeFp2);
      AddCommutes(s, TWISTED_CURVE_COEFFS, Inverse(s), PointOf(aX, aY), PointOf(bX, bY));
      AddProper(s, TWISTED_CURVE_COEFFS, Inverse(s), PointOf(aX, aY), PointOf(bX, bY));
    }
  }

  /** Four words below p that are zero or solve the equations of the twist */
  ghost predicate IsTwistPoint(x: Quad<Word>, y: Quad<Word>, p: int)
    requires p > 0
  {
    && x.c0 < p && x.c1 < p && y.c0 < p && y.c1 < p
    && ((x == Quad(0, 0) && y == Quad(0, 0)) ||
        SolvesTwist(x.c0, x.c1, y.c0, y.c1, TWISTED_CURVE_COEFFS.c0, TWISTED_CURVE_COEFFS.c1, p))
  }

  lemma AcceptableIsPoint(x: Quad<Word>, y: Quad<Word>, p: int)
    requires IsModulus(p)
    ensures Acceptable(x, y) <==> IsTwistPoint(x, y, p)
  {
    ModulusIs(p);
    if InRange(x) && InRange(y) { TwistEquationMeans(Element(x), Element(y), TWISTED_CURVE_COEFFS, p); }
  }

  /** The call burns exactly if one of the points is out of range or neither zero nor a solution of the equations. */
  lemma SumBurns(aX: Quad<Word>, aY: Quad<Word>, bX: Quad<Word>, bY: Quad<Word>, p: int)
    requires IsModulus(p)
    ensures Sum(aX, aY, bX, bY) == Burned <==> !(IsTwistPoint(aX, aY, p) && IsTwistPoint(bX, bY, p))
  {
    ModulusIs(p);
    AcceptableIsPoint(aX, aY, p); AcceptableIsPoint(bX, bY, p);
  }

  /** What it returns: infinity is neutral, opposite points give infinity, equal points the point of the tangent, and
      points with different abscissas the point of the chord. */
  lemma SumOfPoints(aX: Quad<Word>, aY: Quad<Word>, bX: Quad<Word>, bY: Quad<Word>, s: Ring<F2<Fe>>)
    requires IsPrime(P) && s == Fp2(Fp()) && Acceptable(aX, aY) && Acceptable(bX, bY)
    ensures Sum(aX, aY, bX, bY).Returned?
    ensures var a, b, t := PointOf(aX, aY), PointOf(bX, bY), Sum(aX, aY, bX, bY).point;
            && (a == Infinity(s) ==> t == b) && (b == Infinity(s) ==> t == a)
            && (a != Infinity(s) && b != Infinity(s) ==>
                  && (a.x == b.x && a.y != b.y ==> t == Infinity(s) && s.sub(s.zero, a.y) == b.y)
                  && (a == b ==> ByTangent(s, a, t)) && (a.x != b.x ==> ByChord(s, a, b, t)))
  {
    TwistIsSound(Fp2(Mont()), s, DecodeFp2);
    SumByCases(s, TWISTED_CURVE_COEFFS, Inverse(s), PointOf(aX, aY), PointOf(bX, bY));
  }
}
