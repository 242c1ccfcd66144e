/** The curve y^2 = x^3 + 3 and its affine law in integers modulo p. */
module PlainPoints {
  import opened Arithmetic
  import opened Rings
  import opened BaseField
  import opened ResidueIntegers
  import opened Extensions
  import opened Tower
  import opened AffineCurve

  // a and b leave the same remainder, behind recursive steps: the solver does not compute with it by itself.
  ghost predicate CongruentAfter(steps: nat, a: int, b: int, p: int)
    requires p > 0
    decreases steps, a, b, p
  {
    if steps == 0 then Cong(a, b, p) else CongruentAfter(steps - 1, a, b, p)
  }

  /** a and b leave the same remainder modulo p. */
  ghost predicate Congruent(a: int, b: int, p: int)
    requires p > 0
  {
    CongruentAfter(3, a, b, p)
  }

  lemma CongruentIs(a: int, b: int, p: int)
    requires p > 0
    ensures Congruent(a, b, p) <==> Cong(a, b, p)
  {
    assert CongruentAfter(3, a, b, p) == CongruentAfter(2, a, b, p) == CongruentAfter(1, a, b, p);
    assert CongruentAfter(1, a, b, p) == CongruentAfter(0, a, b, p);
  }

  ghost predicate SolvesEquation(x: int, y: int, p: int)
    requires p > 0
  {
    Congruent(y * y, x * x * x + 3, p)
  }

  /** Two coordinates below p that are (0, 0) or a solution of the equation */
  ghost predicate IsPoint(x: int, y: int, p: int)
    requires p > 0
  {
    0 <= x < p && 0 <= y < p && ((x == 0 && y == 0) || SolvesEquation(x, y, p))
  }

  /** (x3, y3) is the third point of the line of slope m through (x1, y1) and the abscissa x2, reflected. */
  ghost predicate IsThird(x1: int, y1: int, x2: int, m: int, x3: int, y3: int, p: int)
    requires p > 0
  {
    0 <= x3 < p && 0 <= y3 < p && Congruent(x3, m * m - x1 - x2, p) && Congruent(y3, m * (x1 - x3) - y1, p)
  }

  /** (x3, y3) is given by the tangent at (x, y). */
  ghost predicate IsTangentSum(x: int, y: int, x3: int, y3: int, p: int)
    requires p > 0
  {
    exists m: int :: Congruent(2 * y * m, 3 * (x * x), p) && IsThird(x, y, x, m, x3, y3, p)
  }

  /** (x3, y3) is given by the chord through (x1, y1) and (x2, y2). */
  ghost predicate IsChordSum(x1: int, y1: int, x2: int, y2: int, x3: int, y3: int, p: int)
    requires p > 0
  {
    exists m: int :: Congruent(m * (x2 - x1), y2 - y1, p) && IsThird(x1, y1, x2, m, x3, y3, p)
  }

  // ---- residues and integers -------------------------------------------------------------------------------

  lemma ModIsCong(a: int, p: int)
    requires p > 0
    ensures Cong(a % p, a, p)
  {
    ModReduce(a, 0, p);
  }

  lemma FpMeans(a: Fe, b: Fe, p: int)
    requires IsModulus(p)
    ensures Cong(FpAdd(a, b), a + b, p) && Cong(FpSub(a, b), a - b, p) && Cong(FpMul(a, b), a * b, p)
  {
    ModulusIs(p);
    FpValues(a, b);
    ModIsCong(a + b, p); ModIsCong(a * b, p); ModIsCong(a + (p - b), p);
    ModShift(a - b, 1, p);
  }

  lemma CubeMeans(x: Fe, p: int)
    requires IsModulus(p)
    ensures Cong(FpAdd(FpMul(FpMul(x, x), x), 3), x * x * x + 3, p)
  {
    var s := FpMul(x, x);
    FpMeans(x, x, p); FpMeans(s, x, p); FpMeans(FpMul(s, x), 3, p);
    CongMul(s, x * x, x, x, p);
    CongAdd(FpMul(s, x), x * x * x, 3, 3, p);
  }

  lemma Below(a: Fe, p: int)
    requires IsModulus(p)
    ensures 0 <= a < p
  {
    ModulusIs(p);
  }

  lemma CongIsEqual(a: Fe, b: Fe, p: int)
    requires IsModulus(p)
    ensures Cong(a, b, p) <==> a == b
  {
    Below(a, p); Below(b, p);
    DivModUnique(a, p, 0, a); DivModUnique(b, p, 0, b);
  }

  /** The curve of the model is the one of the integer equation. */
  lemma EquationMeans(x: Fe, y: Fe, p: int)
    requires IsModulus(p)
    ensures OnCurve(Fp(), 3, Point(x, y)) <==> SolvesEquation(x, y, p)
  {
    FpMeans(y, y, p);
    CubeMeans(x, p);
    CongIsEqual(FpMul(y, y), FpAdd(FpMul(FpMul(x, x), x), 3), p);
    CongruentIs(y * y, x * x * x + 3, p);
  }

  // A product whose second factor is known up to multiples of p
  lemma ProductOf(m: int, d: int, e: int, md: int, p: int)
    requires p > 0 && Cong(d, e, p) && Cong(md, m * d, p)
    ensures Cong(md, m * e, p)
  {
    CongMul(m, m, d, e, p);
  }

  lemma SlopeProduct(m: Fe, d: Fe, e: int, p: int)
    requires IsModulus(p) && Cong(d, e, p)
    ensures Cong(FpMul(m, d), m * e, p)
  {
    FpMeans(m, d, p);
    ProductOf(m, d, e, FpMul(m, d), p);
  }

  lemma DifferenceOf(a: Fe, b: Fe, c: int, d: int, p: int)
    requires IsModulus(p) && Cong(a, c, p) && Cong(b, d, p)
    ensures Cong(FpSub(a, b), c - d, p)
  {
    FpMeans(a, b, p);
    CongAdd(a, c, b, d, p);
  }

  lemma ThirdMeans(a: Point<Fe>, x2: Fe, m: Fe, t: Point<Fe>, p: int)
    requires IsModulus(p) && ReflectedThird(Fp(), a, x2, m, t)
    ensures IsThird(a.x, a.y, x2, m, t.x, t.y, p)
  {
    var d := FpSub(a.x, t.x);
    Below(t.x, p); Below(t.y, p);
    FpMeans(m, m, p); FpMeans(a.x, x2, p);
    DifferenceOf(FpMul(m, m), FpAdd(a.x, x2), m * m, a.x + x2, p);
    FpMeans(a.x, t.x, p);
    SlopeProduct(m, d, a.x - t.x, p);
    DifferenceOf(FpMul(m, d), a.y, m * (a.x - t.x), a.y, p);
    CongruentIs(t.x, m * m - a.x - x2, p); CongruentIs(t.y, m * (a.x - t.x) - a.y, p);
  }

  lemma ThreeMeans(p: int)
    requires IsModulus(p)
    ensures OfInt(Fp(), 3) == 3
  {
    ModulusIs(p);
    OfIntModulo(p, 3);
    DivModUnique(3, p, 0, 3);
  }

  lemma TangentSlopeMeans(x: Fe, y: Fe, m: Fe, p: int)
    requires IsModulus(p) && FpMul(m, FpAdd(y, y)) == FpMul(3, FpMul(x, x))
    ensures Congruent(2 * y * m, 3 * (x * x), p)
  {
    FpMeans(y, y, p); FpMeans(x, x, p);
    SlopeProduct(m, FpAdd(y, y), y + y, p);
    SlopeProduct(3, FpMul(x, x), x * x, p);
    assert m * (y + y) == 2 * y * m;
    CongruentIs(2 * y * m, 3 * (x * x), p);
  }

  lemma ChordSlopeMeans(x1: Fe, y1: Fe, x2: Fe, y2: Fe, m: Fe, p: int)
    requires IsModulus(p) && FpMul(m, FpSub(x2, x1)) == FpSub(y2, y1)
    ensures Congruent(m * (x2 - x1), y2 - y1, p)
  {
    FpMeans(x2, x1, p); FpMeans(y2, y1, p);
    SlopeProduct(m, FpSub(x2, x1), x2 - x1, p);
    CongruentIs(m * (x2 - x1), y2 - y1, p);
  }

  lemma TangentMeans(a: Point<Fe>, t: Point<Fe>, p: int)
    requires IsModulus(p) && ByTangent(Fp(), a, t)
    ensures IsTangentSum(a.x, a.y, t.x, t.y, p)
  {
    var r := Fp();
    var m: Fe :| r.mul(m, r.add(a.y, a.y)) == r.mul(OfInt(r, 3), r.mul(a.x, a.x)) && ReflectedThird(r, a, a.x, m, t);
    ThreeMeans(p);
    TangentSlopeMeans(a.x, a.y, m, p);
    ThirdMeans(a, a.x, m, t, p);
  }

  lemma ChordMeans(a: Point<Fe>, c: Point<Fe>, t: Point<Fe>, p: int)
    requires IsModulus(p) && ByChord(Fp(), a, c, t)
    ensures IsChordSum(a.x, a.y, c.x, c.y, t.x, t.y, p)
  {
    var r := Fp();
    var m: Fe :| r.mul(m, r.sub(c.x, a.x)) == r.sub(c.y, a.y) && ReflectedThird(r, a, c.x, m, t);
    ChordSlopeMeans(a.x, a.y, c.x, c.y, m, p);
    ThirdMeans(a, c.x, m, t, p);
  }

  // ---- the twist in integers -------------------------------------------------------------------------------

  /** (y0 + y1 u)^2 = (x0 + x1 u)^3 + b0 + b1 u with u^2 = -1, modulo p */
  ghost predicate SolvesTwist(x0: int, x1: int, y0: int, y1: int, b0: int, b1: int, p: int)
    requires p > 0
  {
    && Congruent(y0 * y0 - y1 * y1, x0 * x0 * x0 - 3 * (x0 * x1 * x1) + b0, p)
    && Congruent(2 * (y0 * y1), 3 * (x0 * x0 * x1) - x1 * x1 * x1 + b1, p)
  }

  ghost predicate Stands(a: F2<Fe>, re: int, im: int, p: int)
    requires p > 0
  {
    Cong(a.c0, re, p) && Cong(a.c1, im, p)
  }

  lemma SumOf(a: Fe, b: Fe, c: int, d: int, p: int)
    requires IsModulus(p) && Cong(a, c, p) && Cong(b, d, p)
    ensures Cong(FpAdd(a, b), c + d, p)
  {
    FpMeans(a, b, p);
    CongAdd(a, c, b, d, p);
  }

  lemma ProductOfParts(a: Fe, b: Fe, c: int, d: int, p: int)
    requires IsModulus(p) && Cong(a, c, p) && Cong(b, d, p)
    ensures Cong(FpMul(a, b), c * d, p)
  {
    FpMeans(a, b, p);
    CongMul(a, c, b, d, p);
  }

  lemma Fp2ProductMeans(a: F2<Fe>, b: F2<Fe>, a0: int, a1: int, b0: int, b1: int, p: int)
    requires IsModulus(p) && Stands(a, a0, a1, p) && Stands(b, b0, b1, p)
    ensures Stands(Fp2(Fp()).mul(a, b), a0 * b0 - a1 * b1, a0 * b1 + a1 * b0, p)
  {
    ProductOfParts(a.c0, b.c0, a0, b0, p); ProductOfParts(a.c1, b.c1, a1, b1, p);
    ProductOfParts(a.c0, b.c1, a0, b1, p); ProductOfParts(a.c1, b.c0, a1, b0, p);
    DifferenceOf(FpMul(a.c0, b.c0), FpMul(a.c1, b.c1), a0 * b0, a1 * b1, p);
    SumOf(FpMul(a.c0, b.c1), FpMul(a.c1, b.c0), a0 * b1, a1 * b0, p);
  }

  lemma CubeOfParts(x0: int, x1: int)
    ensures (x0 * x0 - x1 * x1) * x0 - (x0 * x1 + x1 * x0) * x1 == x0 * x0 * x0 - 3 * (x0 * x1 * x1)
    ensures (x0 * x0 - x1 * x1) * x1 + (x0 * x1 + x1 * x0) * x0 == 3 * (x0 * x0 * x1) - x1 * x1 * x1
  {
  }

  lemma StandsForEqual(a: F2<Fe>, b: F2<Fe>, a0: int, a1: int, b0: int, b1: int, p: int)
    requires IsModulus(p) && Stands(a, a0, a1, p) && Stands(b, b0, b1, p)
    ensures a == b <==> Cong(a0, b0, p) && Cong(a1, b1, p)
  {
    CongIsEqual(a.c0, b.c0, p); CongIsEqual(a.c1, b.c1, p);
  }

  /** The twist of the model is the one of the integer equations. */
  lemma TwistEquationMeans(x: F2<Fe>, y: F2<Fe>, b: F2<Fe>, p: int)
    requires IsModulus(p)
    ensures OnCurve(Fp2(Fp()), b, Point(x, y)) <==> SolvesTwist(x.c0, x.c1, y.c0, y.c1, b.c0, b.c1, p)
  {
    var s := Fp2(Fp());
    var x2, x3, y2 := s.mul(x, x), s.mul(s.mul(x, x), x), s.mul(y, y);
    var re, im := x.c0 * x.c0 - x.c1 * x.c1, x.c0 * x.c1 + x.c1 * x.c0;
    Fp2ProductMeans(y, y, y.c0, y.c1, y.c0, y.c1, p);
    Fp2ProductMeans(x, x, x.c0, x.c1, x.c0, x.c1, p);
    Fp2ProductMeans(x2, x, re, im, x.c0, x.c1, p);
    CubeOfParts(x.c0, x.c1);
    SumOf(x3.c0, b.c0, x.c0 * x.c0 * x.c0 - 3 * (x.c0 * x.c1 * x.c1), b.c0, p);
    SumOf(x3.c1, b.c1, 3 * (x.c0 * x.c0 * x.c1) - x.c1 * x.c1 * x.c1, b.c1, p);
    assert y.c0 * y.c1 + y.c1 * y.c0 == 2 * (y.c0 * y.c1);
    StandsForEqual(y2, s.add(x3, b), y.c0 * y.c0 - y.c1 * y.c1, 2 * (y.c0 * y.c1),
                   x.c0 * x.c0 * x.c0 - 3 * (x.c0 * x.c1 * x.c1) + b.c0,
                   3 * (x.c0 * x.c0 * x.c1) - x.c1 * x.c1 * x.c1 + b.c1, p);
    CongruentIs(y.c0 * y.c0 - y.c1 * y.c1, x.c0 * x.c0 * x.c0 - 3 * (x.c0 * x.c1 * x.c1) + b.c0, p);
    CongruentIs(2 * (y.c0 * y.c1), 3 * (x.c0 * x.c0 * x.c1) - x.c1 * x.c1 * x.c1 + b.c1, p);
  }
}
