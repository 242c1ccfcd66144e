/** EcAdd.yul: addition on alt_bn128 by the affine law on Montgomery residues. */
module EcAdd {
  import opened Arithmetic
  import opened Rings
  import opened Solver
  import opened Powers
  import opened FieldLaws
  import opened BaseField
  import opened FieldInversion
  import opened AffineCurve
  import opened CurveTransfer
  import opened AltBn128Curve
  import opened PlainPoints

  /** A pair of words stands for a point: (0, 0), or coordinates in range on the curve. */
  ghost predicate Acceptable(x: Word, y: Word) {
    x < P && y < P && Proper(Fp(), 3, Point<Fe>.Point(x, y))
  }

  /** The specification: the affine law of double_and_add.py on plain residues. */
  ghost function Sum(x1: Word, y1: Word, x2: Word, y2: Word): Outcome<int> {
    if !(Acceptable(x1, y1) && Acceptable(x2, y2)) then Burned
    else
      var s := PointAdd(Fp(), Inverse(Fp()), Point<Fe>.Point(x1, y1), Point<Fe>.Point(x2, y2));
      Returned(Point(s.x, s.y))
  }

  /** The division never inverts zero. */
  method MontgomeryDiv(r: Ring<Fe>, dividend: Fe, divisor: Fe) returns (quotient: Fe)
    requires r == Mont() && IsPrime(P) && divisor != 0
    ensures quotient == r.mul(dividend, Inverse(r)(divisor))
  {
    PrimeInvertible(divisor);
    var inverse := MontgomeryModularInverse(divisor);
    MontIsRing();
    InvUnique(r, divisor, inverse);
    quotient := r.mul(dividend, inverse);
  }

  // P + P = 2 P
  method DoubleOf(r: Ring<Fe>, x: Fe, y: Fe) returns (x3: Fe, y3: Fe)
    requires IsPrime(P) && r == Mont() && OnCurve(r, MONTGOMERY_THREE, Point(x, y))
    ensures Point(x3, y3) == PointDouble(r, Inverse(r), Point(x, y))
  {
    CurveIsSound(r, Fp(), OutOfMontgomeryForm);
    CurvePointFacts(r, MONTGOMERY_THREE, Inverse(r), Point(x, y));
    var squared := r.mul(x, x);
    ThriceIs(r, squared);
    var slope := MontgomeryDiv(r, r.add(squared, r.add(squared, squared)), r.add(y, y));
    x3 := r.sub(r.mul(slope, slope), r.add(x, x));
    y3 := r.sub(r.mul(slope, r.sub(x, x3)), y);
  }

  // P1 + P2 = P3
  method ChordOf(r: Ring<Fe>, x1: Fe, y1: Fe, x2: Fe, y2: Fe) returns (x3: Fe, y3: Fe)
    requires IsPrime(P) && r == Mont() && x1 != x2
    requires OnCurve(r, MONTGOMERY_THREE, Point(x1, y1)) && OnCurve(r, MONTGOMERY_THREE, Point(x2, y2))
    ensures Point(x3, y3) == PointAdd(r, Inverse(r), Point(x1, y1), Point(x2, y2))
  {
    CurveIsSound(r, Fp(), OutOfMontgomeryForm);
    CurvePointFacts(r, MONTGOMERY_THREE, Inverse(r), Point(x1, y1));
    CurvePointFacts(r, MONTGOMERY_THREE, Inverse(r), Point(x2, y2));
    DifferenceIsZero(r, x2, x1);
    var slope := MontgomeryDiv(r, r.sub(y2, y1), r.sub(x2, x1));
    x3 := r.sub(r.mul(slope, slope), r.add(x1, x2));
    y3 := r.sub(r.mul(slope, r.sub(x1, x3)), y1);
  }

  // How the encoded points, their law and their sum decode
  lemma Decoded(r: Ring<Fe>, s: Ring<Fe>, h: Fe -> Fe, p: Point<Fe>, q: Point<Fe>)
    requires IsPrime(P) && r == Mont() && s == Fp() && h == OutOfMontgomeryForm
    ensures OnCurve(r, MONTGOMERY_THREE, p) <==> OnCurve(s, 3, MapPoint(h, p))
    ensures p == q <==> MapPoint(h, p) == MapPoint(h, q)
    ensures p.x == q.x <==> h(p.x) == h(q.x)
    ensures MapPoint(h, PointAdd(r, Inverse(r), p, q)) == PointAdd(s, Inverse(s), MapPoint(h, p), MapPoint(h, q))
    ensures MapPoint(h, PointDouble(r, Inverse(r), p)) == PointDouble(s, Inverse(s), MapPoint(h, p))
  {
    CurveIsSound(r, s, h);
    ThreeInMontgomeryForm();
    MapOnCurve(r, s, h, MONTGOMERY_THREE, p);
    MapAdd(r, s, h, p, q);
    MapDouble(r, s, h, p);
  }

  // Points with the same x, one of them on the curve: the other is its opposite or equal to it, or off the curve.
  lemma SpecialCases(s: Ring<Fe>, p: Point<Fe>, q: Point<Fe>)
    requires IsPrime(P) && s == Fp() && p != Infinity(s) && q != Infinity(s) && p.x == q.x
    ensures s.sub(0, p.y) == q.y ==>
                (OnCurve(s, 3, p) <==> OnCurve(s, 3, q)) && PointAdd(s, Inverse(s), p, q) == Infinity(s)
    ensures OnCurve(s, 3, p) && OnCurve(s, 3, q) && p != q ==> s.sub(0, p.y) == q.y
    ensures OnCurve(s, 3, p) && p == q ==> PointAdd(s, Inverse(s), p, q) == PointDouble(s, Inverse(s), p)
  {
    CurveIsSound(Mont(), s, OutOfMontgomeryForm);
    if s.sub(0, p.y) == q.y { OppositeSquares(s, p.y); }
    if OnCurve(s, 3, p) && OnCurve(s, 3, q) { EqualOrOpposite(s, 3, Inverse(s), p, q); }
  }

  /** For every calldata the precompile burns exactly what is not a pair of points, and else returns their sum. */
  method EcAdd(x1: Word, y1: Word, x2: Word, y2: Word) returns (out: Outcome<int>)
    requires IsPrime(P)
    ensures out == Sum(x1, y1, x2, y2)
  {
    var r := Mont();
    ghost var s := Fp();
    if x1 == 0 && y1 == 0 && x2 == 0 && y2 == 0 {
      return Returned(Point(0, 0));
    }
    if x1 == 0 && y1 == 0 {
      if !(x2 < P && y2 < P) { return Burned; }
      var on := PointIsInCurve(x2, y2);
      return if on then Returned(Point(x2, y2)) else Burned;
    }
    if x2 == 0 && y2 == 0 {
      if !(x1 < P && y1 < P) { return Burned; }
      var on := PointIsInCurve(x1, y1);
      return if on then Returned(Point(x1, y1)) else Burned;
    }
    if !(x1 < P && y1 < P) { return Burned; }
    if !(x2 < P && y2 < P) { return Burned; }
    ghost var p, q := Point<Fe>.Point(x1, y1), Point<Fe>.Point(x2, y2);
    if x1 == x2 { SpecialCases(s, p, q); }
    if x1 == x2 && FpSub(0, y1) == y2 {
      var on := PointIsInCurve(x1, y1);
      return if on then Returned(Point(0, 0)) else Burned;
    }
    if x1 == x2 && y1 == y2 {
      var on := PointIsInCurve(x1, y1);
      if !on { return Burned; }
      var x3, y3 := DoubleOfWords(x1, y1);
      return Returned(Point(x3, y3));
    }
    var on1 := PointIsInCurve(x1, y1);
    var on2 := PointIsInCurve(x2, y2);
    if !on1 || !on2 { return Burned; }
    var x3, y3 := ChordOfWords(x1, y1, x2, y2);
    return Returned(Point(x3, y3));
  }

  method PointIsInCurve(x: Fe, y: Fe) returns (on: bool)
    requires IsPrime(P)
    ensures on == OnCurve(Fp(), 3, Point(x, y))
  {
    var r := Mont();
    var p := Point(IntoMontgomeryForm(x), IntoMontgomeryForm(y));
    DecodedWord(x); DecodedWord(y);
    Decoded(r, Fp(), OutOfMontgomeryForm, p, p);
    on := OnCurve(r, MONTGOMERY_THREE, p);
  }

  // Encode, double and decode
  method DoubleOfWords(x: Fe, y: Fe) returns (x3: Fe, y3: Fe)
    requires IsPrime(P) && OnCurve(Fp(), 3, Point(x, y))
    ensures Point(x3, y3) == PointDouble(Fp(), Inverse(Fp()), Point(x, y))
  {
    var r := Mont();
    var p := Point(IntoMontgomeryForm(x), IntoMontgomeryForm(y));
    DecodedWord(x); DecodedWord(y);
    Decoded(r, Fp(), OutOfMontgomeryForm, p, p);
    x3, y3 := DoubleOf(r, p.x, p.y);
    x3, y3 := OutOfMontgomeryForm(x3), OutOfMontgomeryForm(y3);
  }

  // Encode, add by the chord and decode
  method ChordOfWords(x1: Fe, y1: Fe, x2: Fe, y2: Fe) returns (x3: Fe, y3: Fe)
    requires IsPrime(P) && OnCurve(Fp(), 3, Point(x1, y1)) && OnCurve(Fp(), 3, Point(x2, y2)) && x1 != x2
    ensures Point(x3, y3) == PointAdd(Fp(), Inverse(Fp()), Point(x1, y1), Point(x2, y2))
  {
    var r := Mont();
    var p := Point(IntoMontgomeryForm(x1), IntoMontgomeryForm(y1));
    var q := Point(IntoMontgomeryForm(x2), IntoMontgomeryForm(y2));
    DecodedWord(x1); DecodedWord(y1); DecodedWord(x2); DecodedWord(y2);
    Decoded(r, Fp(), OutOfMontgomeryForm, p, q);
    Decoded(r, Fp(), OutOfMontgomeryForm, q, q);
    x3, y3 := ChordOf(r, p.x, p.y, q.x, q.y);
    x3, y3 := OutOfMontgomeryForm(x3), OutOfMontgomeryForm(y3);
  }

  /** The precompile is commutative in its two points, and what it returns is again acceptable. */
  lemma SumLaws(x1: Word, y1: Word, x2: Word, y2: Word)
    requires IsPrime(P)
    ensures Sum(x1, y1, x2, y2) == Sum(x2, y2, x1, y1)
    ensures var out := Sum(x1, y1, x2, y2);
            out.Returned? ==> 0 <= out.point.x < P && 0 <= out.point.y < P && Acceptable(out.point.x, out.point.y)
  {
    if Acceptable(x1, y1) && Acceptable(x2, y2) {
      var s, p, q := Fp(), Point<Fe>.Point(x1, y1), Point<Fe>.Point(x2, y2);
      CurveIsSound(Mont(), s, OutOfMontgomeryForm);
      AddCommutes(s, 3, Inverse(s), p, q);
      AddProper(s, 3, Inverse(s), p, q);
    }
  }

  // ---- the outcome in integers modulo p --------------------------------------------------------------------

  lemma AcceptableIsPoint(x: Word, y: Word, p: int)
    requires IsModulus(p)
    ensures Acceptable(x, y) <==> IsPoint(x, y, p)
  {
    ModulusIs(p);
    if x < P && y < P { EquationMeans(x, y, p); }
  }

  /** The call burns exactly if one of the pairs is out of range or neither (0, 0) nor a solution of the equation. */
  lemma SumBurns(x1: Word, y1: Word, x2: Word, y2: Word, p: int)
    requires IsModulus(p)
    ensures Sum(x1, y1, x2, y2) == Burned <==> !(IsPoint(x1, y1, p) && IsPoint(x2, y2, p))
  {
    ModulusIs(p);
    AcceptableIsPoint(x1, y1, p); AcceptableIsPoint(x2, y2, p);
  }

  /** (0, 0) is neutral. */
  lemma SumWithInfinity(x: Word, y: Word, p: int)
    requires IsPrime(P) && IsModulus(p) && IsPoint(x, y, p)
    ensures Sum(x, y, 0, 0) == Returned(Point(x, y)) == Sum(0, 0, x, y)
  {
    ModulusIs(p);
    AcceptableIsPoint(x, y, p); AcceptableIsPoint(0, 0, p);
  }

  /** All other sums: opposite points give (0, 0), equal points the point of the tangent, and points with different
      abscissas the point of the chord. */
  lemma SumOfPoints(x1: Word, y1: Word, x2: Word, y2: Word, p: int)
    requires IsPrime(P) && IsModulus(p) && IsPoint(x1, y1, p) && IsPoint(x2, y2, p)
    requires !(x1 == 0 && y1 == 0) && !(x2 == 0 && y2 == 0)
    ensures Sum(x1, y1, x2, y2).Returned?
    ensures var t := Sum(x1, y1, x2, y2).point;
            && IsPoint(t.x, t.y, p)
            && (x1 == x2 && y1 != y2 ==> t == Point(0, 0) && y1 + y2 == p)
            && (x1 == x2 && y1 == y2 ==> IsTangentSum(x1, y1, t.x, t.y, p))
            && (x1 != x2 ==> IsChordSum(x1, y1, x2, y2, t.x, t.y, p))
  {
    ModulusIs(p);
    var s, a, c := Fp(), Point<Fe>.Point(x1, y1), Point<Fe>.Point(x2, y2);
    AcceptableIsPoint(x1, y1, p); AcceptableIsPoint(x2, y2, p);
    SumLaws(x1, y1, x2, y2);
    CurveIsSound(Mont(), s, OutOfMontgomeryForm);
    SumByCases(s, 3, Inverse(s), a, c);
    var t := PointAdd(s, Inverse(s), a, c);
    AcceptableIsPoint(t.x, t.y, p);
    if x1 != x2 {
      ChordMeans(a, c, t, p);
    } else if y1 == y2 {
      TangentMeans(a, t, p);
    } else {
      OppositeMeans(y1, y2, p);
    }
  }

  lemma OppositeMeans(y1: Fe, y2: Fe, p: int)
    requires IsModulus(p) && FpSub(0, y1) == y2 && y1 != y2
    ensures y1 + y2 == p
  {
    ModulusIs(p);
    FpMeans(0, y1, p);
    if y1 == 0 { CongIsEqual(y2, 0, p); } else { DivModUnique(0 - y1, p, -1, p - y1); DivModUnique(y2, p, 0, y2); }
  }
}
