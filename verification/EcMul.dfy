/** EcMul.yul: scalar multiplication on alt_bn128 by a projective double-and-add loop on Montgomery residues. */
module EcMul {
  import opened Arithmetic
  import opened Rings
  import opened Powers
  import opened FieldLaws
  import opened AffineCurve
  import opened ProjectiveCurve
  import opened BaseField
  import opened FieldInversion
  import opened CurveTransfer
  import opened AltBn128Curve
  import opened PointMultiples
  import opened PlainPoints

  // ---- the loop ------------------------------------------------------------------------------------

  lemma AddSelf<T(!new)>(r: Ring<T>, b: T, inv: T -> T, a: Point<T>)
    requires CurveSetting(r, b, inv) && OnCurve(r, b, a)
    ensures PointAdd(r, inv, a, a) == PointDouble(r, inv, a)
  {
    CurvePointFacts(r, b, inv, a);
    Use(r, r.zero, a.y, a.y);
  }

  // projectiveDouble on a representative of the point a of the curve
  method DoublePoint<T(==,!new)>(r: Ring<T>, b3: T, p: Proj<T>, ghost b: T, ghost inv: T -> T, ghost a: Point<T>)
    returns (xr: T, yr: T, zr: T)
    requires CurveSetting(r, b, inv) && b3 == r.mul(OfInt(r, 3), b)
    requires OnCurve(r, b, a) && p.z != r.zero && Represents(r, p, a)
    ensures OnCurve(r, b, PointDouble(r, inv, a)) && zr != r.zero
                && Represents(r, Proj(xr, yr, zr), PointDouble(r, inv, a))
  {
    DoubleRefines(r, b, inv, p, a);
    DoubleIsTangent(r, b, inv, a);
    xr, yr, zr := ProjectiveDouble(r, b3, p);
  }

  // What the crossed differences t and u of the loop decide
  lemma AddStep<T(!new)>(r: Ring<T>, b: T, inv: T -> T, q: Proj<T>, p: Proj<T>, aq: Point<T>, ar: Point<T>)
    requires CurveSetting(r, b, inv) && OnCurve(r, b, aq) && q.z != r.zero && Represents(r, q, aq)
    requires Proper(r, b, ar) && Represents(r, p, ar)
    ensures Proper(r, b, PointAdd(r, inv, ar, aq)) && aq != Infinity(r)
    ensures p.z == r.zero ==> PointAdd(r, inv, ar, aq) == aq
    ensures p.z != r.zero && Crossed(r, q, p) == (r.zero, r.zero) ==>
              OnCurve(r, b, ar) && aq == ar && PointAdd(r, inv, ar, aq) == PointDouble(r, inv, ar)
    ensures p.z != r.zero && Crossed(r, q, p) != (r.zero, r.zero) ==>
              Represents(r, Added(r, q, p), PointAdd(r, inv, ar, aq))
  {
    AddProper(r, b, inv, ar, aq);
    CurvePointFacts(r, b, inv, aq);
    if p.z != r.zero {
      CrossedMeans(r, q, p, aq, ar);
      if aq == ar { AddSelf(r, b, inv, aq); } else { AddRefines(r, b, inv, q, p, aq, ar); }
    }
  }

  /** The double-and-add loop: with q and r projective forms of points of the curve or, for r, of infinity, every
      iteration does one step of the affine loop. */
  method MultiplyLoop<T(==,!new)>(r: Ring<T>, b3: T, xp: T, yp: T, zp: T, k: nat,
                                  ghost b: T, ghost inv: T -> T, ghost a: Point<T>)
    returns (xr: T, yr: T, zr: T)
    requires CurveSetting(r, b, inv) && b3 == r.mul(OfInt(r, 3), b)
    requires OnCurve(r, b, a) && zp != r.zero && Represents(r, Proj(xp, yp, zp), a)
    ensures Represents(r, Proj(xr, yr, zr), DoubleAndAdd(r, inv, Infinity(r), a, k))
  {
    var xq, yq, zq := xp, yp, zp;
    xr, yr, zr := r.zero, r.one, r.zero;
    var scalar := k;
    ghost var aq, ar := a, Infinity(r);
    while scalar > 0
      invariant OnCurve(r, b, aq) && zq != r.zero && Represents(r, Proj(xq, yq, zq), aq)
      invariant Proper(r, b, ar) && Represents(r, Proj(xr, yr, zr), ar)
      invariant DoubleAndAdd(r, inv, ar, aq, scalar) == DoubleAndAdd(r, inv, Infinity(r), a, k)
      decreases scalar
    {
      AddStep(r, b, inv, Proj(xq, yq, zq), Proj(xr, yr, zr), aq, ar);
      if scalar % 2 == 1 {
        if zr == r.zero {
          xr, yr, zr, ar := xq, yq, zq, aq;
          xq, yq, zq := DoublePoint(r, b3, Proj(xq, yq, zq), b, inv, aq);
          scalar, aq := scalar / 2, PointDouble(r, inv, aq);
          continue;
        }
        var t0, t1 := r.mul(yq, zr), r.mul(yr, zq);
        var t := r.sub(t0, t1);
        var u0, u1 := r.mul(xq, zr), r.mul(xr, zq);
        var u := r.sub(u0, u1);
        if t == r.zero && u == r.zero {
          xr, yr, zr := DoublePoint(r, b3, Proj(xr, yr, zr), b, inv, ar);
          ar := PointDouble(r, inv, ar);
          xq, yq, zq := xr, yr, zr;
          scalar, aq := scalar / 2, ar;
          continue;
        }
        var u2 := r.mul(u, u);
        var u3 := r.mul(u2, u);
        var v := r.mul(zq, zr);
        var w := r.sub(r.mul(r.mul(t, t), v), r.mul(u2, r.add(u0, u1)));
        ar := PointAdd(r, inv, ar, aq);
        xr := r.mul(u, w);
        yr := r.sub(r.mul(t, r.sub(r.mul(u0, u2), w)), r.mul(t0, u3));
        zr := r.mul(u3, v);
      }
      xq, yq, zq := DoublePoint(r, b3, Proj(xq, yq, zq), b, inv, aq);
      scalar, aq := scalar / 2, PointDouble(r, inv, aq);
    }
  }

  // ---- the precompile --------------------------------------------------------------------------------

  /** The specification: the affine loop of double_and_add.py on plain residues, for points of the curve. */
  ghost function Multiple(x: int, y: int, scalar: nat): Outcome<int> {
    if !(0 <= x < P && 0 <= y < P) then Burned
    else
      var a := Point<Fe>.Point(x, y);
      if a == Infinity(Fp()) then Returned(Point(0, 0))
      else if !OnCurve(Fp(), 3, a) then Burned
      else
        var m := DoubleAndAdd(Fp(), Inverse(Fp()), Infinity(Fp()), a, scalar);
        Returned(Point(m.x, m.y))
  }

  lemma IntoAffine<T(!new)>(r: Ring<T>, p: Proj<T>, a: Point<T>, i: T)
    requires IsRing(r) && Represents(r, p, a) && p.z != r.zero && r.mul(p.z, i) == r.one
    ensures r.mul(p.x, i) == a.x && r.mul(p.y, i) == a.y
  {
    Use(r, a.x, p.z, i); Use(r, a.y, p.z, i); OneIsUnit(r, a.x); OneIsUnit(r, a.y);
  }

  method ProjectiveIntoAffine(r: Ring<Fe>, xp: Fe, yp: Fe, zp: Fe, ghost a: Point<Fe>) returns (xr: Fe, yr: Fe)
    requires r == Mont() && IsPrime(P) && Represents(r, Proj(xp, yp, zp), a)
    ensures Point(xr, yr) == a
  {
    xr, yr := 0, 0;
    if zp != 0 {
      PrimeInvertible(zp);
      var inverse := MontgomeryModularInverse(zp);
      MontIsRing();
      xr, yr := r.mul(xp, inverse), r.mul(yp, inverse);
      IntoAffine(r, Proj(xp, yp, zp), a, inverse);
    }
  }

  // Decoding the affine multiple of the encoded point gives the multiple of the point.
  lemma DecodedMultiple(r: Ring<Fe>, s: Ring<Fe>, h: Fe -> Fe, x: Fe, y: Fe, a: Point<Fe>, scalar: nat)
    requires IsPrime(P) && r == Mont() && s == Fp() && h == OutOfMontgomeryForm
    requires h(a.x) == x && h(a.y) == y && Point(x, y) != Infinity(s)
    ensures a != Infinity(r) && (OnCurve(r, MONTGOMERY_THREE, a) <==> OnCurve(s, 3, Point(x, y)))
    ensures var m := DoubleAndAdd(r, Inverse(r), Infinity(r), a, scalar);
            OnCurve(s, 3, Point(x, y)) ==> Multiple(x, y, scalar) == Returned(Point(h(m.x), h(m.y)))
  {
    CurveIsSound(r, s, h);
    ThreeInMontgomeryForm();
    MapOnCurve(r, s, h, MONTGOMERY_THREE, a);
    MapOnCurve(r, s, h, MONTGOMERY_THREE, Infinity(r));
    MapMultiply(r, s, h, Infinity(r), a, scalar);
  }

  lemma SmallMultiples<T>(r: Ring<T>, inv: T -> T, a: Point<T>)
    ensures DoubleAndAdd(r, inv, Infinity(r), a, 0) == Infinity(r)
    ensures a != Infinity(r) ==> DoubleAndAdd(r, inv, Infinity(r), a, 1) == a
    ensures PointDouble(r, inv, a) != Infinity(r) ==> DoubleAndAdd(r, inv, Infinity(r), a, 2) == PointDouble(r, inv, a)
  {
    var d := PointDouble(r, inv, a);
    assert DoubleAndAdd(r, inv, Infinity(r), a, 1) == DoubleAndAdd(r, inv, PointAdd(r, inv, Infinity(r), a), d, 0);
    assert DoubleAndAdd(r, inv, Infinity(r), a, 2) == DoubleAndAdd(r, inv, Infinity(r), d, 1);
    assert DoubleAndAdd(r, inv, Infinity(r), d, 1) ==
           DoubleAndAdd(r, inv, PointAdd(r, inv, Infinity(r), d), PointDouble(r, inv, d), 0);
  }

  // The part of the precompile after the checks, up to decoding
  method MultiplyPoint(r: Ring<Fe>, mx: Fe, my: Fe, scalar: nat, ghost a: Point<Fe>) returns (xr: Fe, yr: Fe)
    requires IsPrime(P) && r == Mont() && a == Point(mx, my) && OnCurve(r, MONTGOMERY_THREE, a) && scalar > 1
    ensures Point(xr, yr) == DoubleAndAdd(r, Inverse(r), Infinity(r), a, scalar)
  {
    ghost var b, inv := MONTGOMERY_THREE, Inverse(r);
    CurveIsSound(r, Fp(), OutOfMontgomeryForm);
    ThreeInMontgomeryForm();
    CurvePointFacts(r, b, inv, a);
    OneIsUnit(r, mx); OneIsUnit(r, my);
    var xp, yp, zp := mx, my, r.one;
    if scalar == 2 {
      var x2, y2, z2 := DoublePoint(r, MONTGOMERY_B3, Proj(xp, yp, zp), b, inv, a);
      CurvePointFacts(r, b, inv, PointDouble(r, inv, a));
      SmallMultiples(r, inv, a);
      xr, yr := ProjectiveIntoAffine(r, x2, y2, z2, PointDouble(r, inv, a));
      return;
    }
    var x3, y3, z3 := MultiplyLoop(r, MONTGOMERY_B3, xp, yp, zp, scalar, b, inv, a);
    xr, yr := ProjectiveIntoAffine(r, x3, y3, z3, DoubleAndAdd(r, inv, Infinity(r), a, scalar));
  }

  /** For every calldata the precompile burns exactly the points that are out of range or off the curve, and else
      returns what the affine double-and-add loop returns. */
  method EcMul(x: Word, y: Word, scalar: Word) returns (out: Outcome<int>)
    requires IsPrime(P)
    ensures out == Multiple(x, y, scalar)
  {
    if !(x < P && y < P) {
      return Burned;
    }
    if x == 0 && y == 0 {
      return Returned(Point(0, 0));
    }
    var r := Mont();
    var mx, my := IntoMontgomeryForm(x), IntoMontgomeryForm(y);
    ghost var a := Point(mx, my);
    DecodedWord(x); DecodedWord(y);
    DecodedMultiple(r, Fp(), OutOfMontgomeryForm, x, y, a, scalar);
    if !OnCurve(r, MONTGOMERY_THREE, Point(mx, my)) {
      return Burned;
    }
    SmallMultiples(Fp(), Inverse(Fp()), Point<Fe>.Point(x, y));
    if scalar == 0 {
      return Returned(Point(0, 0));
    }
    if scalar == 1 {
      return Returned(Point(x, y));
    }
    var xr, yr := MultiplyPoint(r, mx, my, scalar, a);
    return Returned(Point(OutOfMontgomeryForm(xr), OutOfMontgomeryForm(yr)));
  }

  /** With an associative law, what the precompile returns for a point of the curve is its k-fold sum. */
  lemma MultipleIsRepeated(s: Ring<Fe>, x: Fe, y: Fe, scalar: nat)
    requires IsPrime(P) && s == Fp() && Associates(s, 3, Inverse(s)) && OnCurve(s, 3, Point(x, y))
    ensures var m := Repeated(s, Inverse(s), Point(x, y), scalar); Multiple(x, y, scalar) == Returned(Point(m.x, m.y))
  {
    CurveIsSound(Mont(), s, OutOfMontgomeryForm);
    CurvePointFacts(s, 3, Inverse(s), Point(x, y));
    DoubleAndAddIsRepeated(s, 3, Inverse(s), Infinity(s), Point(x, y), scalar);
  }

  // ---- the outcome in integers modulo p --------------------------------------------------------------------

  /** The call burns exactly if the pair is out of range or neither (0, 0) nor a solution of the equation. What it
      returns is in range and a solution or (0, 0), and (0, 0) for (0, 0). */
  lemma MultipleBurns(x: int, y: int, scalar: nat, p: int)
    requires IsPrime(P) && IsModulus(p)
    ensures Multiple(x, y, scalar) == Burned <==> !IsPoint(x, y, p)
    ensures Multiple(x, y, scalar).Returned? ==>
              var t := Multiple(x, y, scalar).point; IsPoint(t.x, t.y, p)
    ensures Multiple(0, 0, scalar) == Returned(Point(0, 0))
  {
    ModulusIs(p);
    if 0 <= x < P && 0 <= y < P {
      var s, a := Fp(), Point<Fe>.Point(x, y);
      EquationMeans(x, y, p);
      CurveIsSound(Mont(), s, OutOfMontgomeryForm);
      if OnCurve(s, 3, a) {
        MultiplyProper(s, 3, Inverse(s), Infinity(s), a, scalar);
        var t := DoubleAndAdd(s, Inverse(s), Infinity(s), a, scalar);
        EquationMeans(t.x, t.y, p);
      }
    }
  }

  /** The scalars 0, 1 and 2 give (0, 0), the point itself and the point of the tangent. */
  lemma SmallScalars(x: Fe, y: Fe, p: int)
    requires IsPrime(P) && IsModulus(p) && SolvesEquation(x, y, p)
    ensures Multiple(x, y, 0) == Returned(Point(0, 0)) && Multiple(x, y, 1) == Returned(Point(x, y))
    ensures Multiple(x, y, 2).Returned?
    ensures var t := Multiple(x, y, 2).point; IsTangentSum(x, y, t.x, t.y, p)
  {
    ModulusIs(p);
    var s, a := Fp(), Point<Fe>.Point(x, y);
    EquationMeans(x, y, p);
    CurveIsSound(Mont(), s, OutOfMontgomeryForm);
    CurvePointFacts(s, 3, Inverse(s), a);
    SmallMultiples(s, Inverse(s), a);
    DoubleIsTangent(s, 3, Inverse(s), a);
    CurvePointFacts(s, 3, Inverse(s), PointDouble(s, Inverse(s), a));
    TangentMeans(a, PointDouble(s, Inverse(s), a), p);
  }
}
