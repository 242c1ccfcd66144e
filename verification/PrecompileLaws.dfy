/** What ecAdd and ecMul compute together when the affine law is associative. */
module PrecompileLaws {
  import opened Arithmetic
  import opened Rings
  import opened BaseField
  import opened FieldLaws
  import opened AffineCurve
  import opened CurveTransfer
  import opened AltBn128Curve
  import opened PointMultiples
  import opened PlainPoints
  import EcAdd
  import EcMul

  // What ecMul returns, as a multiple on the curve or infinity
  lemma MultipleOfPoint(s: Ring<Fe>, x: Fe, y: Fe, k: nat)
    requires IsPrime(P) && s == Fp() && Associates(s, 3, Inverse(s)) && Proper(s, 3, Point(x, y))
    ensures AssociativeCurve(s, 3, Inverse(s)) && Proper(s, 3, Repeated(s, Inverse(s), Point(x, y), k))
    ensures var m := Repeated(s, Inverse(s), Point(x, y), k);
            EcMul.Multiple(x, y, k) == Returned(Point(m.x, m.y))
  {
    CurveIsSound(Mont(), s, OutOfMontgomeryForm);
    RepeatedProper(s, 3, Inverse(s), Point(x, y), k);
    if OnCurve(s, 3, Point(x, y)) {
      EcMul.MultipleIsRepeated(s, x, y, k);
    } else {
      RepeatedInfinity(s, Inverse(s), k);
      EcMul.MultipleBurns(x, y, k, P);
    }
  }

  lemma {:induction false} RepeatedInfinity<T>(r: Ring<T>, inv: T -> T, k: nat)
    ensures Repeated(r, inv, Infinity(r), k) == Infinity(r)
  {
    if k > 0 { RepeatedInfinity(r, inv, k - 1); }
  }

  /** ecAdd(ecMul(P, k), ecMul(P, l)) = ecMul(P, k + l) and ecMul(ecMul(P, k), l) = ecMul(P, k l), for every P that
      is not burned. */
  lemma MultiplesAddUp(s: Ring<Fe>, x: Fe, y: Fe, k: nat, l: nat)
    requires IsPrime(P) && s == Fp() && Associates(s, 3, Inverse(s)) && Proper(s, 3, Point(x, y))
    ensures k * l >= 0
    ensures EcMul.Multiple(x, y, k).Returned? && EcMul.Multiple(x, y, l).Returned?
    ensures var a, b := EcMul.Multiple(x, y, k).point, EcMul.Multiple(x, y, l).point;
            && 0 <= a.x < P && 0 <= a.y < P && 0 <= b.x < P && 0 <= b.y < P
            && EcAdd.Sum(a.x, a.y, b.x, b.y) == EcMul.Multiple(x, y, k + l)
            && EcMul.Multiple(a.x, a.y, l) == EcMul.Multiple(x, y, k * l)
  {
    var inv, p := Inverse(s), Point<Fe>.Point(x, y);
    var a := Repeated(s, inv, p, k);
    MultipleOfPoint(s, x, y, k); MultipleOfPoint(s, x, y, l); MultipleOfPoint(s, x, y, k + l);
    RepeatedAdd(s, 3, inv, p, k, l);
    RepeatedMul(s, 3, inv, p, k, l);
    MultipleOfPoint(s, a.x, a.y, l);
    MultipleOfPoint(s, x, y, k * l);
  }
}
