/** The pairing on the Montgomery residues of alt_bn128: final_exponentiation, miller_loop and pair. */
module AltBn128Pairing {
  import opened Arithmetic
  import opened BnParameter
  import opened Rings
  import opened Powers
  import opened BaseField
  import opened Tower
  import opened FrobeniusMaps
  import opened PrimeCharacteristic
  import opened TowerFrobenius
  import opened TowerOperations
  import opened TowerInverses
  import opened CyclotomicExponentiation
  import opened PairingExponent
  import opened PairingInstance
  import opened ResidueIntegers
  import opened FieldInversion
  import opened FieldLaws
  import opened Extensions
  import opened AffineCurve
  import opened CurveTransfer
  import opened ProjectiveCurve
  import opened MillerSteps
  import opened MillerRuns
  import opened MillerTower
  import opened MillerValue
  import opened Untwisting
  import opened TowerUntwisting
  import opened PointMultiples
  import opened PairingSubgroup
  import opened TowerNorms
  import opened TowerFields
  import opened AltBn128Curve
  import opened EcAddG2

  lemma AltBn128IsSound(g: Gammas<Fe>)
    requires g == Constants()
    ensures IsRing(Mont()) && Sound(TowerOps(Mont(), g))
  {
    MontIsRing();
    ConstantsAreGood();
    TowerIsSound(Mont(), g);
  }

  /** The curve is a BN curve: p is the BN polynomial at x. */
  lemma FieldOrderIsP()
    ensures FieldOrder(X) == P
  {
  }

  lemma AltBn128IsPrimeSetting(g: Gammas<Fe>, p: nat)
    requires g == Constants() && p == P && IsPrime(p)
    ensures FrobeniusSetting(Mont(), g, p)
  {
    MontIsRing();
    ConstantsAreGood();
    PrimeVanishes(p);
    EveryResidueIsFixed(p);
    SevenModuloTwelve();
    GammaIsPower(p, g);
  }

  lemma SevenModuloTwelve()
    ensures P % 12 == 7
  {
  }

  /** When the modulus is prime, what final_exponentiation returns is the power of its argument with exponent
      (p^12 - 1) / r times 2 x (6 x^2 + 3 x + 1), and its r-th power is one. */
  lemma FinalExponentiationIsPower(g: Gammas<Fe>, x: nat, p: nat, f: F12<Fe>, fi: F12<Fe>, result: F12<Fe>)
    requires g == Constants() && x == X && p == P && IsPrime(p)
    requires Inverses(Fp12(Mont()), f, fi) && IsExponentiation(TowerOps(Mont(), g), f, fi, result)
    ensures IsTotalPower(Fp12(Mont()), x, f, result)
  {
    var r, o := Mont(), TowerOps(Mont(), g);
    AltBn128IsSound(g);
    FastInverses(r, f, fi);
    AltBn128IsPrimeSetting(g, p);
    TowerRaises(r, g, p);
    FieldOrderIsP();
    ExponentiationIsTotalPower(o, p, f, fi, result);
    FastTotalPower(r, g, x, f, result);
  }

  // ---- Fp12 is a field ----------------------------------------------------------------------------------

  /** For a prime modulus, Fp6 and Fp12 are fields. */
  lemma TowerIsFields(r: Ring<Fe>, g: Gammas<Fe>)
    requires IsPrime(P) && r == Mont() && g == Constants()
    ensures IsField(Fp6(r)) && IsField(Fp12(r)) && IsField(Fp12Fast(r))
  {
    AltBn128IsPrimeSetting(g, P);
    MontIsField();
    Fp2IsField();
    Fp6IsField(r, g, P);
    Fp12IsField(r, g, P);
    FastIsField(r);
  }

  /** Every invertible element has an invertible norm. */
  lemma UnitHasInvertibleNorm(g: Gammas<Fe>, a: F12<Fe>, ai: F12<Fe>)
    requires IsPrime(P) && g == Constants() && Inverses(Fp12(Mont()), a, ai)
    ensures Invertible(Norm(Mont(), a))
  {
    var r := Mont();
    MontIsRing();
    ConstantsAreGood();
    UnitOfFp12(r, g, a, ai);
    Fp2IsField();
    var n := Fp6Norm(r, Fp12Norm(r, a));
    assert Invertible(Fp2Norm(r, n));
  }

  lemma InvertibleNormIsNotZero<T(!new)>(r: Ring<T>, a: F12<T>, t: T)
    requires IsRing(r) && Inverses(r, Norm(r, a), t) && r.one != r.zero
    ensures a != Fp12(r).zero
  {
    var s, six := Fp2(r), Fp6(r);
    var n := Fp12Norm(r, a);
    var c, u := Fp6Adjoint(r, n), Fp2InverseFrom(r, Fp6Norm(r, n), t);
    Fp2InverseFromIsInverse(r, Fp6Norm(r, n), t);
    Fp6InverseFromIsInverse(r, n, u);
    var v := Cubic(s.mul(c.c0, u), s.mul(c.c1, u), s.mul(c.c2, u));
    Fp12InverseFromIsInverse(r, a, v);
    Fp12IsRing(r);
    MulZero(Fp12(r), Quad(Fp6Mul(r, a.c0, v), Fp6Mul(r, Fp6Mul(r, six.sub(six.zero, six.one), a.c1), v)));
  }

  /** The norm whose inverse fp12.inv takes is invertible exactly for the elements other than zero. */
  lemma NormIsInvertible(r: Ring<Fe>, g: Gammas<Fe>, a: F12<Fe>)
    requires IsPrime(P) && r == Mont() && g == Constants()
    ensures Invertible(Norm(r, a)) <==> a != Fp12(r).zero
  {
    MontIsRing();
    if a != Fp12(r).zero { NonzeroIsUnit(r, g, a); }
    if Invertible(Norm(r, a)) {
      var t :| Inverses(r, Norm(r, a), t);
      InvertibleNormIsNotZero(r, a, t);
    }
  }

  /** The norm whose inverse fp6.inv takes is invertible exactly for the elements other than zero. */
  lemma Fp6NormIsInvertible(r: Ring<Fe>, g: Gammas<Fe>, a: F6<Fe>)
    requires IsPrime(P) && r == Mont() && g == Constants()
    ensures Invertible(Fp2Norm(r, Fp6Norm(r, a))) <==> a != Fp6(r).zero
  {
    AltBn128IsPrimeSetting(g, P);
    MontIsField();
    Fp2IsField();
    if a != Fp6(r).zero { Fp6NormVanishesAtZero(r, g, P, a); }
    if Invertible(Fp2Norm(r, Fp6Norm(r, a))) {
      var t :| Inverses(r, Fp2Norm(r, Fp6Norm(r, a)), t);
      Fp6NormMeansNotZero(r, a, t);
    }
  }

  lemma Fp6NormMeansNotZero<T(!new)>(r: Ring<T>, a: F6<T>, t: T)
    requires IsRing(r) && Inverses(r, Fp2Norm(r, Fp6Norm(r, a)), t) && r.one != r.zero
    ensures a != Fp6(r).zero
  {
    var s, c, u := Fp2(r), Fp6Adjoint(r, a), Fp2InverseFrom(r, Fp6Norm(r, a), t);
    Fp2InverseFromIsInverse(r, Fp6Norm(r, a), t);
    Fp6InverseFromIsInverse(r, a, u);
    Fp6IsRing(r);
    MulZero(Fp6(r), Cubic(s.mul(c.c0, u), s.mul(c.c1, u), s.mul(c.c2, u)));
  }

  lemma NonzeroIsUnit(r: Ring<Fe>, g: Gammas<Fe>, a: F12<Fe>)
    requires IsPrime(P) && r == Mont() && g == Constants() && a != Fp12(r).zero
    ensures Invertible(Norm(r, a))
  {
    TowerIsFields(r, g);
    InvWorks(Fp12(r), a);
    UnitHasInvertibleNorm(g, a, Inv(Fp12(r), a));
  }

  /** final_exponentiation: a product of Frobenius images of the easy part, for every argument other than zero. */
  method FinalExponentiation(a: F12<Fe>) returns (result: F12<Fe>)
    requires IsPrime(P) && a != Fp12(Mont()).zero
    ensures IsExponentiation(TowerOps(Mont(), Constants()), a, Inv(Fp12(Mont()), a), result)
  {
    var g := Constants();
    NormIsInvertible(Mont(), g, a);
    var ai := Fp12Inv(a);
    AltBn128IsSound(g);
    Fp12IsRing(Mont());
    InvUnique(Fp12(Mont()), a, ai);
    FastInverses(Mont(), a, ai);
    result := Exponentiate(TowerOps(Mont(), g), a, ai);
  }

  // ---- the Miller loop --------------------------------------------------------------------------------

  const MONTGOMERY_TWO: Fe := 12701749756239638624677912564803064819576857758302891452024789069373997194042
  const MONTGOMERY_HALF: Fe := 14119558874979547267292681013829403749242370018224634694350716214666112402802

  lemma HalfOfOne()
    ensures MontAdd(MONTGOMERY_HALF, MONTGOMERY_HALF) == MONTGOMERY_ONE
                && MontMul(MONTGOMERY_TWO, MONTGOMERY_HALF) == MONTGOMERY_ONE
  {
    FpValue(MONTGOMERY_TWO, MONTGOMERY_HALF, MONTGOMERY_ONE,
      -25403499512479277249355825129606129639153715516605782904049578138747994388084);
    MontSumValues(MONTGOMERY_HALF, MONTGOMERY_HALF);
  }

  /** The coefficient of the twist times 9 + u is 3. */
  lemma CoefficientTimesXi()
    ensures Fp2(Mont()).mul(MONTGOMERY_TWISTED_CURVE_COEFFS, Xi(Mont())) == Quad(MONTGOMERY_THREE, Mont().zero)
    ensures Xi(Mont()) != Fp2(Mont()).zero
  {
    XiValue();
    RealValue(MONTGOMERY_TWISTED_CURVE_COEFFS, NINE_PLUS_U, MONTGOMERY_THREE,
      -90702434382600209388043390337076999125719876824276897779239154144915582582741);
    ImaginaryValue(MONTGOMERY_TWISTED_CURVE_COEFFS, NINE_PLUS_U, 0,
      5213994293213517660394508760729160994258583834409027828206786483958347796175);
    Fp2Value(MONTGOMERY_TWISTED_CURVE_COEFFS, NINE_PLUS_U, Quad(MONTGOMERY_THREE, 0));
  }

  function LoopSetup(xp: Fe, yp: Fe): Setup<F2<Fe>, F12<Fe>> {
    TowerSetup(Mont(), MONTGOMERY_TWISTED_CURVE_COEFFS, MONTGOMERY_HALF, xp, yp)
  }

  ghost function Embedding(): F2<Fe> -> F12<Fe> { (a: F2<Fe>) => InFp12(Mont(), a) }

  lemma LoopSetupIsSound(r: Ring<Fe>, s: Ring<F2<Fe>>, xp: Fe, yp: Fe)
    requires IsPrime(P) && r == Mont() && s == Fp2(r)
    ensures SoundSetup(LoopSetup(xp, yp), Inverse(s), Embedding())
  {
    MontIsRing();
    HalfOfOne();
    TwistIsSound(s, Fp2(Fp()), DecodeFp2);
    TowerSetupIsSound(r, MONTGOMERY_TWISTED_CURVE_COEFFS, MONTGOMERY_HALF, xp, yp, Inverse(s), Embedding());
  }

  lemma ImagesAreOnTwist(g: Gammas<Fe>, q: Point<F2<Fe>>)
    requires IsPrime(P) && g == Constants() && OnCurve(Fp2(Mont()), MONTGOMERY_TWISTED_CURVE_COEFFS, q)
    ensures OnCurve(Fp2(Mont()), MONTGOMERY_TWISTED_CURVE_COEFFS, FirstImage(Mont(), g, q))
    ensures OnCurve(Fp2(Mont()), MONTGOMERY_TWISTED_CURVE_COEFFS, SecondImage(Mont(), g, q))
  {
    MontIsRing();
    Fp2IsField();
    ConstantsAreGood();
    CoefficientTimesXi();
    ImagesOnTwist(Mont(), g, MONTGOMERY_TWISTED_CURVE_COEFFS, MONTGOMERY_THREE, q);
  }

  /** The affine Miller value of the points p = (xp, yp) and q, and the point that its run reaches. */
  ghost function AffineMillerState(m: Setup<F2<Fe>, F12<Fe>>, g: Gammas<Fe>, q: Point<F2<Fe>>): State<F2<Fe>, F12<Fe>> {
    AffineValue(m, Inverse(m.s), q, FirstImage(Mont(), g, q), SecondImage(Mont(), g, q), SNaf())
  }

  /** q is on the twist, and no chord of the run over the digits and to the Frobenius images is vertical. */
  ghost predicate RegularPoint(m: Setup<F2<Fe>, F12<Fe>>, g: Gammas<Fe>, q: Point<F2<Fe>>) {
    var inv, q1, q2 := Inverse(m.s), FirstImage(Mont(), g, q), SecondImage(Mont(), g, q);
    var st := AffineMiller(m, inv, q, SNaf(), 65, Start(m, q));
    && OnCurve(m.s, m.b, q) && Regular(m, inv, q, SNaf(), 65, Start(m, q))
    && st.a.x != q1.x && AddLine(m, inv, q1, st).a.x != q2.x
  }

  lemma RegularPointIsRegularInput(m: Setup<F2<Fe>, F12<Fe>>, g: Gammas<Fe>, q: Point<F2<Fe>>)
    requires IsPrime(P) && g == Constants() && m.s == Fp2(Mont()) && m.b == MONTGOMERY_TWISTED_CURVE_COEFFS
    ensures OnCurve(m.s, m.b, q) ==>
                OnCurve(m.s, m.b, FirstImage(Mont(), g, q)) && OnCurve(m.s, m.b, SecondImage(Mont(), g, q))
    ensures RegularPoint(m, g, q) <==>
            RegularInput(m, Inverse(m.s), q, FirstImage(Mont(), g, q), SecondImage(Mont(), g, q), SNaf())
  {
    if OnCurve(m.s, m.b, q) { ImagesAreOnTwist(g, q); }
  }

  // The two halvings of double_step are multiplications by the computed inverse of 2.
  method Half() returns (half: Fe)
    requires IsPrime(P)
    ensures half == MONTGOMERY_HALF
  {
    PrimeInvertible(MONTGOMERY_TWO);
    half := MontgomeryModularInverse(MONTGOMERY_TWO);
    HalfOfOne();
    MontIsRing();
    InverseUnique(Mont(), MONTGOMERY_TWO, half, MONTGOMERY_HALF);
  }

  method RunLoop(m: Setup<F2<Fe>, F12<Fe>>, g: Gammas<Fe>, q: Point<F2<Fe>>, ghost xp: Fe, ghost yp: Fe)
    returns (f: F12<Fe>, t: Proj<F2<Fe>>, ghost c: F2<Fe>)
    requires IsPrime(P) && g == Constants() && m == LoopSetup(xp, yp) && Proper(m.s, m.b, q)
    ensures t.z != m.s.zero <==> RegularPoint(m, g, q)
    ensures t.z != m.s.zero ==> c != m.s.zero && f == m.w.mul(Embedding()(c), AffineMillerState(m, g, q).f)
    ensures t.z != m.s.zero ==> Represents(m.s, t, AffineMillerState(m, g, q).a)
  {
    LoopSetupIsSound(Mont(), m.s, xp, yp);
    RegularPointIsRegularInput(m, g, q);
    var q1, q2 := FirstImage(Mont(), g, q), SecondImage(Mont(), g, q);
    f, t, c := Loop(m, q, q1, q2, SNaf(), Inverse(m.s), Embedding());
  }

  /** f is v up to a nonzero factor from Fp2. */
  ghost predicate IsMultipleOf(r: Ring<Fe>, f: F12<Fe>, v: F12<Fe>) {
    exists c: F2<Fe> {:trigger InFp12(r, c)} :: c != Fp2(r).zero && f == Fp12Fast(r).mul(InFp12(r, c), v)
  }

  /** miller_loop on every point of the twist and infinity, returning also its last triple t: z is not zero exactly if
      the run is regular, and then t represents the affine point reached and f is a multiple of the affine Miller
      value. */
  method MillerLoop(xp: Fe, yp: Fe, q: Point<F2<Fe>>) returns (f: F12<Fe>, t: Proj<F2<Fe>>)
    requires IsPrime(P) && Proper(Fp2(Mont()), MONTGOMERY_TWISTED_CURVE_COEFFS, q)
    ensures t.z != Fp2(Mont()).zero <==> RegularPoint(LoopSetup(xp, yp), Constants(), q)
    ensures t.z != Fp2(Mont()).zero ==>
              var st := AffineMillerState(LoopSetup(xp, yp), Constants(), q);
              Represents(Fp2(Mont()), t, st.a) && IsMultipleOf(Mont(), f, st.f)
  {
    var half := Half();
    var m := TowerSetup(Mont(), MONTGOMERY_TWISTED_CURVE_COEFFS, half, xp, yp);
    ghost var c: F2<Fe>;
    f, t, c := RunLoop(m, Constants(), q, xp, yp);
    assert InFp12(Mont(), c) == Embedding()(c);
  }

  /** With yp other than zero, which holds of every point of the curve, the affine Miller value is not zero. */
  lemma MillerValueIsNotZero(g: Gammas<Fe>, xp: Fe, yp: Fe, q: Point<F2<Fe>>)
    requires IsPrime(P) && g == Constants() && yp != 0
    ensures AffineMillerState(LoopSetup(xp, yp), g, q).f != Fp12(Mont()).zero
  {
    var m := LoopSetup(xp, yp);
    MontIsRing();
    TowerIsFields(Mont(), g);
    LinesAreNotZero(Mont(), MONTGOMERY_TWISTED_CURVE_COEFFS, MONTGOMERY_HALF, xp, yp);
    ValueIsNotZero(m, Inverse(m.s), q, FirstImage(Mont(), g, q), SecondImage(Mont(), g, q), SNaf());
  }

  // ---- the value on the curve over Fp12 -----------------------------------------------------------------

  /** q on y^2 = x^3 + 3 over Fp12 */
  ghost function OnBigCurve(q: Point<F2<Fe>>): Point<F12<Fe>> {
    Untwist(Fp12Fast(Mont()), Embedding(), Root(Mont()), q)
  }

  /** The optimal ate value of p and u, both on the curve over Fp12: the product of the powers of the line values for
      6 x + 2, and the chords to frobenius(u) and to the negative of frobenius_square(u). */
  ghost function AteValue(g: Gammas<Fe>, p: Point<F12<Fe>>, u: Point<F12<Fe>>): F12<Fe> {
    var r, w := Mont(), Fp12Fast(Mont());
    MillerProduct(BigSetup(r, w.one, w.one, p), Inverse(w), u,
                  Point(Frobenius(r, g, u.x), Frobenius(r, g, u.y)),
                  Negated(w, Point(FrobeniusSquare(r, g, u.x), FrobeniusSquare(r, g, u.y))), SNaf())
  }

  /** Points of the curve and of the twist, and no others, become points of y^2 = x^3 + 3 over Fp12. */
  lemma PointsOnBigCurve(g: Gammas<Fe>, xp: Fe, yp: Fe, q: Point<F2<Fe>>)
    requires IsPrime(P) && g == Constants()
    ensures var w, b := Fp12Fast(Mont()), InFp12(Mont(), Quad(MONTGOMERY_THREE, 0));
            && (OnCurve(w, b, PointInFp12(Mont(), xp, yp)) <==> OnCurve(Mont(), MONTGOMERY_THREE, Point(xp, yp)))
            && (OnCurve(w, b, OnBigCurve(q)) <==> OnCurve(Fp2(Mont()), MONTGOMERY_TWISTED_CURVE_COEFFS, q))
  {
    var r := Mont();
    MontIsField();
    Fp2IsField();
    TowerIsFields(r, g);
    PointOnBigCurve(r, MONTGOMERY_THREE, xp, yp);
    CoefficientTimesXi();
    UntwistedCurve(r, Embedding(), MONTGOMERY_TWISTED_CURVE_COEFFS, MONTGOMERY_THREE, q);
  }

  /** The affine Miller value of the loop is the optimal ate value of the untwisted point. */
  lemma MillerValueIsAte(g: Gammas<Fe>, xp: Fe, yp: Fe, q: Point<F2<Fe>>)
    requires IsPrime(P) && g == Constants()
    ensures AffineMillerState(LoopSetup(xp, yp), g, q).f ==
            AteValue(g, PointInFp12(Mont(), xp, yp), OnBigCurve(q))
  {
    var r, w, e, m := Mont(), Fp12Fast(Mont()), Embedding(), LoopSetup(xp, yp);
    var q1, q2 := FirstImage(r, g, q), SecondImage(r, g, q);
    MontIsRing();
    Fp2IsField();
    TowerIsFields(r, g);
    ValueIsProduct(m, Inverse(m.s), q, q1, q2, SNaf());
    TowerLinesAreSame(r, MONTGOMERY_TWISTED_CURVE_COEFFS, MONTGOMERY_HALF, e, xp, yp, w.one, w.one);
    ValueUntwists(m, BigSetup(r, w.one, w.one, PointInFp12(r, xp, yp)), e, Root(r), q, q1, q2, SNaf());
    ImagesAreFrobenius(r, g, e, q);
  }

  /** result is the power of the optimal ate value with exponent (p^12 - 1) / r times 2 x (6 x^2 + 3 x + 1), and its
      r-th power is one. */
  ghost predicate IsAtePower(p: Point<F12<Fe>>, u: Point<F12<Fe>>, result: F12<Fe>) {
    exists x: nat :: x == X && IsTotalPower(Fp12(Mont()), x, AteValue(Constants(), p, u), result)
  }

  /** What pair returns for yp other than zero and a regular run is that power. */
  lemma PairIsAtePower(g: Gammas<Fe>, xp: Fe, yp: Fe, q: Point<F2<Fe>>, v: F12<Fe>, result: F12<Fe>)
    requires IsPrime(P) && g == Constants() && yp != 0
    requires v == AffineMillerState(LoopSetup(xp, yp), g, q).f
    requires IsExponentiation(TowerOps(Mont(), g), v, Inv(Fp12(Mont()), v), result)
    ensures IsAtePower(PointInFp12(Mont(), xp, yp), OnBigCurve(q), result)
  {
    var x: nat := X;
    MillerValueIsNotZero(g, xp, yp, q);
    TowerIsFields(Mont(), g);
    InvWorks(Fp12(Mont()), v);
    MillerValueIsAte(g, xp, yp, q);
    FinalExponentiationIsPower(g, x, P, v, Inv(Fp12(Mont()), v), result);
  }

  // ---- points of the pairing subgroup ----------------------------------------------------------------------

  /** The affine law of the twist is associative. */
  ghost predicate TwistAssociates(s: Ring<F2<Fe>>) {
    Associates(s, MONTGOMERY_TWISTED_CURVE_COEFFS, Inverse(s))
  }

  /** The run leads from q to (6 x + 2) q, and from there by Q1 and Q2. */
  lemma LoopReaches(g: Gammas<Fe>, x: nat, xp: Fe, yp: Fe, q: Point<F2<Fe>>)
    requires IsPrime(P) && g == Constants() && x == X && TwistAssociates(Fp2(Mont()))
    requires OnCurve(Fp2(Mont()), MONTGOMERY_TWISTED_CURVE_COEFFS, q)
    ensures var s, inv, q1, q2 := Fp2(Mont()), Inverse(Fp2(Mont())), FirstImage(Mont(), g, q),
                                  SecondImage(Mont(), g, q);
            AffineMillerState(LoopSetup(xp, yp), g, q).a ==
            PointAdd(s, inv, PointAdd(s, inv, Repeated(s, inv, q, 6 * x + 2), q1), q2)
  {
    var m, s := LoopSetup(xp, yp), Fp2(Mont());
    MontIsRing();
    TwistIsSound(s, Fp2(Fp()), DecodeFp2);
    FastIsRing(Mont());
    DigitsOfLoop();
    RunReaches(m, Inverse(s), q, FirstImage(Mont(), g, q), SecondImage(Mont(), g, q), SNaf(), 6 * x + 2);
  }

  /** A point of order r on the twist whose image under Frobenius is its p-fold sum */
  ghost predicate InPairingSubgroup(s: Ring<F2<Fe>>, g: Gammas<Fe>, q: Point<F2<Fe>>, r: nat, p: nat) {
    && OnCurve(s, MONTGOMERY_TWISTED_CURVE_COEFFS, q) && HasOrder(s, Inverse(s), q, r)
    && FirstImage(Mont(), g, q) == Repeated(s, Inverse(s), q, p)
  }

  /** With an associative law, the run of every point of the pairing subgroup is regular. */
  lemma SubgroupIsRegular(g: Gammas<Fe>, x: nat, r: nat, p: nat, xp: Fe, yp: Fe, q: Point<F2<Fe>>)
    requires IsPrime(P) && g == Constants() && TwistAssociates(Fp2(Mont()))
    requires x == X && r == GroupOrder(x) && p == FieldOrder(x) && InPairingSubgroup(Fp2(Mont()), g, q, r, p)
    ensures RegularPoint(LoopSetup(xp, yp), g, q)
  {
    var m, s := LoopSetup(xp, yp), Fp2(Mont());
    var k := 6 * (x * x);
    MontIsRing();
    ConstantsAreGood();
    CoefficientTimesXi();
    TwistIsSound(s, Fp2(Fp()), DecodeFp2);
    TowerIsFields(Mont(), g);
    DigitsOfLoop();
    BnMultiples(x, 6 * x + 2, k);
    ReducedEigenvalue(s, m.b, Inverse(s), q, r, k);
    ImagesAreMultiples(Mont(), g, m.b, q, k);
    RunIsRegular(m, Inverse(s), q, FirstImage(Mont(), g, q), SecondImage(Mont(), g, q), SNaf(), r, k, k * k);
    RegularPointIsRegularInput(m, g, q);
  }

  lemma ConjugateFixesFp2<T(!new)>(r: Ring<T>, c: F2<T>)
    requires IsRing(r)
    ensures Conjugate(r, InFp12(r, c)) == InFp12(r, c)
  {
    Zeros(r, r.zero);
  }

  // A nonzero factor from Fp2: it is invertible, conjugation fixes it, and it keeps units units.
  lemma FactorFromFp2<T(!new)>(r: Ring<T>, c: F2<T>, v: F12<T>, vi: F12<T>)
    returns (ki: F12<T>)
    requires IsRing(r) && IsField(Fp2(r)) && c != Fp2(r).zero && Inverses(Fp12Fast(r), v, vi)
    ensures var w, k := Fp12Fast(r), InFp12(r, c);
            Inverses(w, k, ki) && Conjugate(r, k) == k && Inverses(w, w.mul(k, v), w.mul(ki, vi))
  {
    var e := (a: F2<T>) => InFp12(r, a);
    var s, w := Fp2(r), Fp12Fast(r);
    InFp12IsHom(r, e);
    FastHom(r, e);
    FastIsRing(r);
    InvWorks(s, c);
    UseHom(s, w, e, c, Inv(s, c));
    ki := e(Inv(s, c));
    ConjugateFixesFp2(r, c);
    SwapMul(w, e(c), v, ki, vi);
    OneIsUnit(w, w.one);
  }

  lemma PairIsExponentiation<T(!new)>(r: Ring<T>, g: Gammas<T>, k: F12<T>, v: F12<T>, vi: F12<T>, ki: F12<T>,
                                      f: F12<T>, fi: F12<T>, result: F12<T>)
    requires IsRing(r) && GoodGammas(r, g)
    requires Inverses(Fp12Fast(r), k, ki) && Conjugate(r, k) == k && f == Fp12Fast(r).mul(k, v)
    requires Inverses(Fp12Fast(r), v, vi) && Inverses(Fp12(r), f, fi)
    requires IsExponentiation(TowerOps(r, g), f, fi, result)
    ensures IsExponentiation(TowerOps(r, g), v, vi, result)
  {
    TowerIsSound(r, g);
    FastInverses(r, f, fi);
    FixedFactorsVanish(TowerOps(r, g), k, ki, v, vi, f, fi, result);
  }

  /** pair: the exponentiation of the affine Miller value. */
  method Pair(xp: Fe, yp: Fe, q: Point<F2<Fe>>) returns (result: F12<Fe>)
    requires IsPrime(P) && yp != 0 && RegularPoint(LoopSetup(xp, yp), Constants(), q)
    ensures var v := AffineMillerState(LoopSetup(xp, yp), Constants(), q).f;
            IsExponentiation(TowerOps(Mont(), Constants()), v, Inv(Fp12(Mont()), v), result)
    ensures IsAtePower(PointInFp12(Mont(), xp, yp), OnBigCurve(q), result)
  {
    var f, t := MillerLoop(xp, yp, q);
    ghost var v := AffineMillerState(LoopSetup(xp, yp), Constants(), q).f;
    ghost var c :| c != Fp2(Mont()).zero && f == Fp12Fast(Mont()).mul(InFp12(Mont(), c), v);
    ghost var ki := MillerFactor(Mont(), Constants(), c, v, f, xp, yp, q);
    result := FinalExponentiation(f);
    ConstantsAreGood();
    PairIsExponentiation(Mont(), Constants(), InFp12(Mont(), c), v, Inv(Fp12(Mont()), v), ki, f, Inv(Fp12(Mont()), f),
        result);
    PairIsAtePower(Constants(), xp, yp, q, v, result);
  }

  // What the exponentiation needs of the value of the loop
  lemma MillerFactor(r: Ring<Fe>, g: Gammas<Fe>, c: F2<Fe>, v: F12<Fe>, f: F12<Fe>, xp: Fe, yp: Fe, q: Point<F2<Fe>>)
    returns (ki: F12<Fe>)
    requires IsPrime(P) && r == Mont() && g == Constants() && yp != 0 && c != Fp2(r).zero
    requires v == AffineMillerState(LoopSetup(xp, yp), g, q).f && f == Fp12Fast(r).mul(InFp12(r, c), v)
    ensures IsRing(r) && f != Fp12(r).zero
    ensures Inverses(Fp12Fast(r), v, Inv(Fp12(r), v)) && Inverses(Fp12(r), f, Inv(Fp12(r), f))
    ensures Inverses(Fp12Fast(r), InFp12(r, c), ki) && Conjugate(r, InFp12(r, c)) == InFp12(r, c)
  {
    var w := Fp12Fast(r);
    MontIsRing();
    Fp2IsField();
    TowerIsFields(r, g);
    MillerValueIsNotZero(g, xp, yp, q);
    var vi := Inv(Fp12(r), v);
    InvWorks(Fp12(r), v);
    FastInverses(r, v, vi);
    ki := FactorFromFp2(r, c, v, vi);
    MulZero(w, w.mul(ki, vi));
    InvWorks(Fp12(r), f);
  }
}
