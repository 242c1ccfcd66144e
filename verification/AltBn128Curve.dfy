/** The curve y^2 = x^3 + 3 over the residues modulo P, in plain and in Montgomery form. */
module AltBn128Curve {
  import opened Arithmetic
  import opened Rings
  import opened Powers
  import opened FieldLaws
  import opened BaseField
  import opened FieldInversion
  import opened ResidueIntegers
  import opened PrimeCharacteristic
  import Reduction
  import opened TowerInverses
  import opened AffineCurve
  import opened CurveTransfer
  import opened Torsion

  const MONTGOMERY_THREE: Fe := 19052624634359457937016868847204597229365286637454337178037183604060995791063
  const MONTGOMERY_B3: Fe := 13381388159399823366557795051099241510703237597767364208733475022892534956023

  /** What a precompile does: burn the gas, or return a point. */
  datatype Outcome<T> = Burned | Returned(point: Point<T>)

  lemma FpIsField()
    requires IsPrime(P)
    ensures IsField(Fp())
  {
    FpIsRing();
    MontIsField();
    OutIsHom();
    forall a: Fe | a != 0 ensures HasInverse(Fp(), a) {
      var m := IntoMontgomeryForm(a);
      OutOfInto(a);
      DivModUnique(a, P, 0, a);
      OutIs(0, 0);
      InvWorks(Mont(), m);
      UseHom(Mont(), Fp(), OutOfMontgomeryForm, m, Inv(Mont(), m));
      assert Inverses(Fp(), a, OutOfMontgomeryForm(Inv(Mont(), m)));
    }
  }

  lemma TwoIsNotZero(r: Ring<Fe>)
    requires r == Mont() || r == Fp()
    ensures r.add(r.one, r.one) != r.zero
  {
    MontSumValues(MONTGOMERY_ONE, MONTGOMERY_ONE);
    FpValues(1, 1);
  }

  lemma ThreeInMontgomeryForm()
    ensures OutOfMontgomeryForm(MONTGOMERY_THREE) == 3
    ensures MONTGOMERY_B3 == MontMul(OfInt(Mont(), 3), MONTGOMERY_THREE)
  {
    OutIs(MONTGOMERY_THREE, 3);
    MontIsRing();
    IntegerValue(P, 3, MONTGOMERY_THREE);
    IntegerValue(P, 9, MONTGOMERY_B3);
    OfIntMul(Mont(), 3, 3);
  }

  lemma MinusThree()
    ensures MontSub(0, MONTGOMERY_THREE) == MONTGOMERY_MINUS_THREE
  {
    MontSumValues(0, MONTGOMERY_THREE);
  }

  /** Both forms of the curve meet the requirements of the affine law, and decoding maps one to the other. */
  lemma CurveIsSound(r: Ring<Fe>, s: Ring<Fe>, h: Fe -> Fe)
    requires IsPrime(P) && r == Mont() && s == Fp() && h == OutOfMontgomeryForm
    ensures Embeds(r, s, h)
    ensures CurveSetting(r, MONTGOMERY_THREE, Inverse(r)) && CurveSetting(s, 3, Inverse(s))
  {
    MontIsField();
    FpIsField();
    OutIsHom();
    ThreeInMontgomeryForm();
    InverseInverts(r);
    InverseInverts(s);
    TwoIsNotZero(r);
    TwoIsNotZero(s);
    MinusThree();
    CurveHasNoTwoTorsion(r, MONTGOMERY_THREE);
    var g := (a: Fe) => IntoMontgomeryForm(a);
    forall a: Fe ensures h(g(a)) == a { DecodedWord(a); }
    MapNoTwoTorsion(r, s, h, g, MONTGOMERY_THREE);
  }

  /** inv_mod of double_and_add.py, the power p - 2, is an inversion. */
  lemma PowerInverts(p: nat, inv: Fe -> Fe)
    requires p == P && IsPrime(p) && forall a: Fe :: inv(a) == Power(Fp(), a, p - 2)
    ensures Inverts(Fp(), inv)
  {
    FpIsField();
    OutIsHom();
    forall a: Fe | a != Fp().zero ensures FpMul(a, inv(a)) == 1 {
      PowerOfResidue(p, a);
      OneIsUnit(Fp(), a);
      assert Power(Fp(), a, p) == FpMul(a, Power(Fp(), a, p - 1))
          && Power(Fp(), a, p - 1) == FpMul(a, Power(Fp(), a, p - 2));
      CancelFactor(Fp(), a, FpMul(a, inv(a)), 1);
    }
  }

  lemma PowerOfResidue(p: nat, a: Fe)
    requires p == P && IsPrime(p)
    ensures Power(Fp(), a, p) == a
  {
    var m := IntoMontgomeryForm(a);
    DecodedWord(a);
    EveryResidueIsFixed(p);
    OutIsHom();
    HomPower(Mont(), Fp(), OutOfMontgomeryForm, m, p);
  }

  /** The affine loop gives the same with that inversion as with any other. */
  lemma LoopWithPowers(p: nat, inv: Fe -> Fe, a: Point<Fe>, k: nat)
    requires p == P && IsPrime(p) && forall a: Fe :: inv(a) == Power(Fp(), a, p - 2)
    requires Proper(Fp(), 3, a)
    ensures DoubleAndAdd(Fp(), inv, Infinity(Fp()), a, k) == DoubleAndAdd(Fp(), Inverse(Fp()), Infinity(Fp()), a, k)
  {
    CurveIsSound(Mont(), Fp(), OutOfMontgomeryForm);
    PowerInverts(p, inv);
    SameMultiply(Fp(), 3, Inverse(Fp()), inv, Infinity(Fp()), a, k);
  }

  lemma DecodedWord(x: Fe)
    ensures OutOfMontgomeryForm(IntoMontgomeryForm(x)) == x
  {
    OutOfInto(x);
    DivModUnique(x, P, 0, x);
  }
}
