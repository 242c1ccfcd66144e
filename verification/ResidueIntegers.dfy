/** Montgomery residues as images of the integers; Fermat's little theorem for them. */
module ResidueIntegers {
  import opened Arithmetic
  import opened Rings
  import opened Powers
  import opened BaseField
  import opened PrimeCharacteristic

  function Residue(x: int, p: int): (r: int)
    requires p > 0
    ensures 0 <= r < p
  {
    x % p
  }

  lemma {:induction false} OfIntModulo(p: nat, n: nat)
    requires p == P
    ensures OfInt(Fp(), n) == Residue(n, p)
  {
    if n == 0 {
      ModShift(0, 0, p);
    } else {
      OfIntModulo(p, n - 1);
      ModReduce(n - 1, 1, p);
      FpValues(OfInt(Fp(), n - 1), 1);
    }
  }

  lemma EveryResidueIsInteger(p: nat, a: Fe)
    requires p == P
    ensures a == OfInt(Mont(), OutOfMontgomeryForm(a))
  {
    var n := OutOfMontgomeryForm(a);
    OutIsHom();
    HomOfInt(Mont(), Fp(), OutOfMontgomeryForm, n);
    OfIntModulo(p, n);
    DivModUnique(n, p, 0, n);
    OutIsInjective(a, OfInt(Mont(), n));
  }

  lemma PrimeVanishes(p: nat)
    requires p == P
    ensures Vanishes(Mont(), p)
  {
    OutIsHom();
    HomOfInt(Mont(), Fp(), OutOfMontgomeryForm, p);
    OfIntModulo(p, p);
    ModShift(0, 1, p);
    ModShift(0, 0, p);
    OutIsInjective(OfInt(Mont(), p), 0);
  }

  lemma EveryResidueIsFixed(p: nat)
    requires p == P && IsPrime(p)
    ensures Fixed(Mont(), p)
  {
    MontIsRing();
    PrimeVanishes(p);
    forall a: Fe ensures Power(Mont(), a, p) == a {
      EveryResidueIsInteger(p, a);
      Fermat(Mont(), p, OutOfMontgomeryForm(a));
    }
  }

  /** v is the residue of n when n R = v modulo P. */
  lemma IntegerValue(p: nat, n: nat, v: Fe)
    requires p == P && n < p && Cong(n * R, v, P)
    ensures OfInt(Mont(), n) == v
  {
    OutIs(v, n);
    EveryResidueIsInteger(p, v);
  }
}
