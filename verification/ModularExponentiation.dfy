/** The exponentiation loops: modular_pow on plain integers and its Montgomery counterpart. */
module ModularExponentiation {
  import opened Arithmetic
  import opened Rings
  import opened Powers
  import opened BaseField
  import opened ResidueIntegers
  import opened Tower

  function IntPower(a: int, n: nat): int {
    if n == 0 then 1 else a * IntPower(a, n - 1)
  }

  lemma {:induction false} SquaredBase(a: int, n: nat)
    ensures IntPower(a * a, n) == IntPower(a, 2 * n)
  {
    if n > 0 {
      SquaredBase(a, n - 1);
      assert IntPower(a, 2 * n) == a * IntPower(a, 2 * n - 1) == a * (a * IntPower(a, 2 * n - 2));
    }
  }

  lemma {:induction false} ReducedBase(a: int, n: nat, m: int)
    requires m > 0
    ensures Cong(IntPower(a % m, n), IntPower(a, n), m)
  {
    if n > 0 {
      ReducedBase(a, n - 1, m);
      ModReduce(a, 0, m);
      CongMul(a % m, a, IntPower(a % m, n - 1), IntPower(a, n - 1), m);
    }
  }

  // What one turn of the loop keeps: result times the rest of the power
  lemma TurnKeeps(result: int, b: int, e: nat, m: int)
    requires m > 0 && e > 0
    ensures var next := if e % 2 == 1 then result * b % m else result;
            Cong(next * IntPower(b * b % m, e / 2), result * IntPower(b, e), m)
  {
    var p, q := IntPower(b * b % m, e / 2), IntPower(b * b, e / 2);
    SquaredBase(b, e / 2);
    ReducedBase(b * b, e / 2, m);
    if e % 2 == 1 {
      ModReduce(result * b, 0, m);
      CongMul(result * b % m, result * b, p, q, m);
      assert IntPower(b, e) == b * IntPower(b, e - 1) && 2 * (e / 2) == e - 1;
      assert result * b * q == result * (b * q);
    } else {
      CongMul(result, result, p, q, m);
    }
  }

  /** modular_pow returns base^exponent modulo every positive modulus. */
  method ModularPow(base: int, exponent: nat, modulus: int) returns (result: int)
    requires modulus > 0
    ensures result == IntPower(base, exponent) % modulus
  {
    if modulus == 1 {
      return 0;
    }
    result := 1;
    var b, e := base % modulus, exponent;
    DivModUnique(1, modulus, 0, 1);
    ReducedBase(base, exponent, modulus);
    while e > 0
      invariant 0 <= result < modulus
      invariant Cong(result * IntPower(b, e), IntPower(base, exponent), modulus)
    {
      TurnKeeps(result, b, e, modulus);
      if e % 2 == 1 { result := result * b % modulus; }
      e := e / 2;
      b := b * b % modulus;
    }
    DivModUnique(result, modulus, 0, result);
  }

  /** montgomery_modular_exponentiation, from pow = into(1). */
  method MontgomeryModularExponentiation(base: Fe, exponent: nat) returns (pow: Fe)
    ensures pow == Power(Mont(), base, exponent)
  {
    MontIsRing();
    pow := Exp(Mont(), base, exponent);
  }

  /** fp2.exp is the same loop over Fp2. */
  method Fp2Exp(base: F2<Fe>, exponent: nat) returns (pow: F2<Fe>)
    ensures pow == Power(Fp2(Mont()), base, exponent)
  {
    MontIsRing();
    Fp2IsRing(Mont());
    pow := Exp(Fp2(Mont()), base, exponent);
  }

  lemma ResidueStep(p: int, a: int, x: int)
    requires p > 0
    ensures MulMod(a, Residue(x, p), p) == Residue(a * x, p)
  {
    ModMul(x, a, p);
    assert x % p * a == a * (x % p) && x * a == a * x;
  }

  lemma {:induction false} PowerModulo(p: nat, a: Fe, n: nat)
    requires p == P
    ensures Power(Fp(), a, n) == Residue(IntPower(a, n), p)
  {
    if n == 0 {
      DivModUnique(1, p, 0, 1);
    } else {
      PowerModulo(p, a, n - 1);
      ResidueStep(p, a, IntPower(a, n - 1));
      FpValues(a, Power(Fp(), a, n - 1));
      assert Power(Fp(), a, n) == MulMod(a, Power(Fp(), a, n - 1), p);
    }
  }

  /** Decoding a Montgomery power of an encoded number gives what modular_pow returns, for every base and exponent. */
  lemma ExponentiationsAgree(p: nat, a: int, n: nat)
    requires p == P
    ensures 0 <= Residue(a, p) < R
    ensures OutOfMontgomeryForm(Power(Mont(), IntoMontgomeryForm(Residue(a, p)), n)) == IntPower(a, n) % p
  {
    var b := Residue(a, p);
    var m := IntoMontgomeryForm(b);
    OutOfInto(b);
    DivModUnique(b, p, 0, b);
    OutIsHom();
    HomPower(Mont(), Fp(), OutOfMontgomeryForm, m, n);
    PowerModulo(p, b, n);
    ReducedBase(a, n, p);
  }
}
