/** Powers in commutative rings: laws, integer exponents of units, and the square-and-multiply loop. */
module Powers {
  import opened Rings

  lemma OneIsUnit<T(!new)>(r: Ring<T>, a: T)
    requires IsRing(r)
    ensures r.mul(r.one, a) == a && r.mul(a, r.one) == a
  {
    Use(r, a, r.one, r.one); Use(r, r.one, a, a);
  }

  lemma {:induction false} PowerOfOne<T(!new)>(r: Ring<T>, n: nat)
    requires IsRing(r)
    ensures Power(r, r.one, n) == r.one
  {
    if n > 0 { PowerOfOne(r, n - 1); OneIsUnit(r, r.one); }
  }

  lemma {:induction false} PowerOfProduct<T(!new)>(r: Ring<T>, a: T, b: T, n: nat)
    requires IsRing(r)
    ensures Power(r, r.mul(a, b), n) == r.mul(Power(r, a, n), Power(r, b, n))
  {
    if n == 0 {
      OneIsUnit(r, r.one);
    } else {
      PowerOfProduct(r, a, b, n - 1);
      SwapMul(r, a, b, Power(r, a, n - 1), Power(r, b, n - 1));
    }
  }

  lemma {:induction false} PowerOfPower<T(!new)>(r: Ring<T>, a: T, m: nat, n: nat)
    requires IsRing(r)
    ensures m * n >= 0 && Power(r, Power(r, a, m), n) == Power(r, a, m * n)
    decreases n
  {
    if n > 0 {
      PowerOfPower(r, a, m, n - 1);
      assert m * n == m + m * (n - 1);
      PowerAdd(r, a, m, m * (n - 1));
    }
  }

  lemma SmallPowers<T(!new)>(r: Ring<T>, a: T)
    requires IsRing(r)
    ensures Power(r, a, 1) == a && Power(r, a, 2) == r.mul(a, a) && Power(r, a, 3) == r.mul(a, r.mul(a, a))
  {
    OneIsUnit(r, a);
    assert Power(r, a, 1) == r.mul(a, Power(r, a, 0));
    assert Power(r, a, 2) == r.mul(a, Power(r, a, 1));
  }

  lemma {:induction false} HomPower<S(!new), T(!new)>(r: Ring<S>, s: Ring<T>, h: S -> T, a: S, n: nat)
    requires IsHom(r, s, h)
    ensures h(Power(r, a, n)) == Power(s, h(a), n)
  {
    if n > 0 {
      HomPower(r, s, h, a, n - 1);
      UseHom(r, s, h, a, Power(r, a, n - 1));
    }
  }

  lemma {:induction false} HomOfInt<S(!new), T(!new)>(r: Ring<S>, s: Ring<T>, h: S -> T, n: nat)
    requires IsHom(r, s, h)
    ensures h(OfInt(r, n)) == OfInt(s, n)
  {
    if n > 0 {
      HomOfInt(r, s, h, n - 1);
      UseHom(r, s, h, OfInt(r, n - 1), r.one);
    }
  }

  // ---- integer exponents -------------------------------------------------------------

  ghost predicate Inverses<T>(r: Ring<T>, a: T, b: T) { r.mul(a, b) == r.one }

  /** a to the integer n, when b is the inverse of a. */
  ghost function PowZ<T>(r: Ring<T>, a: T, b: T, n: int): T {
    if n >= 0 then Power(r, a, n) else Power(r, b, -n)
  }

  lemma InversesFlip<T(!new)>(r: Ring<T>, a: T, b: T)
    requires IsRing(r) && Inverses(r, a, b)
    ensures Inverses(r, b, a)
  {
    Use(r, a, b, b);
  }

  lemma InverseUnique<T(!new)>(r: Ring<T>, a: T, b: T, c: T)
    requires IsRing(r) && Inverses(r, a, b) && Inverses(r, a, c)
    ensures b == c
  {
    OneIsUnit(r, b); OneIsUnit(r, c);
    Use(r, b, a, c); Use(r, a, b, b);
  }

  lemma PowZStep<T(!new)>(r: Ring<T>, a: T, b: T, n: int)
    requires IsRing(r) && Inverses(r, a, b)
    ensures PowZ(r, a, b, n + 1) == r.mul(a, PowZ(r, a, b, n))
  {
    if n < 0 {
      var p := Power(r, b, -n - 1);
      Use(r, a, b, p);
      OneIsUnit(r, p);
    }
  }

  lemma {:induction false} PowZAdd<T(!new)>(r: Ring<T>, a: T, b: T, m: int, n: int)
    requires IsRing(r) && Inverses(r, a, b)
    ensures PowZ(r, a, b, m + n) == r.mul(PowZ(r, a, b, m), PowZ(r, a, b, n))
    decreases if m < 0 then -m else m
  {
    var x := PowZ(r, a, b, n);
    if m == 0 {
      OneIsUnit(r, x);
    } else if m > 0 {
      PowZAdd(r, a, b, m - 1, n);
      PowZStep(r, a, b, m - 1 + n); PowZStep(r, a, b, m - 1);
      Use(r, a, PowZ(r, a, b, m - 1), x);
    } else {
      PowZAdd(r, a, b, m + 1, n);
      PowZStep(r, a, b, m + n); PowZStep(r, a, b, m);
      UnitCancel(r, a, b, PowZ(r, a, b, m + n), r.mul(PowZ(r, a, b, m), x));
      Use(r, a, PowZ(r, a, b, m), x);
      UnitCancel(r, a, b, PowZ(r, a, b, m + n), r.mul(PowZ(r, a, b, m), x));
    }
  }

  lemma UnitCancel<T(!new)>(r: Ring<T>, a: T, b: T, x: T, y: T)
    requires IsRing(r) && Inverses(r, a, b)
    ensures r.mul(a, x) == r.mul(a, y) ==> x == y
  {
    Use(r, b, a, x); Use(r, b, a, y); Use(r, a, b, b);
    OneIsUnit(r, x); OneIsUnit(r, y);
  }

  lemma PowZNegate<T(!new)>(r: Ring<T>, a: T, b: T, n: int)
    requires IsRing(r) && Inverses(r, a, b)
    ensures PowZ(r, b, a, n) == PowZ(r, a, b, -n)
    ensures Inverses(r, PowZ(r, a, b, n), PowZ(r, a, b, -n))
  {
    PowZAdd(r, a, b, n, -n);
  }

  lemma {:induction false} PowZPower<T(!new)>(r: Ring<T>, a: T, b: T, m: int, n: nat)
    requires IsRing(r) && Inverses(r, a, b)
    ensures Power(r, PowZ(r, a, b, m), n) == PowZ(r, a, b, m * n)
    decreases n
  {
    if n > 0 {
      PowZPower(r, a, b, m, n - 1);
      assert m * n == m + m * (n - 1);
      PowZAdd(r, a, b, m, m * (n - 1));
    }
  }

  lemma HomPowZ<S(!new), T(!new)>(r: Ring<S>, s: Ring<T>, h: S -> T, a: S, b: S, n: int)
    requires IsHom(r, s, h)
    ensures h(PowZ(r, a, b, n)) == PowZ(s, h(a), h(b), n)
  {
    if n >= 0 { HomPower(r, s, h, a, n); } else { HomPower(r, s, h, b, -n); }
  }

  // ---- the loop ------------------------------------------------------------------------

  /** Square-and-multiply: fp2.exp, the Montgomery exponentiation and modular_pow run this loop. */
  method Exp<T(!new)>(r: Ring<T>, base: T, exponent: nat) returns (pow: T)
    requires IsRing(r)
    ensures pow == Power(r, base, exponent)
  {
    var b, e := base, exponent;
    pow := r.one;
    OneIsUnit(r, Power(r, base, exponent));
    while e > 0
      invariant r.mul(pow, Power(r, b, e)) == Power(r, base, exponent)
    {
      ghost var was := pow;
      HalvedExponent(r, b, e);
      if e % 2 == 1 {
        Use(r, pow, b, Power(r, r.mul(b, b), e / 2));
        pow := r.mul(pow, b);
      }
      e := e / 2;
      b := r.mul(b, b);
    }
    OneIsUnit(r, pow);
  }

  lemma HalvedExponent<T(!new)>(r: Ring<T>, b: T, e: nat)
    requires IsRing(r)
    ensures var p := Power(r, r.mul(b, b), e / 2);
            Power(r, b, e) == if e % 2 == 1 then r.mul(b, p) else p
  {
    SmallPowers(r, b);
    PowerOfPower(r, b, 2, e / 2);
    assert e % 2 == 1 ==> e == 1 + 2 * (e / 2);
  }
}
