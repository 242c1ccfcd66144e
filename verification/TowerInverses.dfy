/** The inverses of the tower, and when their norms do not vanish. */
module TowerInverses {
  import opened Arithmetic
  import opened Rings
  import opened Solver
  import opened Powers
  import opened FieldLaws
  import opened BaseField
  import opened FieldInversion
  import opened ResidueIntegers
  import opened Extensions
  import opened Tower
  import opened TowerFrobenius
  import opened PrimeCharacteristic
  import opened FrobeniusMaps

  // ---- the base field ---------------------------------------------------------------------------

  lemma MontIsField()
    requires IsPrime(P)
    ensures IsField(Mont())
  {
    MontIsRing();
    forall a: Fe | a != Mont().zero ensures HasInverse(Mont(), a) { PrimeInvertible(a); }
  }

  // ---- Fp2 -----------------------------------------------------------------------------------------

  /** The norm whose inverse fp2.inv takes. */
  function Fp2Norm<T>(r: Ring<T>, a: F2<T>): T { r.add(r.mul(a.c0, a.c0), r.mul(a.c1, a.c1)) }

  ghost const NORM_REAL :=
    Equation(Sub(Mul(V(0), Mul(V(0), V(2))), Mul(V(1), Sub(C(0), Mul(V(1), V(2))))), Mul(Add(Mul(V(0), V(0)),
    Mul(V(1), V(1))), V(2)))

  lemma NormReal() ensures Valid(NORM_REAL) {}

  ghost const NORM_IMAGINARY :=
    Equation(Add(Mul(V(0), Sub(C(0), Mul(V(1), V(2)))), Mul(V(1), Mul(V(0), V(2)))), C(0))

  lemma NormImaginary() ensures Valid(NORM_IMAGINARY) {}

  // Algorithm 8, given the inverse t of the norm
  function Fp2InverseFrom<T>(r: Ring<T>, a: F2<T>, t: T): F2<T> { Quad(r.mul(a.c0, t), r.sub(r.zero, r.mul(a.c1, t))) }

  lemma Fp2InverseFromIsInverse<T(!new)>(r: Ring<T>, a: F2<T>, t: T)
    requires IsRing(r) && r.mul(Fp2Norm(r, a), t) == r.one
    ensures Fp2(r).mul(a, Fp2InverseFrom(r, a, t)) == Fp2(r).one
  {
    NormReal(); Apply(r, NORM_REAL, [a.c0, a.c1, t]);
    NormImaginary(); Apply(r, NORM_IMAGINARY, [a.c0, a.c1, t]);
  }

  /** fp2.inv returns the inverse whenever the norm is invertible. */
  method Fp2Inv(a: F2<Fe>) returns (inv: F2<Fe>)
    requires Invertible(Fp2Norm(Mont(), a))
    ensures Fp2(Mont()).mul(a, inv) == Fp2(Mont()).one
  {
    var t0 := MontMul(a.c0, a.c0);
    var t1 := MontMul(a.c1, a.c1);
    t0 := MontAdd(t0, t1);
    t1 := MontgomeryModularInverse(t0);
    inv := Quad(MontMul(a.c0, t1), MontSub(0, MontMul(a.c1, t1)));
    MontIsRing();
    Fp2InverseFromIsInverse(Mont(), a, t1);
  }

  // ---- Fp6 -----------------------------------------------------------------------------------------

  lemma Fp6InverseFromIsInverse<T(!new)>(r: Ring<T>, a: F6<T>, t: F2<T>)
    requires IsRing(r) && Fp2(r).mul(Fp6Norm(r, a), t) == Fp2(r).one
    ensures var s, c := Fp2(r), Fp6Adjoint(r, a);
            Fp6(r).mul(a, Cubic(s.mul(c.c0, t), s.mul(c.c1, t), s.mul(c.c2, t))) == Fp6(r).one
  {
    var s, six, c := Fp2(r), Fp6(r), Fp6Adjoint(r, a);
    var e := (x: F2<T>) => InCubic(s, x);
    Fp2IsRing(r);
    Fp6IsRing(r);
    AdjointGivesNorm(r, a);
    InCubicIsHom(s, Xi(r), e);
    UseHom(s, six, e, Fp6Norm(r, a), t);
    Use(six, a, c, e(t));
    BaseFactor(s, Xi(r), c, t);
  }

  /** fp6.inv returns the inverse whenever the norm is invertible. */
  method Fp6Inv(a: F6<Fe>) returns (inv: F6<Fe>)
    requires Invertible(Fp2Norm(Mont(), Fp6Norm(Mont(), a)))
    ensures Fp6(Mont()).mul(a, inv) == Fp6(Mont()).one
  {
    var r, s := Mont(), Fp2(Mont());
    var t0, t1, t2 := Power(s, a.c0, 2), Power(s, a.c1, 2), Power(s, a.c2, 2);
    var t3, t4, t5 := s.mul(a.c0, a.c1), s.mul(a.c0, a.c2), s.mul(a.c2, a.c1);
    var c0, c1, c2 := s.sub(t0, MulByXi(r, t5)), s.sub(MulByXi(r, t2), t3), s.sub(t1, t4);
    var t6 := s.mul(a.c0, c0);
    t6 := s.add(t6, s.mul(MulByXi(r, a.c2), c1));
    t6 := s.add(t6, s.mul(MulByXi(r, a.c1), c2));
    var t := Fp2Inv(t6);
    inv := Cubic(s.mul(c0, t), s.mul(c1, t), s.mul(c2, t));
    MontIsRing();
    Fp6InverseFromIsInverse(r, a, t);
  }

  // ---- Fp12 ----------------------------------------------------------------------------------------

  ghost const RELATIVE_NORM :=
    Equation(Add(Mul(V(0), Mul(V(0), V(2))), Mul(V(3), Mul(V(1), Mul(Mul(Sub(C(0), C(1)), V(1)), V(2))))),
    Mul(Sub(Mul(V(0), V(0)), Mul(V(3), Mul(V(1), V(1)))), V(2)))

  lemma RelativeNorm() ensures Valid(RELATIVE_NORM) {}

  ghost const RELATIVE_TRACE :=
    Equation(Add(Mul(V(0), Mul(Mul(Sub(C(0), C(1)), V(1)), V(2))), Mul(V(1), Mul(V(0), V(2)))), C(0))

  lemma RelativeTrace() ensures Valid(RELATIVE_TRACE) {}

  /** The norm to Fp6 whose inverse fp12.inv takes. */
  function Fp12Norm<T>(r: Ring<T>, a: F12<T>): F6<T> {
    Fp6(r).sub(Fp6Square(r, a.c0), MulByGamma(r, Fp6Square(r, a.c1)))
  }

  /** The norm down to Fp. */
  function Norm<T>(r: Ring<T>, a: F12<T>): T { Fp2Norm(r, Fp6Norm(r, Fp12Norm(r, a))) }

  lemma RelativeInverse<S(!new)>(s: Ring<S>, k: S, c0: S, c1: S, t: S)
    requires IsRing(s) && s.mul(s.sub(s.mul(c0, c0), s.mul(k, s.mul(c1, c1))), t) == s.one
    ensures QMul(s, k, Quad(c0, c1), Quad(s.mul(c0, t), s.mul(s.mul(s.sub(s.zero, s.one), c1), t))) ==
                Quad(s.one, s.zero)
  {
    OneIsInteger(s);
    RelativeNorm(); Apply(s, RELATIVE_NORM, [c0, c1, t, k]);
    RelativeTrace(); Apply(s, RELATIVE_TRACE, [c0, c1, t]);
  }

  lemma Fp12InverseFromIsInverse<T(!new)>(r: Ring<T>, a: F12<T>, t: F6<T>)
    requires IsRing(r) && Fp6(r).mul(Fp12Norm(r, a), t) == Fp6(r).one
    ensures var s := Fp6(r); var minusOne := s.sub(s.zero, s.one);
            Fp12(r).mul(a, Quad(Fp6Mul(r, a.c0, t), Fp6Mul(r, Fp6Mul(r, minusOne, a.c1), t))) == Fp12(r).one
  {
    var s := Fp6(r);
    var minusOne := s.sub(s.zero, s.one);
    Fp6IsRing(r);
    Fp6MulIsProduct(r, a.c0, t); Fp6MulIsProduct(r, minusOne, a.c1); Fp6MulIsProduct(r, s.mul(minusOne, a.c1), t);
    Fp6SquareIsSquare(r, a.c0); Fp6SquareIsSquare(r, a.c1);
    MulByGammaIsProduct(r, s.mul(a.c1, a.c1));
    RelativeInverse(s, Gamma(r), a.c0, a.c1, t);
  }

  /** fp12.inv returns the inverse whenever the norm is invertible. */
  method Fp12Inv(a: F12<Fe>) returns (inv: F12<Fe>)
    requires Invertible(Norm(Mont(), a))
    ensures Fp12(Mont()).mul(a, inv) == Fp12(Mont()).one
  {
    var r, s := Mont(), Fp6(Mont());
    var t0, t1 := Fp6Square(r, a.c0), Fp6Square(r, a.c1);
    var t2 := MulByGamma(r, t1);
    t0 := s.sub(t0, t2);
    t1 := Fp6Inv(t0);
    var c0 := Fp6Mul(r, a.c0, t1);
    var minusOne := s.sub(s.zero, s.one);
    var c1 := Fp6Mul(r, minusOne, a.c1);
    c1 := Fp6Mul(r, c1, t1);
    inv := Quad(c0, c1);
    MontIsRing();
    Fp12InverseFromIsInverse(r, a, t1);
  }

  // ---- nonvanishing norms ----------------------------------------------------------------------------

  // No square is -1 when p = 3 modulo 4.
  lemma MinusOneIsNoSquare<T(!new)>(r: Ring<T>, p: nat, z: T)
    requires IsField(r) && p % 4 == 3 && Fixed(r, p) && r.add(r.one, r.one) != r.zero
    ensures r.add(r.mul(z, z), r.one) != r.zero
  {
    var n := r.sub(r.zero, r.one);
    if r.add(r.mul(z, z), r.one) == r.zero {
      SubUnique(r, r.zero, r.one, r.mul(z, z));
      OneIsInteger(r);
      MinusOneSquared(); Apply(r, MINUS_ONE_SQUARED, []);
      OddPowerToThePrime(r, z, n, p);
      NegationIsProduct(r, z);
      NegationIsItself(r, z);
      MulZero(r, z);
      Use(r, r.zero, r.one, r.one); Use(r, r.one, r.zero, r.zero);
    }
  }

  lemma NegationIsItself<T(!new)>(r: Ring<T>, z: T)
    requires IsField(r) && r.sub(r.zero, z) == z && r.add(r.one, r.one) != r.zero
    ensures z == r.zero
  {
    Use(r, r.zero, z, z);
    OneIsUnit(r, z);
    Use(r, z, r.one, r.one); Use(r, z, r.add(r.one, r.one), z);
    NoZeroDivisors(r, z, r.add(r.one, r.one));
  }

  /** For p = 3 modulo 4 only zero has norm zero in Fp2. */
  lemma Fp2NormVanishesAtZero<T(!new)>(r: Ring<T>, p: nat, a: F2<T>)
    requires IsField(r) && p % 4 == 3 && Fixed(r, p) && r.add(r.one, r.one) != r.zero
    ensures Fp2Norm(r, a) == r.zero <==> a == Fp2(r).zero
  {
    Zeros(r, r.zero);
    if a.c1 == r.zero {
      Zeros(r, r.mul(a.c0, a.c0));
      NonzeroProduct(r, a.c0, a.c0);
    } else {
      var i := Inv(r, a.c1);
      var z := r.mul(a.c0, i);
      InvWorks(r, a.c1);
      MinusOneIsNoSquare(r, p, z);
      ScaledNorm(r, a, i);
      Zeros(r, r.mul(i, i));
    }
  }

  ghost const SCALED_NORM :=
    Equation(Mul(Add(Mul(V(0), V(0)), Mul(V(1), V(1))), Mul(V(2), V(2))), Add(Mul(Mul(V(0), V(2)), Mul(V(0), V(2))),
    Mul(Mul(V(1), V(2)), Mul(V(1), V(2)))))

  lemma ScaledNormValid() ensures Valid(SCALED_NORM) {}

  lemma ScaledNorm<T(!new)>(r: Ring<T>, a: F2<T>, i: T)
    requires IsRing(r) && r.mul(a.c1, i) == r.one
    ensures r.mul(Fp2Norm(r, a), r.mul(i, i)) == r.add(r.mul(r.mul(a.c0, i), r.mul(a.c0, i)), r.one)
  {
    ScaledNormValid(); Apply(r, SCALED_NORM, [a.c0, a.c1, i]);
    OneIsUnit(r, r.one);
  }

  /** Fp2 is a field when p is prime; so fp2.inv terminates on every nonzero element. */
  lemma Fp2IsField()
    requires IsPrime(P)
    ensures IsField(Fp2(Mont()))
    ensures forall a: F2<Fe> {:trigger Fp2Norm(Mont(), a)} :: a != Fp2(Mont()).zero ==> Invertible(Fp2Norm(Mont(), a))
  {
    var r := Mont();
    MontIsField();
    EveryResidueIsFixed(P);
    Fp2IsRing(r);
    MontSumValues(MONTGOMERY_ONE, MONTGOMERY_ONE);
    forall a: F2<Fe> | a != Fp2(r).zero ensures HasInverse(Fp2(r), a) && Invertible(Fp2Norm(r, a)) {
      Fp2NormVanishesAtZero(r, P, a);
      var n := Fp2Norm(r, a);
      PrimeInvertible(n);
      InvWorks(r, n);
      Fp2InverseFromIsInverse(r, a, Inv(r, n));
      assert Inverses(Fp2(r), a, Fp2InverseFrom(r, a, Inv(r, n)));
    }
  }
}
