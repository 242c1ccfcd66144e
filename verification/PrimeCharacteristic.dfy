/** Raising to the p-th power is additive in commutative rings where p is a prime number equal to zero. */
module PrimeCharacteristic {
  import opened Arithmetic
  import opened Rings
  import opened Powers

  // ---- binomial coefficients -----------------------------------------------------------------

  ghost function Choose(n: nat, k: nat): nat {
    if k == 0 then 1 else if n == 0 then 0 else Choose(n - 1, k - 1) + Choose(n - 1, k)
  }

  lemma {:induction false} ChooseTooMany(n: nat, k: nat)
    requires k > n
    ensures Choose(n, k) == 0
  {
    if n > 0 { ChooseTooMany(n - 1, k - 1); ChooseTooMany(n - 1, k); }
  }

  lemma {:induction false} ChooseAll(n: nat)
    ensures Choose(n, n) == 1
  {
    if n > 0 { ChooseAll(n - 1); ChooseTooMany(n - 1, n); }
  }

  lemma {:induction false} Absorption(n: nat, k: nat)
    requires 0 < k
    ensures n > 0 ==> k * Choose(n, k) == n * Choose(n - 1, k - 1)
    decreases n
  {
    if n > 1 {
      Absorption(n - 1, k);
      if k == 1 {
        assert Choose(n, 1) == Choose(n - 1, 0) + Choose(n - 1, 1);
      } else {
        Absorption(n - 1, k - 1);
        AbsorptionStep(n, k, Choose(n - 1, k - 1), Choose(n - 1, k), Choose(n - 2, k - 2), Choose(n - 2, k - 1));
      }
    } else if n == 1 && k > 1 {
      ChooseTooMany(1, k); ChooseTooMany(0, k - 1);
    }
  }

  lemma AbsorptionStep(n: int, k: int, a: int, b: int, c: int, d: int)
    requires (k - 1) * a == (n - 1) * c && k * b == (n - 1) * d && a == c + d
    ensures k * (a + b) == n * a
  {
    assert (n - 1) * a == (n - 1) * c + (n - 1) * d;
  }

  /** A prime divides its inner binomial coefficients. */
  lemma PrimeDividesChoose(p: int, k: nat) returns (q: int)
    requires IsPrime(p) && 0 < k < p
    ensures Choose(p, k) == p * q
  {
    PrimeCoprime(k, p);
    Absorption(p, k);
    var x, y :| Combination(k, p, x, y) == 1;
    q := x * Choose(p - 1, k - 1) + y * Choose(p, k);
    CancelCoprime(k, p, x, y, Choose(p, k), Choose(p - 1, k - 1));
  }

  lemma CancelCoprime(k: int, p: int, x: int, y: int, c: int, d: int)
    requires Combination(k, p, x, y) == 1 && k * c == p * d
    ensures c == p * (x * d + y * c)
  {
    assert x * (k * c) == x * (p * d);
    assert p * (x * d + y * c) == x * (p * d) + y * p * c;
    assert (x * k + y * p) * c == x * (k * c) + y * p * c;
  }

  // ---- the binomial theorem --------------------------------------------------------------------

  // The first j terms of the expansion of (x + y)^n
  ghost function Partial<T>(r: Ring<T>, x: T, y: T, n: nat, j: nat): T
    requires j <= n + 1
    decreases j
  {
    if j == 0 then r.zero else r.add(Partial(r, x, y, n, j - 1), BinomialTerm(r, x, y, n, j - 1))
  }

  ghost function BinomialTerm<T>(r: Ring<T>, x: T, y: T, n: nat, k: nat): T
    requires k <= n
  {
    r.mul(OfInt(r, Choose(n, k)), r.mul(Power(r, x, k), Power(r, y, n - k)))
  }

  // x times the term k - 1 and y times the term k of (x + y)^n give the term k of (x + y)^(n + 1).
  lemma Pascal<T(!new)>(r: Ring<T>, x: T, y: T, n: nat, k: nat)
    requires IsRing(r) && 0 < k <= n
    ensures r.add(r.mul(x, BinomialTerm(r, x, y, n, k - 1)), r.mul(y, BinomialTerm(r, x, y, n, k))) ==
            BinomialTerm(r, x, y, n + 1, k)
  {
    var a, b := OfInt(r, Choose(n, k - 1)), OfInt(r, Choose(n, k));
    var m := r.mul(Power(r, x, k), Power(r, y, n + 1 - k));
    OfIntAdd(r, Choose(n, k - 1), Choose(n, k));
    TimesX(r, x, y, a, k - 1, n - (k - 1));
    TimesY(r, x, y, b, k, n - k);
    Use(r, m, a, b); Use(r, m, a, a); Use(r, m, b, b); Use(r, m, r.add(a, b), a);
  }

  lemma TimesX<T(!new)>(r: Ring<T>, x: T, y: T, c: T, i: nat, j: nat)
    requires IsRing(r)
    ensures r.mul(x, r.mul(c, r.mul(Power(r, x, i), Power(r, y, j)))) ==
                r.mul(c, r.mul(Power(r, x, i + 1), Power(r, y, j)))
  {
    var p, q := Power(r, x, i), Power(r, y, j);
    Use(r, x, c, r.mul(p, q)); Use(r, c, x, r.mul(p, q)); Use(r, x, p, q);
  }

  lemma TimesY<T(!new)>(r: Ring<T>, x: T, y: T, c: T, i: nat, j: nat)
    requires IsRing(r)
    ensures r.mul(y, r.mul(c, r.mul(Power(r, x, i), Power(r, y, j)))) ==
                r.mul(c, r.mul(Power(r, x, i), Power(r, y, j + 1)))
  {
    var p, q := Power(r, x, i), Power(r, y, j);
    Use(r, y, c, r.mul(p, q)); Use(r, c, y, r.mul(p, q)); Use(r, y, p, q); Use(r, p, y, q);
  }

  // (x + y) times the first j terms, split at the last of them
  lemma {:induction false} PartialStep<T(!new)>(r: Ring<T>, x: T, y: T, n: nat, j: nat)
    requires IsRing(r) && 0 < j <= n + 1
    ensures r.mul(r.add(x, y), Partial(r, x, y, n, j)) ==
            r.add(Partial(r, x, y, n + 1, j), r.mul(x, BinomialTerm(r, x, y, n, j - 1)))
    decreases j
  {
    var s, t := r.add(x, y), BinomialTerm(r, x, y, n, j - 1);
    var p := Partial(r, x, y, n, j - 1);
    Use(r, s, p, t);
    Use(r, t, x, y); Use(r, t, s, s); Use(r, x, t, t); Use(r, y, t, t);
    if j == 1 {
      MulZero(r, s);
      FirstTerm(r, x, y, n);
      Use(r, r.zero, r.mul(s, t), r.zero); Use(r, r.mul(s, t), r.zero, r.zero);
      Use(r, r.mul(x, t), r.mul(y, t), r.zero);
      Use(r, r.zero, r.mul(y, t), r.zero); Use(r, r.mul(y, t), r.zero, r.zero);
    } else {
      PartialStep(r, x, y, n, j - 1);
      Pascal(r, x, y, n, j - 1);
      var before := BinomialTerm(r, x, y, n, j - 2);
      Regrouped(r, Partial(r, x, y, n + 1, j - 1), r.mul(x, before), r.mul(x, t), r.mul(y, t));
    }
  }

  lemma Regrouped<T(!new)>(r: Ring<T>, p: T, a: T, b: T, c: T)
    requires IsRing(r)
    ensures r.add(r.add(p, a), r.add(b, c)) == r.add(r.add(p, r.add(a, c)), b)
  {
    Use(r, b, c, c); Use(r, r.add(p, a), c, b); Use(r, p, a, c);
  }

  lemma FirstTerm<T(!new)>(r: Ring<T>, x: T, y: T, n: nat)
    requires IsRing(r)
    ensures r.mul(y, BinomialTerm(r, x, y, n, 0)) == BinomialTerm(r, x, y, n + 1, 0)
  {
    TimesY(r, x, y, OfInt(r, 1), 0, n);
  }

  lemma OneTimes<T(!new)>(r: Ring<T>, a: T)
    requires IsRing(r)
    ensures r.mul(OfInt(r, 1), a) == a
  {
    Use(r, r.zero, r.one, r.one); Use(r, r.one, r.zero, r.zero);
    assert OfInt(r, 1) == r.add(OfInt(r, 0), r.one) == r.one;
    OneIsUnit(r, a);
  }

  lemma LastTerm<T(!new)>(r: Ring<T>, x: T, y: T, n: nat)
    requires IsRing(r)
    ensures BinomialTerm(r, x, y, n, n) == Power(r, x, n) && BinomialTerm(r, x, y, n, 0) == Power(r, y, n)
  {
    ChooseAll(n);
    OneIsUnit(r, Power(r, x, n)); OneIsUnit(r, Power(r, y, n));
    OneTimes(r, Power(r, x, n)); OneTimes(r, Power(r, y, n));
  }

  lemma {:induction false} BinomialTheorem<T(!new)>(r: Ring<T>, x: T, y: T, n: nat)
    requires IsRing(r)
    ensures Power(r, r.add(x, y), n) == Partial(r, x, y, n, n + 1)
  {
    if n == 0 {
      LastTerm(r, x, y, 0);
      assert Partial(r, x, y, 0, 0) == r.zero;
      Use(r, r.zero, r.one, r.one); Use(r, r.one, r.zero, r.zero);
    } else {
      BinomialTheorem(r, x, y, n - 1);
      PartialStep(r, x, y, n - 1, n);
      LastTerm(r, x, y, n - 1);
      LastTerm(r, x, y, n);
    }
  }

  // ---- the p-th power ----------------------------------------------------------------------------

  /** The characteristic of the ring divides p. */
  ghost predicate Vanishes<T>(r: Ring<T>, p: int) { OfInt(r, p) == r.zero }

  /** Every element of the base ring is its own p-th power. */
  ghost predicate Fixed<T(!new)>(r: Ring<T>, p: nat) { forall a: T :: Power(r, a, p) == a }

  lemma {:induction false} InnerTermsVanish<T(!new)>(r: Ring<T>, x: T, y: T, p: nat, j: nat)
    requires IsRing(r) && IsPrime(p) && Vanishes(r, p) && 0 < j <= p
    ensures Partial(r, x, y, p, j) == Power(r, y, p)
    decreases j
  {
    var t := BinomialTerm(r, x, y, p, j - 1);
    if j == 1 {
      LastTerm(r, x, y, p);
      assert Partial(r, x, y, p, 0) == r.zero;
      Use(r, r.zero, t, t); Use(r, t, r.zero, r.zero);
    } else {
      InnerTermsVanish(r, x, y, p, j - 1);
      var q := PrimeDividesChoose(p, j - 1);
      OfIntMul(r, p, q);
      MulZero(r, OfInt(r, q));
      MulZero(r, r.mul(Power(r, x, j - 1), Power(r, y, p - (j - 1))));
      Use(r, Power(r, y, p), r.zero, r.zero);
    }
  }

  /** (x + y)^p = x^p + y^p. */
  lemma SumToThePrime<T(!new)>(r: Ring<T>, x: T, y: T, p: nat)
    requires IsRing(r) && IsPrime(p) && Vanishes(r, p)
    ensures Power(r, r.add(x, y), p) == r.add(Power(r, x, p), Power(r, y, p))
  {
    BinomialTheorem(r, x, y, p);
    InnerTermsVanish(r, x, y, p, p);
    LastTerm(r, x, y, p);
    Use(r, Power(r, x, p), Power(r, y, p), r.zero);
  }

  ghost function PowerMap<T>(r: Ring<T>, p: nat): T -> T { (a: T) => Power(r, a, p) }

  /** Raising to the p-th power is a homomorphism. */
  lemma PowerMapIsHom<T(!new)>(r: Ring<T>, p: nat)
    requires IsRing(r) && IsPrime(p) && Vanishes(r, p)
    ensures IsHom(r, r, PowerMap(r, p))
  {
    var h := PowerMap(r, p);
    PowerOfOne(r, p);
    assert Power(r, r.zero, p) == r.zero by { MulZero(r, Power(r, r.zero, p - 1)); }
    forall a: T, b: T ensures HomLaws(r, r, h, a, b) {
      SumToThePrime(r, a, b, p);
      PowerOfProduct(r, a, b, p);
      var d := r.sub(a, b);
      SumToThePrime(r, d, b, p);
      Use(r, a, b, b);
      SubUnique(r, h(a), h(b), h(d));
    }
  }

  /** Fermat: every integer is its own p-th power in the ring. */
  lemma {:induction false} Fermat<T(!new)>(r: Ring<T>, p: nat, n: nat)
    requires IsRing(r) && IsPrime(p) && Vanishes(r, p)
    ensures Power(r, OfInt(r, n), p) == OfInt(r, n)
  {
    PowerMapIsHom(r, p);
    var h := PowerMap(r, p);
    if n == 0 {
      assert h(r.zero) == r.zero;
    } else {
      Fermat(r, p, n - 1);
      SumToThePrime(r, OfInt(r, n - 1), r.one, p);
      PowerOfOne(r, p);
    }
  }
}
