/** The Frobenius map of the scripts is the p-th power map of Fp12. */
module TowerFrobenius {
  import opened Arithmetic
  import opened Rings
  import opened Powers
  import opened Extensions
  import opened Tower
  import opened FrobeniusMaps
  import opened PrimeCharacteristic
  import Solver

  // ---- extensions are generated by the base ring and one element -----------------------------------

  lemma Zeros<T(!new)>(s: Ring<T>, a: T)
    requires IsRing(s)
    ensures s.mul(a, s.zero) == s.zero && s.mul(s.zero, a) == s.zero && s.add(a, s.zero) == a && s.add(s.zero, a) == a
    ensures s.sub(a, s.zero) == a && s.sub(s.zero, s.zero) == s.zero
  {
    MulZero(s, a);
    Use(s, a, s.zero, s.zero); Use(s, s.zero, s.zero, s.zero);
    SubUnique(s, a, s.zero, a); SubUnique(s, s.zero, s.zero, s.zero);
  }

  function InQuad<T>(s: Ring<T>, a: T): Quad<T> { Quad(a, s.zero) }
  function QuadRoot<T>(s: Ring<T>): Quad<T> { Quad(s.zero, s.one) }
  function InCubic<T>(s: Ring<T>, a: T): Cubic<T> { Cubic(a, s.zero, s.zero) }
  function CubicRoot<T>(s: Ring<T>): Cubic<T> { Cubic(s.zero, s.one, s.zero) }

  lemma QuadGenerated<T(!new)>(s: Ring<T>, k: T, f: Quad<T>)
    requires IsRing(s)
    ensures var q, j := QuadRing(s, k), QuadRoot(s);
            f == q.add(InQuad(s, f.c0), q.mul(InQuad(s, f.c1), j)) && q.mul(j, j) == InQuad(s, k)
  {
    Zeros(s, f.c0); Zeros(s, f.c1); Zeros(s, k); Zeros(s, s.zero); Zeros(s, s.one);
    OneIsUnit(s, f.c1); OneIsUnit(s, k); OneIsUnit(s, s.one);
  }

  lemma InQuadIsHom<T(!new)>(s: Ring<T>, k: T, h: T -> Quad<T>)
    requires IsRing(s) && forall a: T :: h(a) == InQuad(s, a)
    ensures IsHom(s, QuadRing(s, k), h)
  {
    forall a: T, b: T ensures HomLaws(s, QuadRing(s, k), h, a, b) {
      Zeros(s, a); Zeros(s, b); Zeros(s, k); Zeros(s, s.mul(a, b)); Zeros(s, s.zero);
    }
  }

  lemma CubicGenerated<T(!new)>(s: Ring<T>, k: T, f: Cubic<T>)
    requires IsRing(s)
    ensures var q, j := CubicRing(s, k), CubicRoot(s);
            && f == q.add(q.add(InCubic(s, f.c0), q.mul(InCubic(s, f.c1), j)), q.mul(InCubic(s, f.c2), q.mul(j, j)))
            && q.mul(q.mul(j, j), j) == InCubic(s, k)
  {
    var z := s.zero;
    Zeros(s, f.c0); Zeros(s, f.c1); Zeros(s, f.c2); Zeros(s, k); Zeros(s, z); Zeros(s, s.one);
    OneIsUnit(s, f.c1); OneIsUnit(s, f.c2); OneIsUnit(s, k); OneIsUnit(s, s.one);
    assert CMul(s, k, CubicRoot(s), CubicRoot(s)) == Cubic(z, z, s.one);
  }

  lemma InCubicIsHom<T(!new)>(s: Ring<T>, k: T, h: T -> Cubic<T>)
    requires IsRing(s) && forall a: T :: h(a) == InCubic(s, a)
    ensures IsHom(s, CubicRing(s, k), h)
  {
    forall a: T, b: T ensures HomLaws(s, CubicRing(s, k), h, a, b) {
      Zeros(s, a); Zeros(s, b); Zeros(s, k); Zeros(s, s.mul(a, b)); Zeros(s, s.zero);
    }
  }

  /** Homomorphisms out of a quadratic extension that agree on its generators are equal. */
  lemma QuadHomsAgree<S(!new), T(!new)>(s: Ring<S>, k: S, t: Ring<T>, m: Quad<S> -> T, n: Quad<S> -> T, f: Quad<S>)
    requires IsRing(s) && IsHom(QuadRing(s, k), t, m) && IsHom(QuadRing(s, k), t, n)
    requires m(InQuad(s, f.c0)) == n(InQuad(s, f.c0)) && m(InQuad(s, f.c1)) == n(InQuad(s, f.c1))
    requires m(QuadRoot(s)) == n(QuadRoot(s))
    ensures m(f) == n(f)
  {
    var q, j := QuadRing(s, k), QuadRoot(s);
    QuadGenerated(s, k, f);
    var a, b := InQuad(s, f.c0), InQuad(s, f.c1);
    UseHom(q, t, m, b, j); UseHom(q, t, n, b, j);
    UseHom(q, t, m, a, q.mul(b, j)); UseHom(q, t, n, a, q.mul(b, j));
  }

  lemma CubicHomsAgree<S(!new), T(!new)>(s: Ring<S>, k: S, t: Ring<T>, m: Cubic<S> -> T, n: Cubic<S> -> T, f: Cubic<S>)
    requires IsRing(s) && IsHom(CubicRing(s, k), t, m) && IsHom(CubicRing(s, k), t, n)
    requires forall a: S :: m(InCubic(s, a)) == n(InCubic(s, a))
    requires m(CubicRoot(s)) == n(CubicRoot(s))
    ensures m(f) == n(f)
  {
    var q, j := CubicRing(s, k), CubicRoot(s);
    CubicGenerated(s, k, f);
    var a, b, c := InCubic(s, f.c0), InCubic(s, f.c1), InCubic(s, f.c2);
    UseHom(q, t, m, j, j); UseHom(q, t, n, j, j);
    UseHom(q, t, m, b, j); UseHom(q, t, n, b, j);
    UseHom(q, t, m, c, q.mul(j, j)); UseHom(q, t, n, c, q.mul(j, j));
    UseHom(q, t, m, a, q.mul(b, j)); UseHom(q, t, n, a, q.mul(b, j));
    var ab, cj := q.add(a, q.mul(b, j)), q.mul(c, q.mul(j, j));
    UseHom(q, t, m, ab, cj); UseHom(q, t, n, ab, cj);
  }

  lemma HomsCompose<S(!new), T(!new), U(!new)>(r: Ring<S>, s: Ring<T>, t: Ring<U>, h: S -> T, k: T -> U, m: S -> U)
    requires IsHom(r, s, h) && IsHom(s, t, k) && forall a: S :: m(a) == k(h(a))
    ensures IsHom(r, t, m)
  {
    forall a: S, b: S ensures HomLaws(r, t, m, a, b) {
      UseHom(r, s, h, a, b);
      UseHom(s, t, k, h(a), h(b));
    }
  }

  lemma BaseTimes<S(!new)>(s: Ring<S>, x: S, k: S, a: Cubic<S>)
    requires IsRing(s)
    ensures CMul(s, x, InCubic(s, k), a) == Cubic(s.mul(k, a.c0), s.mul(k, a.c1), s.mul(k, a.c2))
  {
    CMulCommutes(s, x, InCubic(s, k), a);
    BaseFactor(s, x, a, k);
    Use(s, a.c0, k, k); Use(s, a.c1, k, k); Use(s, a.c2, k, k);
  }

  lemma InnerTimes<S(!new)>(s: Ring<S>, k: S, c: S, f: Quad<S>)
    requires IsRing(s)
    ensures QMul(s, k, InQuad(s, c), f) == Quad(s.mul(c, f.c0), s.mul(c, f.c1))
  {
    Zeros(s, f.c0); Zeros(s, f.c1); Zeros(s, k); Zeros(s, s.mul(c, f.c0)); Zeros(s, s.mul(c, f.c1));
  }

  // ---- the p-th power in Fp2 is conjugation -----------------------------------------------------------

  lemma OddPowerOfInvolution<T(!new)>(s: Ring<T>, v: T, m: nat)
    requires IsRing(s) && s.mul(v, v) == s.one && m % 2 == 1
    ensures Power(s, v, m) == v
  {
    SmallPowers(s, v);
    PowerOfPower(s, v, 2, m / 2);
    PowerOfOne(s, m / 2);
    assert m == 1 + 2 * (m / 2);
    PowerAdd(s, v, 1, 2 * (m / 2));
    OneIsUnit(s, v);
  }

  lemma ImaginaryUnit<T(!new)>(r: Ring<T>)
    requires IsRing(r)
    ensures var s, u, n := Fp2(r), QuadRoot(r), r.sub(r.zero, r.one);
            && s.mul(u, u) == InQuad(r, n) && s.mul(InQuad(r, n), InQuad(r, n)) == s.one
                && s.mul(u, InQuad(r, n)) == Quad(r.zero, n)
  {
    var n := r.sub(r.zero, r.one);
    Zeros(r, r.zero); Zeros(r, r.one); Zeros(r, n);
    OneIsUnit(r, r.one); OneIsUnit(r, n);
    OneIsInteger(r);
    MinusOneSquared(); Solver.Apply(r, MINUS_ONE_SQUARED, []);
    Zeros(r, r.mul(n, n));
  }

  lemma ImaginaryUnitToThePrime<T(!new)>(r: Ring<T>, p: nat)
    requires IsRing(r) && p % 4 == 3
    ensures Power(Fp2(r), QuadRoot(r), p) == Quad(r.zero, r.sub(r.zero, r.one))
  {
    var s, u := Fp2(r), QuadRoot(r);
    var v := s.mul(u, u);
    Fp2IsRing(r);
    ImaginaryUnit(r);
    OddPowerToThePrime(s, u, v, p);
  }

  lemma OddPowerToThePrime<T(!new)>(s: Ring<T>, u: T, v: T, p: nat)
    requires IsRing(s) && v == s.mul(u, u) && s.mul(v, v) == s.one && p % 4 == 3
    ensures Power(s, u, p) == s.mul(u, v)
  {
    SmallPowers(s, u);
    PowerOfPower(s, u, 2, p / 2);
    OddPowerOfInvolution(s, v, p / 2);
    assert p == 1 + 2 * (p / 2);
    PowerAdd(s, u, 1, 2 * (p / 2));
  }

  lemma InFp2IsHom<T(!new)>(r: Ring<T>, h: T -> F2<T>)
    requires IsRing(r) && forall a: T :: h(a) == InQuad(r, a)
    ensures IsHom(r, Fp2(r), h)
  {
    forall a: T, b: T ensures HomLaws(r, Fp2(r), h, a, b) {
      Zeros(r, a); Zeros(r, b); Zeros(r, r.mul(a, b)); Zeros(r, r.zero);
    }
  }

  lemma Fp2Generated<T(!new)>(r: Ring<T>, a: F2<T>)
    requires IsRing(r)
    ensures var s := Fp2(r); a == s.add(InQuad(r, a.c0), s.mul(InQuad(r, a.c1), QuadRoot(r)))
    ensures var s := Fp2(r);
                s.add(InQuad(r, a.c0), s.mul(InQuad(r, a.c1), Quad(r.zero, r.sub(r.zero, r.one)))) == Fp2Conjugate(r, a)
  {
    var n := r.sub(r.zero, r.one);
    Zeros(r, a.c0); Zeros(r, a.c1); Zeros(r, r.zero); Zeros(r, r.one); Zeros(r, n);
    OneIsUnit(r, a.c1);
    NegationIsProduct(r, a.c1);
    Zeros(r, r.mul(a.c1, n));
  }

  lemma Fp2Vanishes<T(!new)>(r: Ring<T>, p: nat)
    requires IsRing(r) && Vanishes(r, p)
    ensures Vanishes(Fp2(r), p)
  {
    EmbeddedInteger(r, p);
  }

  /** When p = 3 modulo 4, the p-th power in Fp2 is conjugation. */
  lemma ConjugationIsPower<T(!new)>(r: Ring<T>, p: nat, a: F2<T>)
    requires IsRing(r) && IsPrime(p) && p % 4 == 3 && Vanishes(r, p) && Fixed(r, p)
    ensures Power(Fp2(r), a, p) == Fp2Conjugate(r, a)
  {
    var s, u := Fp2(r), QuadRoot(r);
    var e := (x: T) => InQuad(r, x);
    Fp2IsRing(r);
    Fp2Vanishes(r, p);
    Fp2Generated(r, a);
    InFp2IsHom(r, e);
    HomPower(r, s, e, a.c0, p); HomPower(r, s, e, a.c1, p);
    ImaginaryUnitToThePrime(r, p);
    var b := s.mul(e(a.c1), u);
    SumToThePrime(s, e(a.c0), b, p);
    PowerOfProduct(s, e(a.c1), u, p);
  }

  // ---- the p-th power in Fp12 ----------------------------------------------------------------------------

  function InFp12<T>(r: Ring<T>, a: F2<T>): F12<T> { InQuad(Fp6(r), InCubic(Fp2(r), a)) }

  lemma {:induction false} QuadOfInt<T(!new)>(s: Ring<T>, k: T, n: nat)
    requires IsRing(s)
    ensures OfInt(QuadRing(s, k), n) == InQuad(s, OfInt(s, n))
  {
    if n > 0 { QuadOfInt(s, k, n - 1); Zeros(s, s.zero); }
  }

  lemma {:induction false} CubicOfInt<T(!new)>(s: Ring<T>, k: T, n: nat)
    requires IsRing(s)
    ensures OfInt(CubicRing(s, k), n) == InCubic(s, OfInt(s, n))
  {
    if n > 0 { CubicOfInt(s, k, n - 1); Zeros(s, s.zero); }
  }

  lemma Fp12Vanishes<T(!new)>(r: Ring<T>, p: nat)
    requires IsRing(r) && Vanishes(r, p)
    ensures Vanishes(Fp12(r), p)
  {
    Fp2IsRing(r);
    Fp6IsRing(r);
    Fp2Vanishes(r, p);
    CubicOfInt(Fp2(r), Xi(r), p);
    QuadOfInt(Fp6(r), Gamma(r), p);
  }

  lemma InFp12IsHom<T(!new)>(r: Ring<T>, h: F2<T> -> F12<T>)
    requires IsRing(r) && forall a: F2<T> :: h(a) == InFp12(r, a)
    ensures IsHom(Fp2(r), Fp12(r), h)
  {
    Fp2IsRing(r);
    Fp6IsRing(r);
    var e := (a: F2<T>) => InCubic(Fp2(r), a);
    var d := (a: F6<T>) => InQuad(Fp6(r), a);
    InCubicIsHom(Fp2(r), Xi(r), e);
    InQuadIsHom(Fp6(r), Gamma(r), d);
    HomsCompose(Fp2(r), Fp6(r), Fp12(r), e, d, h);
  }

  // w = QuadRoot(Fp6): w^2 = v and w^6 = 9 + u
  lemma RootOfFp12<T(!new)>(r: Ring<T>)
    requires IsRing(r)
    ensures var s, w := Fp12(r), QuadRoot(Fp6(r));
            && s.mul(w, w) == InQuad(Fp6(r), CubicRoot(Fp2(r)))
            && s.mul(s.mul(s.mul(w, w), s.mul(w, w)), s.mul(w, w)) == InFp12(r, Xi(r))
  {
    var six, v := Fp6(r), CubicRoot(Fp2(r));
    Fp2IsRing(r);
    Fp6IsRing(r);
    QuadGenerated(six, Gamma(r), QuadRoot(six));
    CubicGenerated(Fp2(r), Xi(r), v);
    var d := (a: F6<T>) => InQuad(six, a);
    InQuadIsHom(six, Gamma(r), d);
    UseHom(six, Fp12(r), d, v, v);
    UseHom(six, Fp12(r), d, six.mul(v, v), v);
  }

  lemma RootToThePrime<T(!new)>(s: Ring<T>, w: T, x: T, p: nat)
    requires IsRing(s) && s.mul(s.mul(s.mul(w, w), s.mul(w, w)), s.mul(w, w)) == x && p % 6 == 1
    ensures Power(s, w, p) == s.mul(w, Power(s, x, p / 6))
  {
    var e := s.mul(w, w);
    SmallPowers(s, w); SmallPowers(s, e);
    PowerOfPower(s, w, 2, 3);
    PowerOfPower(s, w, 6, p / 6);
    Use(s, e, e, e);
    assert p == 1 + 6 * (p / 6);
    PowerAdd(s, w, 1, 6 * (p / 6));
  }

  lemma ZeroTimes<T(!new)>(r: Ring<T>, g: F2<T>)
    requires IsRing(r)
    ensures Fp2Mul(r, Fp2Conjugate(r, Fp2(r).zero), g) == Fp2(r).zero
    ensures Fp2Mul(r, Fp2Conjugate(r, Fp2(r).one), g) == g
  {
    Zeros(r, g.c0); Zeros(r, g.c1); Zeros(r, r.zero);
    OneIsUnit(r, g.c0); OneIsUnit(r, g.c1);
  }

  lemma FrobeniusOfBase<T(!new)>(r: Ring<T>, g: Gammas<T>, a: F2<T>)
    requires IsRing(r)
    ensures Frobenius(r, g, InFp12(r, a)) == InFp12(r, Fp2Conjugate(r, a))
    ensures Frobenius(r, g, QuadRoot(Fp6(r))) == Quad(Fp6(r).zero, InCubic(Fp2(r), g.g11))
  {
    Zeros(r, r.zero);
    ZeroTimes(r, g.g11); ZeroTimes(r, g.g12); ZeroTimes(r, g.g13); ZeroTimes(r, g.g14); ZeroTimes(r, g.g15);
  }

  lemma RootTimesBase<T(!new)>(r: Ring<T>, a: F2<T>)
    requires IsRing(r)
    ensures Fp12(r).mul(QuadRoot(Fp6(r)), InFp12(r, a)) == Quad(Fp6(r).zero, InCubic(Fp2(r), a))
  {
    var s, c := Fp6(r), InCubic(Fp2(r), a);
    Fp6IsRing(r);
    Zeros(s, c); Zeros(s, s.zero); Zeros(s, s.one); Zeros(s, Gamma(r));
    OneIsUnit(s, c);
  }

  /** What ties the constants to the prime: the base field has p elements and g11 is (9 + u) to the (p - 1) / 6. */
  ghost predicate FrobeniusSetting<T(!new)>(r: Ring<T>, g: Gammas<T>, p: nat) {
    && IsRing(r) && GoodGammas(r, g)
    && IsPrime(p) && p % 12 == 7 && Vanishes(r, p) && Fixed(r, p)
    && Power(Fp2(r), Xi(r), p / 6) == g.g11
  }

  // Both maps agree on the elements of Fp2.
  lemma AgreeOnBase<T(!new)>(r: Ring<T>, g: Gammas<T>, p: nat, a: F2<T>)
    requires FrobeniusSetting(r, g, p)
    ensures Frobenius(r, g, InFp12(r, a)) == Power(Fp12(r), InFp12(r, a), p)
  {
    var e := (x: F2<T>) => InFp12(r, x);
    InFp12IsHom(r, e);
    HomPower(Fp2(r), Fp12(r), e, a, p);
    ConjugationIsPower(r, p, a);
    FrobeniusOfBase(r, g, a);
  }

  // Both maps agree on w.
  lemma AgreeOnRoot<T(!new)>(r: Ring<T>, g: Gammas<T>, p: nat)
    requires FrobeniusSetting(r, g, p)
    ensures Frobenius(r, g, QuadRoot(Fp6(r))) == Power(Fp12(r), QuadRoot(Fp6(r)), p)
  {
    var e := (x: F2<T>) => InFp12(r, x);
    InFp12IsHom(r, e);
    Fp12IsRing(r);
    RootOfFp12(r);
    RootToThePrime(Fp12(r), QuadRoot(Fp6(r)), e(Xi(r)), p);
    HomPower(Fp2(r), Fp12(r), e, Xi(r), p / 6);
    RootTimesBase(r, g.g11);
    FrobeniusOfBase(r, g, Xi(r));
  }

  // Two homomorphisms of Fp12 that agree on Fp2 and on w are equal.
  lemma Fp12HomsAgree<T(!new)>(r: Ring<T>, m: F12<T> -> F12<T>, n: F12<T> -> F12<T>, f: F12<T>)
    requires IsRing(r) && IsHom(Fp12(r), Fp12(r), m) && IsHom(Fp12(r), Fp12(r), n)
    requires forall a: F2<T> :: m(InFp12(r, a)) == n(InFp12(r, a))
    requires m(QuadRoot(Fp6(r))) == n(QuadRoot(Fp6(r)))
    ensures m(f) == n(f)
  {
    var s, six := Fp12(r), Fp6(r);
    var w := QuadRoot(six);
    var d := (c: F6<T>) => InQuad(six, c);
    var m6, n6 := (c: F6<T>) => m(d(c)), (c: F6<T>) => n(d(c));
    Fp2IsRing(r);
    Fp6IsRing(r);
    InQuadIsHom(six, Gamma(r), d);
    HomsCompose(six, s, s, d, m, m6);
    HomsCompose(six, s, s, d, n, n6);
    RootOfFp12(r);
    UseHom(s, s, m, w, w); UseHom(s, s, n, w, w);
    forall a: F2<T> ensures m6(InCubic(Fp2(r), a)) == n6(InCubic(Fp2(r), a)) {
      assert d(InCubic(Fp2(r), a)) == InFp12(r, a);
    }
    CubicHomsAgree(Fp2(r), Xi(r), s, m6, n6, f.c0);
    CubicHomsAgree(Fp2(r), Xi(r), s, m6, n6, f.c1);
    QuadHomsAgree(six, Gamma(r), s, m, n, f);
  }

  /** frobenius(f) = f^p for every f. */
  lemma FrobeniusIsPower<T(!new)>(r: Ring<T>, g: Gammas<T>, p: nat, f: F12<T>)
    requires FrobeniusSetting(r, g, p)
    ensures Frobenius(r, g, f) == Power(Fp12(r), f, p)
  {
    var s := Fp12(r);
    var m, n := (a: F12<T>) => Frobenius(r, g, a), PowerMap(s, p);
    Fp12IsRing(r);
    Fp12Vanishes(r, p);
    FrobeniusIsHom(r, g);
    PowerMapIsHom(s, p);
    forall a: F2<T> ensures m(InFp12(r, a)) == n(InFp12(r, a)) { AgreeOnBase(r, g, p, a); }
    AgreeOnRoot(r, g, p);
    Fp12HomsAgree(r, m, n, f);
  }
}
