/** Final exponentiation of the pairing: the easy part, the cyclotomic addition chain and the hard part. */
module CyclotomicExponentiation {
  import opened Arithmetic
  import opened BnParameter
  import opened Rings
  import opened Powers

  /** The operations that the scripts import from fp12.py and frobenius.py. */
  datatype Ops<!S> = Ops(fp12: Ring<S>, conjugate: S -> S, cyclotomicSquare: S -> S,
                         frobenius: S -> S, frobeniusSquare: S -> S, frobeniusCube: S -> S)

  /** f^(p^4 - p^2 + 1) = 1, written without division. */
  ghost predicate Cyclotomic<S>(o: Ops<S>, f: S) {
    o.fp12.mul(o.frobeniusSquare(o.frobeniusSquare(f)), f) == o.frobeniusSquare(f)
  }

  ghost predicate Compositions<S>(o: Ops<S>, f: S) {
    && o.frobenius(o.frobenius(f)) == o.frobeniusSquare(f)
    && o.frobenius(o.frobeniusSquare(f)) == o.frobeniusCube(f)
    && o.frobeniusSquare(o.frobeniusSquare(o.frobeniusSquare(f))) == o.conjugate(f)
    && o.conjugate(o.conjugate(f)) == f
  }

  /** What the proofs below need from the operations. */
  ghost predicate Sound<S(!new)>(o: Ops<S>) {
    && IsRing(o.fp12)
    && IsHom(o.fp12, o.fp12, o.frobenius)
    && (forall f: S {:trigger At(f, f, f)} :: Compositions(o, f))
    && (forall f: S {:trigger At(f, o.fp12.one, f)} :: Cyclotomic(o, f) ==> o.cyclotomicSquare(f) == o.fp12.mul(f, f))
  }

  lemma Compose<S(!new)>(o: Ops<S>, f: S)
    requires Sound(o)
    ensures Compositions(o, f)
  {
    assert At(f, f, f);
  }

  /** The other maps are composed from frobenius. */
  lemma MapsAreHoms<S(!new)>(o: Ops<S>)
    requires Sound(o)
    ensures IsHom(o.fp12, o.fp12, o.frobeniusSquare) && IsHom(o.fp12, o.fp12, o.frobeniusCube)
    ensures IsHom(o.fp12, o.fp12, o.conjugate)
  {
    var s := o.fp12;
    ComposedHoms(s, o.frobenius, o.frobenius, o.frobeniusSquare);
    forall f: S ensures o.frobeniusSquare(f) == o.frobenius(o.frobenius(f)) { Compose(o, f); }
    ComposedHoms(s, o.frobenius, o.frobenius, o.frobeniusSquare);
    forall f: S ensures o.frobeniusCube(f) == o.frobenius(o.frobeniusSquare(f)) { Compose(o, f); }
    ComposedHoms(s, o.frobenius, o.frobeniusSquare, o.frobeniusCube);
    forall f: S ensures o.conjugate(f) == o.frobeniusCube(o.frobeniusCube(f)) { ConjugateIsSixth(o, f); }
    ComposedHoms(s, o.frobeniusCube, o.frobeniusCube, o.conjugate);
  }

  lemma ConjugateIsSixth<S(!new)>(o: Ops<S>, f: S)
    requires Sound(o)
    ensures o.conjugate(f) == o.frobeniusCube(o.frobeniusCube(f))
    ensures o.frobenius(o.frobeniusSquare(f)) == o.frobeniusSquare(o.frobenius(f))
    ensures o.conjugate(o.frobenius(f)) == o.frobenius(o.conjugate(f))
  {
    var p1 := o.frobenius(f);
    var p2 := o.frobenius(p1);
    var p3 := o.frobenius(p2);
    var p4 := o.frobenius(p3);
    var p5 := o.frobenius(p4);
    Compose(o, f); Compose(o, p1); Compose(o, p2); Compose(o, p3); Compose(o, p4); Compose(o, p5);
  }

  lemma ComposedHoms<S(!new)>(s: Ring<S>, h: S -> S, k: S -> S, m: S -> S)
    requires IsHom(s, s, h) && IsHom(s, s, k)
    ensures (forall f: S :: m(f) == h(k(f))) ==> IsHom(s, s, m)
  {
    if forall f: S :: m(f) == h(k(f)) {
      forall a: S, b: S ensures HomLaws(s, s, m, a, b) {
        UseHom(s, s, k, a, b);
        UseHom(s, s, h, k(a), k(b));
        assert m(a) == h(k(a)) && m(b) == h(k(b));
      }
    }
  }

  // ---- the cyclotomic subgroup -----------------------------------------------------------

  /** The elements on which cyclotomic squaring is valid and conjugation inverts. */
  ghost predicate InSubgroup<S>(o: Ops<S>, f: S) {
    Cyclotomic(o, f) && Inverses(o.fp12, f, o.conjugate(f))
  }

  /** On invertible solutions of the cyclotomic equation, conjugate is the inverse. */
  lemma ConjugateInverts<S(!new)>(o: Ops<S>, f: S, fi: S)
    requires Sound(o) && Cyclotomic(o, f) && Inverses(o.fp12, f, fi)
    ensures InSubgroup(o, f)
  {
    var s, h := o.fp12, o.frobeniusSquare;
    MapsAreHoms(o);
    Compose(o, f);
    UseHom(s, s, h, f, fi);
    UseHom(s, s, h, h(h(f)), f);
    CancelInCycle(s, f, o.conjugate(f), h(f), h(fi), h(h(f)));
  }

  lemma CancelInCycle<S(!new)>(s: Ring<S>, f: S, c: S, x: S, xi: S, y: S)
    requires IsRing(s) && Inverses(s, x, xi) && s.mul(y, f) == x && s.mul(c, x) == y
    ensures Inverses(s, f, c)
  {
    var e := s.mul(f, c);
    Use(s, x, f, c); Use(s, c, x, f); Use(s, f, c, x); Use(s, y, f, f); Use(s, e, x, x);
    OneIsUnit(s, x);
    UnitCancel(s, x, xi, e, s.one);
  }

  /** The subgroup is closed under products. */
  lemma ClosedUnderMul<S(!new)>(o: Ops<S>, f: S, g: S)
    requires Sound(o) && InSubgroup(o, f) && InSubgroup(o, g)
    ensures InSubgroup(o, o.fp12.mul(f, g))
  {
    var s, h := o.fp12, o.frobeniusSquare;
    MapsAreHoms(o);
    UseHom(s, s, h, f, g);
    UseHom(s, s, h, h(f), h(g));
    SwapMul(s, h(h(f)), h(h(g)), f, g);
    UseHom(s, s, o.conjugate, f, g);
    SwapMul(s, f, g, o.conjugate(f), o.conjugate(g));
    OneIsUnit(s, s.one);
  }

  /** The subgroup is closed under the Frobenius maps and conjugation. */
  lemma ClosedUnderFrobenius<S(!new)>(o: Ops<S>, f: S)
    requires Sound(o) && InSubgroup(o, f)
    ensures InSubgroup(o, o.frobenius(f)) && InSubgroup(o, o.frobeniusSquare(f)) && InSubgroup(o, o.frobeniusCube(f))
    ensures InSubgroup(o, o.conjugate(f))
  {
    var g := o.frobenius(f);
    OneFrobenius(o, f);
    OneFrobenius(o, g);
    Compose(o, f);
    OneFrobenius(o, o.frobenius(g));
    var k := o.frobeniusCube(f);
    OneFrobenius(o, k);
    OneFrobenius(o, o.frobenius(k));
    Compose(o, k);
    OneFrobenius(o, o.frobeniusSquare(k));
    ConjugateIsSixth(o, f);
  }

  lemma OneFrobenius<S(!new)>(o: Ops<S>, f: S)
    requires Sound(o) && InSubgroup(o, f)
    ensures InSubgroup(o, o.frobenius(f))
  {
    var s, h, k := o.fp12, o.frobeniusSquare, o.frobenius;
    ConjugateIsSixth(o, f); ConjugateIsSixth(o, h(f));
    UseHom(s, s, k, h(h(f)), f);
    UseHom(s, s, k, f, o.conjugate(f));
  }

  lemma {:induction false} ClosedUnderPower<S(!new)>(o: Ops<S>, f: S, n: nat)
    requires Sound(o) && InSubgroup(o, f)
    ensures InSubgroup(o, Power(o.fp12, f, n))
  {
    if n == 0 {
      var s := o.fp12;
      MapsAreHoms(o);
      OneIsUnit(s, s.one);
    } else {
      ClosedUnderPower(o, f, n - 1);
      ClosedUnderMul(o, f, Power(o.fp12, f, n - 1));
    }
  }

  lemma ClosedUnderPowZ<S(!new)>(o: Ops<S>, f: S, n: int)
    requires Sound(o) && InSubgroup(o, f)
    ensures InSubgroup(o, PowZ(o.fp12, f, o.conjugate(f), n))
  {
    ClosedUnderFrobenius(o, f);
    if n >= 0 { ClosedUnderPower(o, f, n); } else { ClosedUnderPower(o, o.conjugate(f), -n); }
  }

  // ---- the addition chain ------------------------------------------------------------------

  // t is f to the power n; squares and products of powers of f
  lemma SquareOfPower<S(!new)>(o: Ops<S>, f: S, n: nat, t: S)
    requires Sound(o) && InSubgroup(o, f) && t == Power(o.fp12, f, n)
    ensures o.cyclotomicSquare(t) == Power(o.fp12, f, 2 * n)
  {
    ClosedUnderPower(o, f, n);
    PowerAdd(o.fp12, f, n, n);
    assert At(t, o.fp12.one, t);
  }

  /** n cyclotomic squarings raise f to the power 2^n. */
  method NSquare<S(!new)>(o: Ops<S>, f: S, n: nat) returns (out: S)
    requires Sound(o) && InSubgroup(o, f)
    ensures out == Power(o.fp12, f, TwoTo(n))
  {
    out := f;
    SmallPowers(o.fp12, f);
    for i := 0 to n
      invariant out == Power(o.fp12, f, TwoTo(i))
    {
      SquareOfPower(o, f, TwoTo(i), out);
      out := o.cyclotomicSquare(out);
    }
  }

  // pw(n) is the n-th power of f; the powers themselves come into a proof only when they are mentioned.
  ghost predicate ArePowers<S(!new)>(o: Ops<S>, f: S, pw: nat -> S) {
    forall n: nat {:trigger Power(o.fp12, f, n)} :: pw(n) == Power(o.fp12, f, n)
  }

  lemma PowersOf<S(!new)>(o: Ops<S>, f: S) returns (pw: nat -> S)
    requires Sound(o)
    ensures ArePowers(o, f, pw) && pw(1) == f
  {
    pw := (n: nat) => Power(o.fp12, f, n);
    SmallPowers(o.fp12, f);
  }

  lemma SquareStep<S(!new)>(o: Ops<S>, f: S, pw: nat -> S, n: nat, t: S)
    requires Sound(o) && InSubgroup(o, f) && ArePowers(o, f, pw) && t == pw(n)
    ensures o.cyclotomicSquare(t) == pw(2 * n)
  {
    assert t == Power(o.fp12, f, n);
    SquareOfPower(o, f, n, t);
  }

  lemma ProductStep<S(!new)>(o: Ops<S>, f: S, pw: nat -> S, m: nat, n: nat, t: S, u: S)
    requires Sound(o) && ArePowers(o, f, pw) && t == pw(m) && u == pw(n)
    ensures o.fp12.mul(t, u) == pw(m + n)
  {
    PowerAdd(o.fp12, f, m, n);
  }

  ghost predicate Shifted(n: nat, k: nat, e: nat) { e == n * TwoTo(k) }

  // The exponents before and after the runs of squarings of the chain
  lemma ChainShifts()
    ensures Shifted(34, 6, 2176) && Shifted(2205, 7, 282240)
         && Shifted(282265, 8, 72259840)
         && Shifted(72259883, 6, 4624632512)
         && Shifted(4624632529, 8, 1183905927424)
         && Shifted(1183905927465, 6, 75769979357760)
         && Shifted(75769979357801, 10, 77588458862388224)
         && Shifted(77588458862388263, 6, 4965661367192848832)
  {
    assert TwoTo(6) == 64 && TwoTo(7) == 128 && TwoTo(8) == 256 && TwoTo(10) == 1024;
  }

  // n_square on the power n of f
  method NSquareStep<S(!new)>(o: Ops<S>, ghost f: S, ghost pw: nat -> S, ghost n: nat, t: S, k: nat, ghost e: nat)
    returns (u: S)
    requires Sound(o) && InSubgroup(o, f) && ArePowers(o, f, pw) && t == pw(n) && Shifted(n, k, e)
    ensures u == pw(e)
  {
    assert t == Power(o.fp12, f, n);
    ClosedUnderPower(o, f, n);
    PowerOfPower(o.fp12, f, n, TwoTo(k));
    u := NSquare(o, t, k);
  }

  /** The addition chain raises f exactly to the curve parameter. */
  method Expt<S(!new)>(o: Ops<S>, f: S) returns (result: S)
    requires Sound(o) && InSubgroup(o, f)
    ensures result == Power(o.fp12, f, X)
  {
    ghost var pw := PowersOf(o, f);
    ChainShifts();
    SquareStep(o, f, pw, 1, f); var t3 := o.cyclotomicSquare(f);
    SquareStep(o, f, pw, 2, t3); var t5 := o.cyclotomicSquare(t3);
    SquareStep(o, f, pw, 4, t5); result := o.cyclotomicSquare(t5);
    SquareStep(o, f, pw, 8, result); var t0 := o.cyclotomicSquare(result);
    ProductStep(o, f, pw, 1, 16, f, t0); var t2 := o.fp12.mul(f, t0);
    ProductStep(o, f, pw, 17, 2, t2, t3); t0 := o.fp12.mul(t2, t3);
    ProductStep(o, f, pw, 1, 19, f, t0); var t1 := o.fp12.mul(f, t0);
    ProductStep(o, f, pw, 8, 17, result, t2); var t4 := o.fp12.mul(result, t2);
    SquareStep(o, f, pw, 17, t2); var t6 := o.cyclotomicSquare(t2);
    ProductStep(o, f, pw, 20, 19, t1, t0); t1 := o.fp12.mul(t1, t0);
    ProductStep(o, f, pw, 39, 2, t1, t3); t0 := o.fp12.mul(t1, t3);
    t6 := NSquareStep(o, f, pw, 34, t6, 6, 2176);
    ProductStep(o, f, pw, 4, 2176, t5, t6); t5 := o.fp12.mul(t5, t6);
    ProductStep(o, f, pw, 25, 2180, t4, t5); t5 := o.fp12.mul(t4, t5);
    t5 := NSquareStep(o, f, pw, 2205, t5, 7, 282240);
    ProductStep(o, f, pw, 25, 282240, t4, t5); t4 := o.fp12.mul(t4, t5);
    t4 := NSquareStep(o, f, pw, 282265, t4, 8, 72259840);
    ProductStep(o, f, pw, 72259840, 41, t4, t0); t4 := o.fp12.mul(t4, t0);
    ProductStep(o, f, pw, 2, 72259881, t3, t4); t3 := o.fp12.mul(t3, t4);
    t3 := NSquareStep(o, f, pw, 72259883, t3, 6, 4624632512);
    ProductStep(o, f, pw, 17, 4624632512, t2, t3); t2 := o.fp12.mul(t2, t3);
    t2 := NSquareStep(o, f, pw, 4624632529, t2, 8, 1183905927424);
    ProductStep(o, f, pw, 41, 1183905927424, t0, t2); t2 := o.fp12.mul(t0, t2);
    t2 := NSquareStep(o, f, pw, 1183905927465, t2, 6, 75769979357760);
    ProductStep(o, f, pw, 41, 75769979357760, t0, t2); t2 := o.fp12.mul(t0, t2);
    t2 := NSquareStep(o, f, pw, 75769979357801, t2, 10, 77588458862388224);
    ProductStep(o, f, pw, 39, 77588458862388224, t1, t2); t1 := o.fp12.mul(t1, t2);
    t1 := NSquareStep(o, f, pw, 77588458862388263, t1, 6, 4965661367192848832);
    ProductStep(o, f, pw, 41, 4965661367192848832, t0, t1); t0 := o.fp12.mul(t0, t1);
    ProductStep(o, f, pw, 8, 4965661367192848873, result, t0); result := o.fp12.mul(result, t0);
    assert pw(X) == Power(o.fp12, f, X);
  }

  // ---- the hard part -------------------------------------------------------------------------

  // t is f to the integer m
  ghost predicate Is<S>(o: Ops<S>, f: S, m: int, t: S) { t == PowZ(o.fp12, f, o.conjugate(f), m) }

  lemma ConjugateOfPowZ<S(!new)>(o: Ops<S>, f: S, m: int, t: S)
    requires Sound(o) && InSubgroup(o, f) && Is(o, f, m, t)
    ensures Is(o, f, -m, o.conjugate(t))
  {
    var s, c := o.fp12, o.conjugate(f);
    MapsAreHoms(o);
    HomPowZ(s, s, o.conjugate, f, c, m);
    ClosedUnderFrobenius(o, f);
    InversesFlip(s, f, c);
    InverseUnique(s, c, f, o.conjugate(c));
    PowZNegate(s, f, c, m);
  }

  lemma SquareOfPowZ<S(!new)>(o: Ops<S>, f: S, m: int, t: S)
    requires Sound(o) && InSubgroup(o, f) && Is(o, f, m, t)
    ensures Is(o, f, 2 * m, o.cyclotomicSquare(t))
  {
    ClosedUnderPowZ(o, f, m);
    PowZAdd(o.fp12, f, o.conjugate(f), m, m);
    assert At(t, o.fp12.one, t);
  }

  lemma ProductOfPowZ<S(!new)>(o: Ops<S>, f: S, m: int, n: int, t: S, u: S)
    requires Sound(o) && InSubgroup(o, f) && Is(o, f, m, t) && Is(o, f, n, u)
    ensures Is(o, f, m + n, o.fp12.mul(t, u))
  {
    PowZAdd(o.fp12, f, o.conjugate(f), m, n);
  }

  lemma ExptOfPowZ<S(!new)>(o: Ops<S>, f: S, m: int, t: S)
    requires Sound(o) && InSubgroup(o, f) && Is(o, f, m, t)
    ensures InSubgroup(o, t) && Is(o, f, m * X, Power(o.fp12, t, X))
  {
    ClosedUnderPowZ(o, f, m);
    PowZPower(o.fp12, f, o.conjugate(f), m, X);
  }

  lemma FrobeniusOfPowZ<S(!new)>(o: Ops<S>, f: S, m: int, t: S)
    requires Sound(o) && InSubgroup(o, f) && Is(o, f, m, t)
    ensures Is(o, o.frobenius(f), m, o.frobenius(t)) && Is(o, o.frobeniusSquare(f), m, o.frobeniusSquare(t))
    ensures Is(o, o.frobeniusCube(f), m, o.frobeniusCube(t))
  {
    var s, c := o.fp12, o.conjugate(f);
    MapsAreHoms(o);
    HomPowZ(s, s, o.frobenius, f, c, m);
    HomPowZ(s, s, o.frobeniusSquare, f, c, m);
    HomPowZ(s, s, o.frobeniusCube, f, c, m);
    ConjugateIsSixth(o, f); ConjugateIsSixth(o, o.frobenius(f)); ConjugateIsSixth(o, o.frobeniusSquare(f));
    Compose(o, f); Compose(o, c);
  }

  /** f^l0 frobenius(f)^l1 frobenius_square(f)^l2 frobenius_cube(f)^l3, where negative powers are powers of
      conjugates. */
  ghost function FrobeniusProduct<S>(o: Ops<S>, f: S, l0: int, l1: int, l2: int, l3: int): S {
    var s, f1, f2, f3 := o.fp12, o.frobenius(f), o.frobeniusSquare(f), o.frobeniusCube(f);
    s.mul(PowZ(s, f3, o.conjugate(f3), l3),
          s.mul(PowZ(s, f2, o.conjugate(f2), l2),
              s.mul(PowZ(s, f1, o.conjugate(f1), l1), PowZ(s, f, o.conjugate(f), l0))))
  }

  /** The second part of Algorithm 6 of eprint 2015/192. */
  method HardPart<S(!new)>(o: Ops<S>, f: S) returns (result: S)
    requires Sound(o) && InSubgroup(o, f)
    ensures result == FrobeniusProduct(o, f, Lambda0(X), Lambda1(X), Lambda2(X), Lambda3(X))
  {
    ghost var one, x := 1, X;
    SmallPowers(o.fp12, f);
    var t0 := Expt(o, f);
    ConjugateOfPowZ(o, f, x, t0); t0 := o.conjugate(t0);
    SquareOfPowZ(o, f, -x, t0); t0 := o.cyclotomicSquare(t0);
    SquareOfPowZ(o, f, -2 * x, t0);
    var t1 := o.cyclotomicSquare(t0);
    ProductOfPowZ(o, f, -2 * x, -4 * x, t0, t1); t1 := o.fp12.mul(t0, t1);
    ExptOfPowZ(o, f, -6 * x, t1);
    var t2 := Expt(o, t1);
    ConjugateOfPowZ(o, f, -6 * x * x, t2); t2 := o.conjugate(t2);
    ConjugateOfPowZ(o, f, -6 * x, t1);
    var t3 := o.conjugate(t1);
    ProductOfPowZ(o, f, 6 * x * x, 6 * x, t2, t3); t1 := o.fp12.mul(t2, t3);
    SquareOfPowZ(o, f, 6 * x * x, t2); t3 := o.cyclotomicSquare(t2);
    ExptOfPowZ(o, f, 12 * x * x, t3);
    var t4 := Expt(o, t3);
    ProductOfPowZ(o, f, 12 * x * x * x, 6 * x * x + 6 * x, t4, t1); t4 := o.fp12.mul(t4, t1);
    ProductOfPowZ(o, f, Lambda2(x), -2 * x, t4, t0); t3 := o.fp12.mul(t4, t0);
    ProductOfPowZ(o, f, 6 * x * x, Lambda2(x), t2, t4); t0 := o.fp12.mul(t2, t4);
    ProductOfPowZ(o, f, Lambda0(x) - 1, 1, t0, f); t0 := o.fp12.mul(t0, f);
    FrobeniusOfPowZ(o, f, Lambda1(x), t3); t2 := o.frobenius(t3);
    t0 := o.fp12.mul(t2, t0);
    FrobeniusOfPowZ(o, f, Lambda2(x), t4); t2 := o.frobeniusSquare(t4);
    t0 := o.fp12.mul(t2, t0);
    ConjugateOfPowZ(o, f, 1, f); t2 := o.conjugate(f);
    ProductOfPowZ(o, f, -1, Lambda1(x), t2, t3); t2 := o.fp12.mul(t2, t3);
    FrobeniusOfPowZ(o, f, Lambda3(x), t2); t2 := o.frobeniusCube(t2);
    result := o.fp12.mul(t2, t0);
  }

  // ---- the easy part -------------------------------------------------------------------------

  // t = conj(f) / f satisfies conj(t) t = 1.
  lemma UnitaryQuotient<S(!new)>(o: Ops<S>, f: S, fi: S)
    requires Sound(o) && Inverses(o.fp12, f, fi)
    ensures var t := o.fp12.mul(o.conjugate(f), fi); Inverses(o.fp12, t, o.conjugate(t))
  {
    var s, c := o.fp12, o.conjugate;
    MapsAreHoms(o);
    Compose(o, f);
    UseHom(s, s, c, c(f), fi);
    UseHom(s, s, c, f, fi);
    Use(s, f, c(fi), c(fi)); Use(s, f, fi, fi);
    SwapMul(s, c(f), fi, c(fi), f);
    OneIsUnit(s, s.one);
  }

  /** The first part sends every invertible f into the subgroup. */
  lemma EasyPartLands<S(!new)>(o: Ops<S>, f: S, fi: S)
    requires Sound(o) && Inverses(o.fp12, f, fi)
    ensures var t := o.fp12.mul(o.conjugate(f), fi);
            InSubgroup(o, o.fp12.mul(o.frobeniusSquare(t), t))
  {
    var s, h := o.fp12, o.frobeniusSquare;
    var t := s.mul(o.conjugate(f), fi);
    MapsAreHoms(o);
    UnitaryQuotient(o, f, fi);
    Compose(o, t);
    UseHom(s, s, h, h(t), t);
    UseHom(s, s, h, h(h(t)), h(t));
    UseHom(s, s, h, t, o.conjugate(t));
    Compose(o, h(t));
    var c, g := o.conjugate(t), s.mul(h(t), t);
    // h(h(g)) g = (conj(t) h(h(t))) (h(t) t) = (conj(t) t) (h(h(t)) h(t)) = h(g)
    Use(s, h(t), t, t); Use(s, c, t, t);
    SwapMul(s, c, h(h(t)), t, h(t));
    OneIsUnit(s, h(g));
    UseHom(s, s, o.conjugate, h(t), t);
    SwapMul(s, h(t), t, h(c), c);
    OneIsUnit(s, s.one);
  }

  ghost predicate IsExponentiation<S>(o: Ops<S>, f: S, fi: S, result: S) {
    var t := o.fp12.mul(o.conjugate(f), fi);
    var g := o.fp12.mul(o.frobeniusSquare(t), t);
    InSubgroup(o, g) && result == FrobeniusProduct(o, g, Lambda0(X), Lambda1(X), Lambda2(X), Lambda3(X))
  }

  /** Both parts of Algorithm 6 of eprint 2015/192, given the inverse of f. */
  method Exponentiate<S(!new)>(o: Ops<S>, f: S, fi: S) returns (result: S)
    requires Sound(o) && Inverses(o.fp12, f, fi)
    ensures IsExponentiation(o, f, fi, result)
  {
    EasyPartLands(o, f, fi);
    var t0 := o.conjugate(f);
    t0 := o.fp12.mul(t0, fi);
    var aux := o.frobeniusSquare(t0);
    var g := o.fp12.mul(aux, t0);
    result := HardPart(o, g);
  }

  /** Factors that conjugation fixes do not change the result. */
  lemma FixedFactorsVanish<S(!new)>(o: Ops<S>, k: S, ki: S, f: S, fi: S, kf: S, kfi: S, result: S)
    requires Sound(o) && Inverses(o.fp12, k, ki) && o.conjugate(k) == k
    requires Inverses(o.fp12, f, fi) && kf == o.fp12.mul(k, f) && Inverses(o.fp12, kf, kfi)
    requires IsExponentiation(o, kf, kfi, result)
    ensures IsExponentiation(o, f, fi, result)
  {
    var s := o.fp12;
    MapsAreHoms(o);
    UseHom(s, s, o.conjugate, k, f);
    SwapMul(s, k, f, ki, fi);
    OneIsUnit(s, s.one);
    InverseUnique(s, kf, kfi, s.mul(ki, fi));
    SwapMul(s, k, o.conjugate(f), ki, fi);
    OneIsUnit(s, s.mul(o.conjugate(f), fi));
  }
}
