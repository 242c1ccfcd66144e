/** The operations of fp12.py and frobenius.py meet what the final exponentiation needs. */
module TowerOperations {
  import opened BnParameter
  import opened Rings
  import opened Powers
  import opened Extensions
  import opened Tower
  import opened FrobeniusMaps
  import opened CyclotomicSubgroup
  import opened CyclotomicExponentiation
  import opened PairingExponent
  import opened TowerFrobenius

  /** Fp12 with the multiplication of Algorithm 20. */
  function Fp12Fast<T>(r: Ring<T>): Ring<F12<T>> {
    var s := Fp12(r);
    Ring(s.zero, s.one, s.add, s.sub, (a: F12<T>, b: F12<T>) => Fp12Mul(r, a, b))
  }

  function TowerOps<T>(r: Ring<T>, g: Gammas<T>): Ops<F12<T>> {
    Ops(Fp12Fast(r),
        (a: F12<T>) => Conjugate(r, a),
        (a: F12<T>) => CyclotomicSquare(r, a),
        (a: F12<T>) => Frobenius(r, g, a),
        (a: F12<T>) => FrobeniusSquare(r, g, a),
        (a: F12<T>) => FrobeniusCube(r, g, a))
  }

  lemma FastMul<T(!new)>(r: Ring<T>, a: F12<T>, b: F12<T>)
    requires IsRing(r)
    ensures Fp12Fast(r).mul(a, b) == Fp12(r).mul(a, b)
  {
    Fp12MulIsProduct(r, a, b);
  }

  lemma SameRing<S(!new)>(fast: Ring<S>, s: Ring<S>)
    requires IsRing(s)
    requires fast.zero == s.zero && fast.one == s.one && fast.add == s.add && fast.sub == s.sub
    requires forall a: S, b: S :: fast.mul(a, b) == s.mul(a, b)
    ensures IsRing(fast)
    ensures forall h: S -> S :: IsHom(s, s, h) ==> IsHom(fast, fast, h)
  {
    forall a: S, b: S, c: S ensures Laws(fast, a, b, c) { Use(s, a, b, c); }
    forall h: S -> S | IsHom(s, s, h) ensures IsHom(fast, fast, h) {
      forall a: S, b: S ensures HomLaws(fast, fast, h, a, b) { UseHom(s, s, h, a, b); }
    }
  }

  lemma FastIsRing<T(!new)>(r: Ring<T>)
    requires IsRing(r)
    ensures IsRing(Fp12Fast(r))
    ensures forall h: F12<T> -> F12<T> :: IsHom(Fp12(r), Fp12(r), h) ==> IsHom(Fp12Fast(r), Fp12Fast(r), h)
  {
    var s, fast := Fp12(r), Fp12Fast(r);
    Fp12IsRing(r);
    forall a: F12<T>, b: F12<T> ensures fast.mul(a, b) == s.mul(a, b) { FastMul(r, a, b); }
    SameRing(fast, s);
  }

  lemma ConjugateTwice<T(!new)>(r: Ring<T>, a: F12<T>)
    requires IsRing(r)
    ensures Conjugate(r, Conjugate(r, a)) == a
  {
    var x, y, z := a.c1.c0, a.c1.c1, a.c1.c2;
    NegateTwice(r, x.c0); NegateTwice(r, x.c1); NegateTwice(r, y.c0); NegateTwice(r, y.c1);
    NegateTwice(r, z.c0); NegateTwice(r, z.c1);
  }

  lemma TowerCompositions<T(!new)>(r: Ring<T>, g: Gammas<T>, f: F12<T>)
    requires IsRing(r) && GoodGammas(r, g)
    ensures Compositions(TowerOps(r, g), f)
  {
    FrobeniusComposes(r, g, f);
    ConjugateTwice(r, f);
  }

  lemma TowerSquare<T(!new)>(r: Ring<T>, g: Gammas<T>, f: F12<T>)
    requires IsRing(r) && GoodGammas(r, g)
    ensures Cyclotomic(TowerOps(r, g), f) <==> InCyclotomicSubgroup(r, g, f)
    ensures Cyclotomic(TowerOps(r, g), f) ==> TowerOps(r, g).cyclotomicSquare(f) == TowerOps(r, g).fp12.mul(f, f)
  {
    FastMul(r, FrobeniusSquare(r, g, FrobeniusSquare(r, g, f)), f);
    FastMul(r, f, f);
    if InCyclotomicSubgroup(r, g, f) { CyclotomicSquareIsSquare(r, g, f); }
  }

  /** Over any commutative ring, with constants that satisfy the relations, the operations are sound. */
  lemma TowerIsSound<T(!new)>(r: Ring<T>, g: Gammas<T>)
    requires IsRing(r) && GoodGammas(r, g)
    ensures Sound(TowerOps(r, g))
  {
    var o := TowerOps(r, g);
    FastIsRing(r);
    FrobeniusIsHom(r, g);
    forall f: F12<T> ensures Compositions(o, f) { TowerCompositions(r, g, f); }
    forall f: F12<T> | Cyclotomic(o, f) ensures o.cyclotomicSquare(f) == o.fp12.mul(f, f) { TowerSquare(r, g, f); }
  }

  lemma {:induction false} FastPower<T(!new)>(r: Ring<T>, f: F12<T>, n: nat)
    requires IsRing(r)
    ensures Power(Fp12Fast(r), f, n) == Power(Fp12(r), f, n)
  {
    if n > 0 {
      FastPower(r, f, n - 1);
      FastMul(r, f, Power(Fp12(r), f, n - 1));
    }
  }

  /** In the prime setting the operation frobenius is the p-th power. */
  lemma TowerRaises<T(!new)>(r: Ring<T>, g: Gammas<T>, p: nat)
    requires FrobeniusSetting(r, g, p)
    ensures RaisesTo(TowerOps(r, g), p)
  {
    var o := TowerOps(r, g);
    forall f: F12<T> ensures o.frobenius(f) == Power(o.fp12, f, p) {
      FrobeniusIsPower(r, g, p, f);
      FastPower(r, f, p);
    }
  }

  lemma FastInverses<T(!new)>(r: Ring<T>, f: F12<T>, fi: F12<T>)
    requires IsRing(r)
    ensures Inverses(Fp12Fast(r), f, fi) <==> Inverses(Fp12(r), f, fi)
  {
    FastMul(r, f, fi);
  }

  lemma FastTotalPower<T(!new)>(r: Ring<T>, g: Gammas<T>, x: int, f: F12<T>, result: F12<T>)
    requires IsRing(r) && IsTotalPower(TowerOps(r, g).fp12, x, f, result)
    ensures IsTotalPower(Fp12(r), x, f, result)
  {
    FastPower(r, f, TotalExponent(x));
    FastPower(r, result, GroupOrder(x));
  }
}
