/** Commutative rings given by their operations. */
module Rings {
  datatype Ring<!T> = Ring(zero: T, one: T, add: (T, T) -> T, sub: (T, T) -> T, mul: (T, T) -> T)

  // Always true; mentioning At(a, b, c) is what brings a ring law about a, b and c into a proof.
  ghost predicate At<T>(a: T, b: T, c: T) { true }

  ghost predicate IsRing<T(!new)>(r: Ring<T>) {
    forall a: T, b: T, c: T {:trigger At(a, b, c)} :: Laws(r, a, b, c)
  }

  ghost predicate Laws<T>(r: Ring<T>, a: T, b: T, c: T) {
    && r.add(a, b) == r.add(b, a)
    && r.add(r.add(a, b), c) == r.add(a, r.add(b, c))
    && r.add(a, r.zero) == a
    && r.add(r.sub(a, b), b) == a
    && r.mul(a, b) == r.mul(b, a)
    && r.mul(r.mul(a, b), c) == r.mul(a, r.mul(b, c))
    && r.mul(a, r.one) == a
    && r.mul(a, r.add(b, c)) == r.add(r.mul(a, b), r.mul(a, c))
  }

  lemma Use<T(!new)>(r: Ring<T>, a: T, b: T, c: T)
    requires IsRing(r)
    ensures Laws(r, a, b, c)
  {
    assert At(a, b, c);
  }

  lemma AddCancel<T(!new)>(r: Ring<T>, a: T, b: T, c: T)
    requires IsRing(r) && r.add(a, c) == r.add(b, c)
    ensures a == b
  {
    var n := r.sub(r.zero, c);
    calc {
      a;
      { Use(r, a, c, n); }
      r.add(a, r.zero);
      { Use(r, r.zero, c, c); Use(r, n, c, c); }
      r.add(a, r.add(c, n));
      { Use(r, a, c, n); }
      r.add(r.add(a, c), n);
      { Use(r, b, c, n); }
      r.add(b, r.add(c, n));
      { Use(r, n, c, c); Use(r, r.zero, c, c); }
      r.add(b, r.zero);
      { Use(r, b, c, n); }
      b;
    }
  }

  lemma MulZero<T(!new)>(r: Ring<T>, a: T)
    requires IsRing(r)
    ensures r.mul(a, r.zero) == r.zero && r.mul(r.zero, a) == r.zero
  {
    var z := r.mul(a, r.zero);
    Use(r, a, r.zero, r.zero);
    Use(r, r.zero, r.zero, r.zero);
    Use(r, z, z, r.zero);
    Use(r, r.zero, z, r.zero);
    AddCancel(r, z, r.zero, z);
  }

  // x - y is the only d with d + y == x
  lemma SubUnique<T(!new)>(r: Ring<T>, x: T, y: T, d: T)
    requires IsRing(r) && r.add(d, y) == x
    ensures r.sub(x, y) == d
  {
    Use(r, x, y, y);
    AddCancel(r, r.sub(x, y), d, y);
  }

  lemma NegateTwice<T(!new)>(r: Ring<T>, a: T)
    requires IsRing(r)
    ensures r.sub(r.zero, r.sub(r.zero, a)) == a
  {
    var n := r.sub(r.zero, a);
    Use(r, r.zero, a, a); Use(r, n, a, a);
    SubUnique(r, r.zero, n, a);
  }

  lemma OppositeProduct<T(!new)>(r: Ring<T>, t: T, e: T)
    requires IsRing(r)
    ensures r.mul(t, r.sub(r.zero, e)) == r.sub(r.zero, r.mul(t, e))
  {
    var n := r.sub(r.zero, e);
    Use(r, r.zero, e, e); Use(r, t, n, e);
    MulZero(r, t);
    SubUnique(r, r.zero, r.mul(t, e), r.mul(t, n));
  }

  lemma OppositeSquares<T(!new)>(r: Ring<T>, y: T)
    requires IsRing(r)
    ensures r.mul(r.sub(r.zero, y), r.sub(r.zero, y)) == r.mul(y, y)
  {
    var n := r.sub(r.zero, y);
    OppositeProduct(r, n, y); OppositeProduct(r, y, y);
    Use(r, n, y, y);
    NegateTwice(r, r.mul(y, y));
  }

  lemma DifferenceTimes<T(!new)>(r: Ring<T>, a: T, b: T, k: T)
    requires IsRing(r)
    ensures r.mul(r.sub(a, b), k) == r.sub(r.mul(a, k), r.mul(b, k))
  {
    var d := r.sub(a, b);
    Use(r, a, b, b); Use(r, k, d, b); Use(r, d, k, k); Use(r, b, k, k); Use(r, a, k, k);
    SubUnique(r, r.mul(a, k), r.mul(b, k), r.mul(d, k));
  }

  lemma QuotientTimes<T(!new)>(r: Ring<T>, n: T, d: T, i: T)
    requires IsRing(r) && r.mul(d, i) == r.one
    ensures r.mul(r.mul(n, i), d) == n
  {
    Use(r, n, i, d); Use(r, i, d, d); Use(r, n, r.one, r.one);
  }

  lemma SwapMul<T(!new)>(r: Ring<T>, a: T, b: T, c: T, d: T)
    requires IsRing(r)
    ensures r.mul(r.mul(a, b), r.mul(c, d)) == r.mul(r.mul(a, c), r.mul(b, d))
  {
    Use(r, a, b, r.mul(c, d)); Use(r, b, c, d); Use(r, c, b, d); Use(r, a, c, r.mul(b, d));
  }

  function OfInt<T>(r: Ring<T>, n: int): T
    decreases if n < 0 then -n else n
  {
    if n == 0 then r.zero else if n > 0 then r.add(OfInt(r, n - 1), r.one) else r.sub(OfInt(r, n + 1), r.one)
  }

  lemma OfIntSucc<T(!new)>(r: Ring<T>, n: int)
    requires IsRing(r)
    ensures OfInt(r, n + 1) == r.add(OfInt(r, n), r.one)
  {
    if n < 0 { Use(r, OfInt(r, n + 1), r.one, r.one); }
  }

  lemma OneIsInteger<T(!new)>(r: Ring<T>)
    requires IsRing(r)
    ensures OfInt(r, 1) == r.one
  {
    Use(r, r.one, r.zero, r.zero); Use(r, r.zero, r.one, r.one);
  }

  lemma ThriceIs<T(!new)>(r: Ring<T>, x: T)
    requires IsRing(r)
    ensures r.add(x, r.add(x, x)) == r.mul(OfInt(r, 3), x) == r.add(r.add(x, x), x)
  {
    OneIsInteger(r); OfIntSucc(r, 1); OfIntSucc(r, 2);
    Use(r, x, r.one, r.one); Use(r, x, OfInt(r, 2), r.one); Use(r, x, OfInt(r, 3), x); Use(r, x, x, x);
  }

  lemma {:induction false} OfIntAdd<T(!new)>(r: Ring<T>, m: int, n: int)
    requires IsRing(r)
    ensures OfInt(r, m + n) == r.add(OfInt(r, m), OfInt(r, n))
    decreases if n < 0 then -n else n
  {
    var x := OfInt(r, m);
    if n == 0 {
      Use(r, x, x, x);
    } else if n > 0 {
      OfIntAdd(r, m, n - 1);
      OfIntSucc(r, m + n - 1);
      Use(r, x, OfInt(r, n - 1), r.one);
    } else {
      OfIntAdd(r, m, n + 1);
      OfIntSucc(r, m + n);
      OfIntSucc(r, n);
      Use(r, x, OfInt(r, n), r.one);
      AddCancel(r, OfInt(r, m + n), r.add(x, OfInt(r, n)), r.one);
    }
  }

  lemma {:induction false} OfIntMul<T(!new)>(r: Ring<T>, m: int, n: int)
    requires IsRing(r)
    ensures OfInt(r, m * n) == r.mul(OfInt(r, m), OfInt(r, n))
    decreases if n < 0 then -n else n
  {
    var x := OfInt(r, m);
    if n == 0 {
      MulZero(r, x);
    } else if n > 0 {
      OfIntMul(r, m, n - 1);
      assert m * n == m * (n - 1) + m;
      OfIntAdd(r, m * (n - 1), m);
      Use(r, x, OfInt(r, n - 1), r.one);
    } else {
      OfIntMul(r, m, n + 1);
      assert m * (n + 1) == m * n + m;
      OfIntAdd(r, m * n, m);
      OfIntSucc(r, n);
      Use(r, x, OfInt(r, n), r.one);
      AddCancel(r, OfInt(r, m * n), r.mul(x, OfInt(r, n)), x);
    }
  }

  function Power<T>(r: Ring<T>, a: T, n: nat): T {
    if n == 0 then r.one else r.mul(a, Power(r, a, n - 1))
  }

  lemma {:induction false} PowerAdd<T(!new)>(r: Ring<T>, a: T, m: nat, n: nat)
    requires IsRing(r)
    ensures Power(r, a, m + n) == r.mul(Power(r, a, m), Power(r, a, n))
  {
    var y := Power(r, a, n);
    if m == 0 {
      Use(r, y, r.one, r.one);
      Use(r, r.one, y, y);
    } else {
      PowerAdd(r, a, m - 1, n);
      Use(r, a, Power(r, a, m - 1), y);
    }
  }

  lemma SubIsAddNeg<T(!new)>(r: Ring<T>, x: T, y: T)
    requires IsRing(r)
    ensures r.sub(x, y) == r.add(x, r.mul(OfInt(r, -1), y))
  {
    var n := OfInt(r, -1);
    assert n == r.sub(OfInt(r, 0), r.one);
    var ny := r.mul(n, y);
    Use(r, y, n, r.one); Use(r, n, y, y); Use(r, r.zero, r.one, r.one);
    MulZero(r, y);
    assert r.add(ny, y) == r.zero;
    Use(r, x, ny, y); Use(r, x, r.zero, r.zero);
    SubUnique(r, x, y, r.add(x, ny));
  }

  lemma CancelDifference<T(!new)>(r: Ring<T>, f: T, c: T, u: T)
    requires IsRing(r)
    ensures r.add(f, r.mul(c, r.sub(u, u))) == f
  {
    Use(r, u, u, r.zero); Use(r, r.zero, u, u);
    SubUnique(r, u, u, r.zero);
    MulZero(r, c);
    Use(r, f, r.zero, r.zero);
  }

  /** h maps the operations of r to those of s. */
  ghost predicate IsHom<S(!new), T>(r: Ring<S>, s: Ring<T>, h: S -> T) {
    && h(r.zero) == s.zero && h(r.one) == s.one
    && forall a: S, b: S {:trigger At(a, b, b)} :: HomLaws(r, s, h, a, b)
  }

  ghost predicate HomLaws<S, T>(r: Ring<S>, s: Ring<T>, h: S -> T, a: S, b: S) {
    && h(r.add(a, b)) == s.add(h(a), h(b))
    && h(r.sub(a, b)) == s.sub(h(a), h(b))
    && h(r.mul(a, b)) == s.mul(h(a), h(b))
  }

  lemma UseHom<S(!new), T>(r: Ring<S>, s: Ring<T>, h: S -> T, a: S, b: S)
    requires IsHom(r, s, h)
    ensures HomLaws(r, s, h, a, b)
  {
    assert At(a, b, b);
  }

  ghost predicate Injective<S(!new), T>(h: S -> T) {
    forall a: S, b: S :: h(a) == h(b) ==> a == b
  }

  /** Operations that an injective map carries to a commutative ring form a commutative ring. */
  lemma PulledBack<S(!new), T(!new)>(r: Ring<S>, s: Ring<T>, h: S -> T)
    requires IsRing(s) && IsHom(r, s, h) && Injective(h)
    ensures IsRing(r)
  {
    forall a: S, b: S, c: S ensures Laws(r, a, b, c) {
      Use(s, h(a), h(b), h(c));
      UseHom(r, s, h, a, b); UseHom(r, s, h, b, a); UseHom(r, s, h, b, c); UseHom(r, s, h, a, c);
      UseHom(r, s, h, r.add(a, b), c); UseHom(r, s, h, a, r.add(b, c));
      UseHom(r, s, h, r.mul(a, b), c); UseHom(r, s, h, a, r.mul(b, c));
      UseHom(r, s, h, r.mul(a, b), r.mul(a, c));
      UseHom(r, s, h, a, r.zero); UseHom(r, s, h, a, r.one);
      UseHom(r, s, h, r.sub(a, b), b);
    }
  }
}
