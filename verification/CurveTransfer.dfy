/** Injective homomorphisms of fields carry curves and their affine law along. */
module CurveTransfer {
  import opened Rings
  import opened Powers
  import opened FieldLaws
  import opened AffineCurve

  function MapPoint<S, T>(h: S -> T, p: Point<S>): Point<T> { Point(h(p.x), h(p.y)) }

  ghost predicate Embeds<S(!new), T(!new)>(r: Ring<S>, s: Ring<T>, h: S -> T) {
    IsField(r) && IsField(s) && IsHom(r, s, h) && Injective(h)
  }

  ghost function Inverse<T(!new)>(r: Ring<T>): T -> T { (a: T) => Inv(r, a) }

  lemma InverseInverts<T(!new)>(r: Ring<T>)
    requires IsField(r)
    ensures Inverts(r, Inverse(r))
  {
    forall a: T | a != r.zero ensures r.mul(a, Inverse(r)(a)) == r.one { InvWorks(r, a); }
  }

  lemma MapInverse<S(!new), T(!new)>(r: Ring<S>, s: Ring<T>, h: S -> T, a: S)
    requires Embeds(r, s, h)
    ensures h(Inv(r, a)) == Inv(s, h(a))
  {
    if a == r.zero {
      ZeroHasNoInverse(r); ZeroHasNoInverse(s);
    } else {
      InvWorks(r, a);
      UseHom(r, s, h, a, Inv(r, a));
      InvUnique(s, h(a), h(Inv(r, a)));
    }
  }

  lemma ZeroHasNoInverse<T(!new)>(r: Ring<T>)
    requires IsField(r)
    ensures Inv(r, r.zero) == r.zero
  {
    forall b: T ensures !Inverses(r, r.zero, b) { MulZero(r, b); }
  }

  lemma MapOnCurve<S(!new), T(!new)>(r: Ring<S>, s: Ring<T>, h: S -> T, b: S, p: Point<S>)
    requires Embeds(r, s, h)
    ensures OnCurve(s, h(b), MapPoint(h, p)) <==> OnCurve(r, b, p)
    ensures MapPoint(h, p) == Infinity(s) <==> p == Infinity(r)
  {
    var x2 := r.mul(p.x, p.x);
    UseHom(r, s, h, p.y, p.y); UseHom(r, s, h, p.x, p.x); UseHom(r, s, h, x2, p.x);
    UseHom(r, s, h, r.mul(x2, p.x), b);
  }

  lemma MapThird<S(!new), T(!new)>(r: Ring<S>, s: Ring<T>, h: S -> T, p: Point<S>, x2: S, m: S)
    requires Embeds(r, s, h)
    ensures MapPoint(h, ThirdPoint(r, p, x2, m)) == ThirdPoint(s, MapPoint(h, p), h(x2), h(m))
  {
    var x := r.sub(r.mul(m, m), r.add(p.x, x2));
    UseHom(r, s, h, m, m); UseHom(r, s, h, p.x, x2); UseHom(r, s, h, r.mul(m, m), r.add(p.x, x2));
    UseHom(r, s, h, p.x, x); UseHom(r, s, h, m, r.sub(p.x, x)); UseHom(r, s, h, r.mul(m, r.sub(p.x, x)), p.y);
  }

  lemma MapDouble<S(!new), T(!new)>(r: Ring<S>, s: Ring<T>, h: S -> T, p: Point<S>)
    requires Embeds(r, s, h)
    ensures MapPoint(h, PointDouble(r, Inverse(r), p)) == PointDouble(s, Inverse(s), MapPoint(h, p))
  {
    if p != Infinity(r) {
      var x2, d := r.mul(p.x, p.x), r.add(p.y, p.y);
      var n := r.mul(OfInt(r, 3), x2);
      HomOfInt(r, s, h, 3);
      UseHom(r, s, h, p.x, p.x); UseHom(r, s, h, OfInt(r, 3), x2); UseHom(r, s, h, p.y, p.y);
      MapInverse(r, s, h, d);
      UseHom(r, s, h, n, Inv(r, d));
      MapThird(r, s, h, p, p.x, r.mul(n, Inv(r, d)));
      assert MapPoint(h, p) != Infinity(s);
    }
  }

  lemma MapAdd<S(!new), T(!new)>(r: Ring<S>, s: Ring<T>, h: S -> T, p: Point<S>, q: Point<S>)
    requires Embeds(r, s, h)
    ensures MapPoint(h, PointAdd(r, Inverse(r), p, q)) == PointAdd(s, Inverse(s), MapPoint(h, p), MapPoint(h, q))
  {
    assert p != Infinity(r) ==> MapPoint(h, p) != Infinity(s);
    assert q != Infinity(r) ==> MapPoint(h, q) != Infinity(s);
    UseHom(r, s, h, r.zero, p.y);
    MapDouble(r, s, h, p);
    var n, d := r.sub(q.y, p.y), r.sub(q.x, p.x);
    UseHom(r, s, h, q.y, p.y); UseHom(r, s, h, q.x, p.x);
    MapInverse(r, s, h, d);
    UseHom(r, s, h, n, Inv(r, d));
    MapThird(r, s, h, p, q.x, r.mul(n, Inv(r, d)));
  }

  /** The affine loop on one side is the image of the loop on the other side. */
  lemma {:induction false} MapMultiply<S(!new), T(!new)>(r: Ring<S>, s: Ring<T>, h: S -> T,
                                                         res: Point<S>, p: Point<S>, k: nat)
    requires Embeds(r, s, h)
    ensures MapPoint(h, DoubleAndAdd(r, Inverse(r), res, p, k)) ==
            DoubleAndAdd(s, Inverse(s), MapPoint(h, res), MapPoint(h, p), k)
    decreases k
  {
    if k > 0 {
      MapAdd(r, s, h, res, p);
      MapDouble(r, s, h, p);
      var next := if k % 2 == 1 then PointAdd(r, Inverse(r), res, p) else res;
      MapMultiply(r, s, h, next, PointDouble(r, Inverse(r), p), k / 2);
    }
  }

  lemma MapNoTwoTorsion<S(!new), T(!new)>(r: Ring<S>, s: Ring<T>, h: S -> T, g: T -> S, b: S)
    requires Embeds(r, s, h) && (forall a: T :: h(g(a)) == a) && NoTwoTorsion(r, b)
    ensures NoTwoTorsion(s, h(b))
  {
    forall x: T ensures s.add(s.mul(s.mul(x, x), x), h(b)) != s.zero {
      var m := g(x);
      var m2 := r.mul(m, m);
      UseHom(r, s, h, m, m); UseHom(r, s, h, m2, m); UseHom(r, s, h, r.mul(m2, m), b);
      assert h(m) == x && r.add(r.mul(m2, m), b) != r.zero;
    }
  }

  /** The loop does not depend on which inversion is used. */
  lemma {:induction false} SameMultiply<T(!new)>(r: Ring<T>, b: T, inv: T -> T, inv': T -> T, res: Point<T>,
      p: Point<T>, k: nat)
    requires CurveSetting(r, b, inv) && Inverts(r, inv') && Proper(r, b, res) && Proper(r, b, p)
    ensures DoubleAndAdd(r, inv, res, p, k) == DoubleAndAdd(r, inv', res, p, k)
    decreases k
  {
    if k > 0 {
      SameLaw(r, b, inv, inv', res, p);
      SameLaw(r, b, inv, inv', p, p);
      AddProper(r, b, inv, res, p);
      DoubleProper(r, b, inv, p);
      var next := if k % 2 == 1 then PointAdd(r, inv, res, p) else res;
      SameMultiply(r, b, inv, inv', next, PointDouble(r, inv, p), k / 2);
    }
  }
}
