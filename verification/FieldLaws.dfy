/** Fields: commutative rings in which every nonzero element has an inverse. */
module FieldLaws {
  import opened Rings
  import opened Powers

  ghost predicate IsField<T(!new)>(r: Ring<T>) {
    && IsRing(r) && r.one != r.zero
    && forall a: T {:trigger HasInverse(r, a)} :: a != r.zero ==> HasInverse(r, a)
  }

  ghost predicate HasInverse<T(!new)>(r: Ring<T>, a: T) { exists b: T :: Inverses(r, a, b) }

  /** The inverse of a, and zero for zero. */
  ghost function Inv<T(!new)>(r: Ring<T>, a: T): T {
    if HasInverse(r, a) then var b :| Inverses(r, a, b); b else r.zero
  }

  lemma InvWorks<T(!new)>(r: Ring<T>, a: T)
    requires IsField(r)
    ensures a != r.zero ==> r.mul(a, Inv(r, a)) == r.one && r.mul(Inv(r, a), a) == r.one && Inv(r, a) != r.zero
  {
    if a != r.zero {
      assert HasInverse(r, a);
      Use(r, a, Inv(r, a), r.one);
      MulZero(r, a);
    }
  }

  lemma InvUnique<T(!new)>(r: Ring<T>, a: T, b: T)
    requires IsRing(r) && r.mul(a, b) == r.one
    ensures b == Inv(r, a)
  {
    assert Inverses(r, a, b);
    InverseUnique(r, a, b, Inv(r, a));
  }

  lemma NoZeroDivisors<T(!new)>(r: Ring<T>, a: T, b: T)
    requires IsField(r) && r.mul(a, b) == r.zero
    ensures a == r.zero || b == r.zero
  {
    if a != r.zero {
      var i := Inv(r, a);
      InvWorks(r, a);
      Use(r, i, a, b); MulZero(r, i); OneIsUnit(r, b);
    }
  }

  lemma CancelFactor<T(!new)>(r: Ring<T>, a: T, x: T, y: T)
    requires IsField(r) && a != r.zero
    ensures r.mul(a, x) == r.mul(a, y) ==> x == y
  {
    InvWorks(r, a);
    UnitCancel(r, a, Inv(r, a), x, y);
  }

  lemma NonzeroProduct<T(!new)>(r: Ring<T>, a: T, b: T)
    requires IsField(r)
    ensures r.mul(a, b) != r.zero <==> a != r.zero && b != r.zero
  {
    MulZero(r, a); MulZero(r, b);
    if r.mul(a, b) == r.zero { NoZeroDivisors(r, a, b); }
  }

  lemma DifferenceIsZero<T(!new)>(r: Ring<T>, a: T, b: T)
    requires IsRing(r)
    ensures r.sub(a, b) == r.zero <==> a == b
  {
    Use(r, a, b, b); Use(r, r.zero, b, b); Use(r, b, r.zero, r.zero);
    SubUnique(r, b, b, r.zero);
  }

  lemma OrderOfUnits<T(!new)>(s: Ring<T>, a: T, q: nat)
    requires IsField(s) && a != s.zero && q > 0 && Power(s, a, q) == a
    ensures Power(s, a, q - 1) == s.one
  {
    OneIsUnit(s, a);
    CancelFactor(s, a, Power(s, a, q - 1), s.one);
  }

  lemma NonzeroPower<T(!new)>(s: Ring<T>, x: T, n: nat)
    requires IsRing(s) && n > 0 && Power(s, x, n) != s.zero
    ensures x != s.zero
  {
    MulZero(s, Power(s, x, n - 1));
  }
}
