/** Quadratic and cubic extensions of a commutative ring are commutative rings. */
module Extensions {
  import opened Rings
  import opened Solver

  datatype Quad<T> = Quad(c0: T, c1: T)
  datatype Cubic<T> = Cubic(c0: T, c1: T, c2: T)

  // ---- a + b s with s^2 = k ------------------------------------------------------

  function QAdd<T>(r: Ring<T>, a: Quad<T>, b: Quad<T>): Quad<T> { Quad(r.add(a.c0, b.c0), r.add(a.c1, b.c1)) }
  function QSub<T>(r: Ring<T>, a: Quad<T>, b: Quad<T>): Quad<T> { Quad(r.sub(a.c0, b.c0), r.sub(a.c1, b.c1)) }

  /** Schoolbook product with s^2 = k. */
  function QMul<T>(r: Ring<T>, k: T, a: Quad<T>, b: Quad<T>): Quad<T> {
    Quad(r.add(r.mul(a.c0, b.c0), r.mul(k, r.mul(a.c1, b.c1))),
         r.add(r.mul(a.c0, b.c1), r.mul(a.c1, b.c0)))
  }

  function QuadRing<T>(r: Ring<T>, k: T): Ring<Quad<T>> {
    Ring(Quad(r.zero, r.zero), Quad(r.one, r.zero),
         (a: Quad<T>, b: Quad<T>) => QAdd(r, a, b),
         (a: Quad<T>, b: Quad<T>) => QSub(r, a, b),
         (a: Quad<T>, b: Quad<T>) => QMul(r, k, a, b))
  }

  ghost const QUAD_ASSOC_0 :=
    Equation(Add(Mul(Add(Mul(V(0), V(2)), Mul(V(6), Mul(V(1), V(3)))), V(4)), Mul(V(6), Mul(Add(Mul(V(0), V(3)),
    Mul(V(1), V(2))), V(5)))), Add(Mul(V(0), Add(Mul(V(2), V(4)), Mul(V(6), Mul(V(3), V(5))))), Mul(V(6), Mul(V(1),
    Add(Mul(V(2), V(5)), Mul(V(3), V(4)))))))

  lemma QuadAssoc0() ensures Valid(QUAD_ASSOC_0) {}

  ghost const QUAD_ASSOC_1 :=
    Equation(Add(Mul(Add(Mul(V(0), V(2)), Mul(V(6), Mul(V(1), V(3)))), V(5)), Mul(Add(Mul(V(0), V(3)), Mul(V(1),
    V(2))), V(4))), Add(Mul(V(0), Add(Mul(V(2), V(5)), Mul(V(3), V(4)))), Mul(V(1), Add(Mul(V(2), V(4)), Mul(V(6),
    Mul(V(3), V(5)))))))

  lemma QuadAssoc1() ensures Valid(QUAD_ASSOC_1) {}

  lemma QMulAssociates<T(!new)>(r: Ring<T>, k: T, a: Quad<T>, b: Quad<T>, c: Quad<T>)
    requires IsRing(r)
    ensures QMul(r, k, QMul(r, k, a, b), c) == QMul(r, k, a, QMul(r, k, b, c))
  {
    var env := [a.c0, a.c1, b.c0, b.c1, c.c0, c.c1, k];
    QuadAssoc0(); Apply(r, QUAD_ASSOC_0, env);
    QuadAssoc1(); Apply(r, QUAD_ASSOC_1, env);
  }

  ghost const QUAD_DISTR_0 :=
    Equation(Add(Mul(V(0), Add(V(2), V(4))), Mul(V(6), Mul(V(1), Add(V(3), V(5))))), Add(Add(Mul(V(0), V(2)),
    Mul(V(6), Mul(V(1), V(3)))), Add(Mul(V(0), V(4)), Mul(V(6), Mul(V(1), V(5))))))

  lemma QuadDistr0() ensures Valid(QUAD_DISTR_0) {}

  ghost const QUAD_DISTR_1 :=
    Equation(Add(Mul(V(0), Add(V(3), V(5))), Mul(V(1), Add(V(2), V(4)))), Add(Add(Mul(V(0), V(3)), Mul(V(1), V(2))),
    Add(Mul(V(0), V(5)), Mul(V(1), V(4)))))

  lemma QuadDistr1() ensures Valid(QUAD_DISTR_1) {}

  lemma QMulDistributes<T(!new)>(r: Ring<T>, k: T, a: Quad<T>, b: Quad<T>, c: Quad<T>)
    requires IsRing(r)
    ensures QMul(r, k, a, QAdd(r, b, c)) == QAdd(r, QMul(r, k, a, b), QMul(r, k, a, c))
  {
    var env := [a.c0, a.c1, b.c0, b.c1, c.c0, c.c1, k];
    QuadDistr0(); Apply(r, QUAD_DISTR_0, env);
    QuadDistr1(); Apply(r, QUAD_DISTR_1, env);
  }

  lemma QMulCommutes<T(!new)>(r: Ring<T>, k: T, a: Quad<T>, b: Quad<T>)
    requires IsRing(r)
    ensures QMul(r, k, a, b) == QMul(r, k, b, a)
    ensures QMul(r, k, a, Quad(r.one, r.zero)) == a
  {
    Use(r, a.c0, b.c0, b.c0); Use(r, a.c1, b.c1, b.c1); Use(r, a.c0, b.c1, b.c1); Use(r, a.c1, b.c0, b.c0);
    Use(r, r.mul(a.c0, b.c1), r.mul(a.c1, b.c0), k);
    MulZero(r, a.c0); MulZero(r, a.c1); MulZero(r, k);
    Use(r, a.c0, r.one, r.one); Use(r, a.c1, r.zero, r.zero); Use(r, r.zero, a.c1, a.c1);
  }

  lemma QuadIsRing<T(!new)>(r: Ring<T>, k: T)
    requires IsRing(r)
    ensures IsRing(QuadRing(r, k))
  {
    forall a: Quad<T>, b: Quad<T>, c: Quad<T> ensures Laws(QuadRing(r, k), a, b, c) {
      Use(r, a.c0, b.c0, c.c0); Use(r, a.c1, b.c1, c.c1);
      QMulAssociates(r, k, a, b, c);
      QMulDistributes(r, k, a, b, c);
      QMulCommutes(r, k, a, b);
    }
  }

  // ---- a + b v + c v^2 with v^3 = k ------------------------------------------------

  function CAdd<T>(r: Ring<T>, a: Cubic<T>, b: Cubic<T>): Cubic<T> {
    Cubic(r.add(a.c0, b.c0), r.add(a.c1, b.c1), r.add(a.c2, b.c2))
  }

  function CSub<T>(r: Ring<T>, a: Cubic<T>, b: Cubic<T>): Cubic<T> {
    Cubic(r.sub(a.c0, b.c0), r.sub(a.c1, b.c1), r.sub(a.c2, b.c2))
  }

  /** Schoolbook product with v^3 = k. */
  function CMul<T>(r: Ring<T>, k: T, a: Cubic<T>, b: Cubic<T>): Cubic<T> {
    Cubic(r.add(r.mul(a.c0, b.c0), r.mul(k, r.add(r.mul(a.c1, b.c2), r.mul(a.c2, b.c1)))),
          r.add(r.add(r.mul(a.c0, b.c1), r.mul(a.c1, b.c0)), r.mul(k, r.mul(a.c2, b.c2))),
          r.add(r.add(r.mul(a.c0, b.c2), r.mul(a.c1, b.c1)), r.mul(a.c2, b.c0)))
  }

  function CubicRing<T>(r: Ring<T>, k: T): Ring<Cubic<T>> {
    Ring(Cubic(r.zero, r.zero, r.zero), Cubic(r.one, r.zero, r.zero),
         (a: Cubic<T>, b: Cubic<T>) => CAdd(r, a, b),
         (a: Cubic<T>, b: Cubic<T>) => CSub(r, a, b),
         (a: Cubic<T>, b: Cubic<T>) => CMul(r, k, a, b))
  }

  ghost const CUBIC_ASSOC_0 :=
    Equation(Add(Mul(Add(Mul(V(0), V(3)), Mul(V(9), Add(Mul(V(1), V(5)), Mul(V(2), V(4))))), V(6)), Mul(V(9),
    Add(Mul(Add(Add(Mul(V(0), V(4)), Mul(V(1), V(3))), Mul(V(9), Mul(V(2), V(5)))), V(8)), Mul(Add(Add(Mul(V(0),
    V(5)), Mul(V(1), V(4))), Mul(V(2), V(3))), V(7))))), Add(Mul(V(0), Add(Mul(V(3), V(6)), Mul(V(9), Add(Mul(V(4),
    V(8)), Mul(V(5), V(7)))))), Mul(V(9), Add(Mul(V(1), Add(Add(Mul(V(3), V(8)), Mul(V(4), V(7))), Mul(V(5),
    V(6)))), Mul(V(2), Add(Add(Mul(V(3), V(7)), Mul(V(4), V(6))), Mul(V(9), Mul(V(5), V(8)))))))))

  lemma CubicAssoc0() ensures Valid(CUBIC_ASSOC_0) {}

  lemma CMulAssociates0<T(!new)>(r: Ring<T>, k: T, a: Cubic<T>, b: Cubic<T>, c: Cubic<T>)
    requires IsRing(r)
    ensures CMul(r, k, CMul(r, k, a, b), c).c0 == CMul(r, k, a, CMul(r, k, b, c)).c0
  {
    CubicAssoc0();
    Apply(r, CUBIC_ASSOC_0, [a.c0, a.c1, a.c2, b.c0, b.c1, b.c2, c.c0, c.c1, c.c2, k]);
  }

  ghost const CUBIC_ASSOC_1 :=
    Equation(Add(Add(Mul(Add(Mul(V(0), V(3)), Mul(V(9), Add(Mul(V(1), V(5)), Mul(V(2), V(4))))), V(7)),
    Mul(Add(Add(Mul(V(0), V(4)), Mul(V(1), V(3))), Mul(V(9), Mul(V(2), V(5)))), V(6))), Mul(V(9),
    Mul(Add(Add(Mul(V(0), V(5)), Mul(V(1), V(4))), Mul(V(2), V(3))), V(8)))), Add(Add(Mul(V(0), Add(Add(Mul(V(3),
    V(7)), Mul(V(4), V(6))), Mul(V(9), Mul(V(5), V(8))))), Mul(V(1), Add(Mul(V(3), V(6)), Mul(V(9), Add(Mul(V(4),
    V(8)), Mul(V(5), V(7))))))), Mul(V(9), Mul(V(2), Add(Add(Mul(V(3), V(8)), Mul(V(4), V(7))), Mul(V(5), V(6)))))))

  lemma CubicAssoc1() ensures Valid(CUBIC_ASSOC_1) {}

  lemma CMulAssociates1<T(!new)>(r: Ring<T>, k: T, a: Cubic<T>, b: Cubic<T>, c: Cubic<T>)
    requires IsRing(r)
    ensures CMul(r, k, CMul(r, k, a, b), c).c1 == CMul(r, k, a, CMul(r, k, b, c)).c1
  {
    CubicAssoc1();
    Apply(r, CUBIC_ASSOC_1, [a.c0, a.c1, a.c2, b.c0, b.c1, b.c2, c.c0, c.c1, c.c2, k]);
  }

  ghost const CUBIC_ASSOC_2 :=
    Equation(Add(Add(Mul(Add(Mul(V(0), V(3)), Mul(V(9), Add(Mul(V(1), V(5)), Mul(V(2), V(4))))), V(8)),
    Mul(Add(Add(Mul(V(0), V(4)), Mul(V(1), V(3))), Mul(V(9), Mul(V(2), V(5)))), V(7))), Mul(Add(Add(Mul(V(0), V(5)),
    Mul(V(1), V(4))), Mul(V(2), V(3))), V(6))), Add(Add(Mul(V(0), Add(Add(Mul(V(3), V(8)), Mul(V(4), V(7))),
    Mul(V(5), V(6)))), Mul(V(1), Add(Add(Mul(V(3), V(7)), Mul(V(4), V(6))), Mul(V(9), Mul(V(5), V(8)))))), Mul(V(2),
    Add(Mul(V(3), V(6)), Mul(V(9), Add(Mul(V(4), V(8)), Mul(V(5), V(7))))))))

  lemma CubicAssoc2() ensures Valid(CUBIC_ASSOC_2) {}

  lemma CMulAssociates2<T(!new)>(r: Ring<T>, k: T, a: Cubic<T>, b: Cubic<T>, c: Cubic<T>)
    requires IsRing(r)
    ensures CMul(r, k, CMul(r, k, a, b), c).c2 == CMul(r, k, a, CMul(r, k, b, c)).c2
  {
    CubicAssoc2();
    Apply(r, CUBIC_ASSOC_2, [a.c0, a.c1, a.c2, b.c0, b.c1, b.c2, c.c0, c.c1, c.c2, k]);
  }

  ghost const CUBIC_DISTR_0 :=
    Equation(Add(Mul(V(0), Add(V(3), V(6))), Mul(V(9), Add(Mul(V(1), Add(V(5), V(8))), Mul(V(2), Add(V(4),
    V(7)))))), Add(Add(Mul(V(0), V(3)), Mul(V(9), Add(Mul(V(1), V(5)), Mul(V(2), V(4))))), Add(Mul(V(0), V(6)),
    Mul(V(9), Add(Mul(V(1), V(8)), Mul(V(2), V(7)))))))

  lemma CubicDistr0() ensures Valid(CUBIC_DISTR_0) {}

  ghost const CUBIC_DISTR_1 :=
    Equation(Add(Add(Mul(V(0), Add(V(4), V(7))), Mul(V(1), Add(V(3), V(6)))), Mul(V(9), Mul(V(2), Add(V(5),
    V(8))))), Add(Add(Add(Mul(V(0), V(4)), Mul(V(1), V(3))), Mul(V(9), Mul(V(2), V(5)))), Add(Add(Mul(V(0), V(7)),
    Mul(V(1), V(6))), Mul(V(9), Mul(V(2), V(8))))))

  lemma CubicDistr1() ensures Valid(CUBIC_DISTR_1) {}

  ghost const CUBIC_DISTR_2 :=
    Equation(Add(Add(Mul(V(0), Add(V(5), V(8))), Mul(V(1), Add(V(4), V(7)))), Mul(V(2), Add(V(3), V(6)))),
    Add(Add(Add(Mul(V(0), V(5)), Mul(V(1), V(4))), Mul(V(2), V(3))), Add(Add(Mul(V(0), V(8)), Mul(V(1), V(7))),
    Mul(V(2), V(6)))))

  lemma CubicDistr2() ensures Valid(CUBIC_DISTR_2) {}

  lemma CMulDistributes<T(!new)>(r: Ring<T>, k: T, a: Cubic<T>, b: Cubic<T>, c: Cubic<T>)
    requires IsRing(r)
    ensures CMul(r, k, a, CAdd(r, b, c)) == CAdd(r, CMul(r, k, a, b), CMul(r, k, a, c))
  {
    var env := [a.c0, a.c1, a.c2, b.c0, b.c1, b.c2, c.c0, c.c1, c.c2, k];
    CubicDistr0(); Apply(r, CUBIC_DISTR_0, env);
    CubicDistr1(); Apply(r, CUBIC_DISTR_1, env);
    CubicDistr2(); Apply(r, CUBIC_DISTR_2, env);
  }

  lemma CMulCommutes<T(!new)>(r: Ring<T>, k: T, a: Cubic<T>, b: Cubic<T>)
    requires IsRing(r)
    ensures CMul(r, k, a, b) == CMul(r, k, b, a)
  {
    Use(r, a.c0, b.c0, k); Use(r, a.c1, b.c1, k); Use(r, a.c2, b.c2, k);
    Use(r, a.c0, b.c1, k); Use(r, a.c1, b.c0, k); Use(r, a.c0, b.c2, k);
    Use(r, a.c2, b.c0, k); Use(r, a.c1, b.c2, k); Use(r, a.c2, b.c1, k);
    Use(r, r.mul(a.c0, b.c1), r.mul(a.c1, b.c0), k);
    Use(r, r.mul(a.c1, b.c2), r.mul(a.c2, b.c1), k);
    Use(r, r.mul(a.c0, b.c2), r.mul(a.c1, b.c1), r.mul(a.c2, b.c0));
    Use(r, r.mul(a.c1, b.c1), r.mul(a.c2, b.c0), k);
    Use(r, r.mul(a.c0, b.c2), r.add(r.mul(a.c2, b.c0), r.mul(a.c1, b.c1)), k);
  }

  lemma CMulOne<T(!new)>(r: Ring<T>, k: T, a: Cubic<T>)
    requires IsRing(r)
    ensures CMul(r, k, a, Cubic(r.one, r.zero, r.zero)) == a
  {
    var z := r.zero;
    MulZero(r, a.c0); MulZero(r, a.c1); MulZero(r, a.c2); MulZero(r, k);
    Use(r, a.c0, r.one, k); Use(r, a.c1, r.one, k); Use(r, a.c2, r.one, k);
    Use(r, z, z, z); Use(r, z, a.c1, k); Use(r, z, a.c2, k);
  }

  lemma CubicIsRing<T(!new)>(r: Ring<T>, k: T)
    requires IsRing(r)
    ensures IsRing(CubicRing(r, k))
  {
    forall a: Cubic<T>, b: Cubic<T>, c: Cubic<T> ensures Laws(CubicRing(r, k), a, b, c) {
      Use(r, a.c0, b.c0, c.c0); Use(r, a.c1, b.c1, c.c1); Use(r, a.c2, b.c2, c.c2);
      CMulAssociates0(r, k, a, b, c); CMulAssociates1(r, k, a, b, c); CMulAssociates2(r, k, a, b, c);
      CMulDistributes(r, k, a, b, c);
      CMulCommutes(r, k, a, b);
      CMulOne(r, k, a);
    }
  }
}
