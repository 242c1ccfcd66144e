/** What double-and-add computes when the affine law is associative: the k-fold sum. */
module PointMultiples {
  import opened Rings
  import opened FieldLaws
  import opened AffineCurve

  /** The law is associative on the points of the curve and infinity. */
  ghost predicate Associates<T(!new)>(r: Ring<T>, b: T, inv: T -> T) {
    forall p: Point<T>, q: Point<T>, s: Point<T> {:trigger At(p, q, s)} ::
      Proper(r, b, p) && Proper(r, b, q) && Proper(r, b, s) ==>
        PointAdd(r, inv, PointAdd(r, inv, p, q), s) == PointAdd(r, inv, p, PointAdd(r, inv, q, s))
  }

  /** p + (p + ... (p + infinity)), k times */
  function Repeated<T(==)>(r: Ring<T>, inv: T -> T, p: Point<T>, k: nat): Point<T> {
    if k == 0 then Infinity(r) else PointAdd(r, inv, p, Repeated(r, inv, p, k - 1))
  }

  lemma {:induction false} RepeatedProper<T(!new)>(r: Ring<T>, b: T, inv: T -> T, p: Point<T>, k: nat)
    requires CurveSetting(r, b, inv) && Proper(r, b, p)
    ensures Proper(r, b, Repeated(r, inv, p, k))
  {
    if k > 0 {
      RepeatedProper(r, b, inv, p, k - 1);
      AddProper(r, b, inv, p, Repeated(r, inv, p, k - 1));
    }
  }

  lemma DoubleIsSum<T(!new)>(r: Ring<T>, b: T, inv: T -> T, p: Point<T>)
    requires CurveSetting(r, b, inv) && Proper(r, b, p)
    ensures PointDouble(r, inv, p) == PointAdd(r, inv, p, p) && Proper(r, b, PointDouble(r, inv, p))
  {
    DoubleProper(r, b, inv, p);
    if p != Infinity(r) { EqualOrOpposite(r, b, inv, p, p); }
  }

  // Sums of 2 p are sums of p.
  lemma {:induction false} RepeatedDouble<T(!new)>(r: Ring<T>, b: T, inv: T -> T, p: Point<T>, h: nat)
    requires CurveSetting(r, b, inv) && Associates(r, b, inv) && Proper(r, b, p)
    ensures Repeated(r, inv, PointDouble(r, inv, p), h) == Repeated(r, inv, p, 2 * h)
  {
    if h > 0 {
      RepeatedDouble(r, b, inv, p, h - 1);
      var rest := Repeated(r, inv, p, 2 * h - 2);
      RepeatedProper(r, b, inv, p, 2 * h - 2);
      DoubleIsSum(r, b, inv, p);
      assert At(p, p, rest);
      assert Repeated(r, inv, p, 2 * h - 1) == PointAdd(r, inv, p, rest);
    }
  }

  /** The loop adds the k-fold sum of p to its accumulator. */
  lemma {:induction false} DoubleAndAddIsRepeated<T(!new)>(r: Ring<T>, b: T, inv: T -> T, res: Point<T>, p: Point<T>,
      k: nat)
    requires CurveSetting(r, b, inv) && Associates(r, b, inv) && Proper(r, b, res) && Proper(r, b, p)
    ensures DoubleAndAdd(r, inv, res, p, k) == PointAdd(r, inv, res, Repeated(r, inv, p, k))
    decreases k
  {
    if k > 0 {
      var h, next := k / 2, if k % 2 == 1 then PointAdd(r, inv, res, p) else res;
      AddProper(r, b, inv, res, p);
      DoubleIsSum(r, b, inv, p);
      DoubleAndAddIsRepeated(r, b, inv, next, PointDouble(r, inv, p), h);
      RepeatedDouble(r, b, inv, p, h);
      RepeatedProper(r, b, inv, p, 2 * h);
      assert At(res, p, Repeated(r, inv, p, 2 * h));
    }
  }

  /** A curve without points of order two, with an associative law */
  ghost predicate AssociativeCurve<T(!new)>(r: Ring<T>, b: T, inv: T -> T) {
    CurveSetting(r, b, inv) && Associates(r, b, inv)
  }

  /** The m-fold and the n-fold sum add up to the (m + n)-fold sum. */
  lemma {:induction false} RepeatedAdd<T(!new)>(r: Ring<T>, b: T, inv: T -> T, p: Point<T>, m: nat, n: nat)
    requires AssociativeCurve(r, b, inv) && Proper(r, b, p)
    ensures PointAdd(r, inv, Repeated(r, inv, p, m), Repeated(r, inv, p, n)) == Repeated(r, inv, p, m + n)
  {
    RepeatedProper(r, b, inv, p, n);
    if m > 0 {
      RepeatedAdd(r, b, inv, p, m - 1, n);
      RepeatedProper(r, b, inv, p, m - 1);
      assert At(p, Repeated(r, inv, p, m - 1), Repeated(r, inv, p, n));
    }
  }

  lemma RepeatedTwice<T(!new)>(r: Ring<T>, b: T, inv: T -> T, p: Point<T>, n: nat)
    requires AssociativeCurve(r, b, inv) && Proper(r, b, p)
    ensures PointDouble(r, inv, Repeated(r, inv, p, n)) == Repeated(r, inv, p, 2 * n)
  {
    RepeatedProper(r, b, inv, p, n);
    DoubleIsSum(r, b, inv, Repeated(r, inv, p, n));
    RepeatedAdd(r, b, inv, p, n, n);
  }

  /** Multiples of multiples */
  lemma {:induction false} RepeatedMul<T(!new)>(r: Ring<T>, b: T, inv: T -> T, p: Point<T>, m: nat, n: nat)
    requires AssociativeCurve(r, b, inv) && Proper(r, b, p)
    ensures m * n >= 0 && Repeated(r, inv, Repeated(r, inv, p, m), n) == Repeated(r, inv, p, m * n)
    decreases n
  {
    if n > 0 {
      RepeatedMul(r, b, inv, p, m, n - 1);
      assert m * n == m + m * (n - 1);
      RepeatedAdd(r, b, inv, p, m, m * (n - 1));
    }
  }
}
