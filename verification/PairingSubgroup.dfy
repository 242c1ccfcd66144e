/** For points of the subgroup that pairings are defined on, the run of the Miller loop meets no vertical chord. */
module PairingSubgroup {
  import opened BnParameter
  import opened Rings
  import opened Powers
  import opened FieldLaws
  import opened Extensions
  import opened Tower
  import opened FrobeniusMaps
  import opened TowerFrobenius
  import opened TowerOperations
  import opened AffineCurve
  import opened CurveTransfer
  import opened PointMultiples
  import opened MillerSteps
  import opened MillerRuns
  import opened MillerTower
  import opened MillerValue
  import opened Untwisting
  import opened TowerUntwisting

  ghost predicate FiniteMultiple<S>(s: Ring<S>, inv: S -> S, q: Point<S>, n: nat) {
    Repeated(s, inv, q, n) != Infinity(s)
  }

  /** The first multiple of q that is infinity is the n-th. */
  ghost predicate HasOrder<S>(s: Ring<S>, inv: S -> S, q: Point<S>, n: nat) {
    n > 0 && Repeated(s, inv, q, n) == Infinity(s) && forall j: nat :: 0 < j < n ==> FiniteMultiple(s, inv, q, j)
  }

  // p + q = q only for p infinity
  lemma SumCancels<S(!new)>(s: Ring<S>, b: S, inv: S -> S, p: Point<S>, q: Point<S>)
    requires AssociativeCurve(s, b, inv) && Proper(s, b, p) && OnCurve(s, b, q) && PointAdd(s, inv, p, q) == q
    ensures p == Infinity(s)
  {
    OppositeCancels(s, b, inv, q);
    AddCommutes(s, b, inv, Negated(s, q), q);
    assert At(p, q, Negated(s, q));
  }

  // v = d + u with u + v and d other than infinity
  lemma NoSameAbscissa<S(!new)>(s: Ring<S>, b: S, inv: S -> S, u: Point<S>, v: Point<S>, d: Point<S>)
    requires AssociativeCurve(s, b, inv) && OnCurve(s, b, u) && OnCurve(s, b, v) && Proper(s, b, d)
    requires PointAdd(s, inv, d, u) == v && PointAdd(s, inv, u, v) != Infinity(s) && d != Infinity(s)
    ensures u.x != v.x
  {
    if u.x == v.x {
      EqualOrOpposite(s, b, inv, u, v);
      SumCancels(s, b, inv, d, u);
    }
  }

  // Sums of multiples below the order
  lemma SumBelow<S(!new)>(s: Ring<S>, b: S, inv: S -> S, q: Point<S>, n: nat, i: nat, j: nat)
    requires AssociativeCurve(s, b, inv) && OnCurve(s, b, q) && HasOrder(s, inv, q, n) && i > 0 && i + j < n
    ensures OnCurve(s, b, Repeated(s, inv, q, i)) && Repeated(s, inv, q, i) != Infinity(s)
    ensures PointAdd(s, inv, Repeated(s, inv, q, i), Repeated(s, inv, q, j)) == Repeated(s, inv, q, i + j)
    ensures Repeated(s, inv, q, i + j) != Infinity(s)
  {
    assert FiniteMultiple(s, inv, q, i) && FiniteMultiple(s, inv, q, i + j);
    RepeatedProper(s, b, inv, q, i);
    RepeatedAdd(s, b, inv, q, i, j);
  }

  /** Below the order, multiples have different abscissas unless they are equal or opposite. */
  lemma AbscissasDiffer<S(!new)>(s: Ring<S>, b: S, inv: S -> S, q: Point<S>, n: nat, i: nat, j: nat)
    requires AssociativeCurve(s, b, inv) && OnCurve(s, b, q) && HasOrder(s, inv, q, n) && 0 < i < j && i + j < n
    ensures OnCurve(s, b, Repeated(s, inv, q, i)) && OnCurve(s, b, Repeated(s, inv, q, j))
    ensures Repeated(s, inv, q, i).x != Repeated(s, inv, q, j).x
  {
    SumBelow(s, b, inv, q, n, j - i, i);
    SumBelow(s, b, inv, q, n, i, j);
    SumBelow(s, b, inv, q, n, j, i);
    NoSameAbscissa(s, b, inv, Repeated(s, inv, q, i), Repeated(s, inv, q, j), Repeated(s, inv, q, j - i));
  }

  ghost predicate SignedDigits(digits: seq<int>) {
    |digits| > 0 && digits[|digits| - 1] == 1 && forall j: int :: 0 <= j < |digits| ==> -1 <= digits[j] <= 1
  }

  /** The run leads to the v-fold sum of q, v the value of the digits, and from there by q1 and q2. */
  lemma RunReaches<S(!new), W(!new)>(m: Setup<S, W>, inv: S -> S, q: Point<S>, q1: Point<S>, q2: Point<S>,
      digits: seq<int>, v: nat)
    requires AssociativeCurve(m.s, m.b, inv) && OnCurve(m.s, m.b, q) && SignedDigits(digits) && IsRing(m.w)
    requires v == SignedValue(digits, 0)
    ensures AffineValue(m, inv, q, q1, q2, digits).a ==
            PointAdd(m.s, inv, PointAdd(m.s, inv, Repeated(m.s, inv, q, v), q1), q2)
  {
    ReachedIsMultiple(m.s, m.b, inv, q, digits, 0);
    ValueIsProduct(m, inv, q, q1, q2, digits);
  }

  // The leading digits denote at most about half of the whole.
  lemma {:induction false} LeadingValue(digits: seq<int>, i: nat)
    requires SignedDigits(digits) && 0 < i < |digits|
    ensures 1 <= SignedValue(digits, i) && 2 * SignedValue(digits, i) <= SignedValue(digits, 0) + 1
    decreases i
  {
    PositiveValue(digits, i);
    PositiveValue(digits, i - 1);
    if i > 1 { LeadingValue(digits, i - 1); }
  }

  lemma {:induction false} PositiveValue(digits: seq<int>, i: nat)
    requires SignedDigits(digits) && i < |digits|
    ensures SignedValue(digits, i) >= 1
    decreases |digits| - i
  {
    if i < |digits| - 1 { PositiveValue(digits, i + 1); }
  }

  lemma TurnIsRegular<S(!new)>(s: Ring<S>, b: S, inv: S -> S, q: Point<S>, digits: seq<int>, n: nat, i: nat)
    requires AssociativeCurve(s, b, inv) && OnCurve(s, b, q) && HasOrder(s, inv, q, n) && SignedDigits(digits)
    requires SignedValue(digits, 0) + 2 < n && 0 < i < |digits|
    ensures PointDouble(s, inv, Reached(s, inv, q, digits, i)).x != q.x
  {
    var v := SignedValue(digits, i);
    LeadingValue(digits, i);
    ReachedIsMultiple(s, b, inv, q, digits, i);
    RepeatedTwice(s, b, inv, q, v);
    TopDigit(s, b, inv, q, [1]);
    AbscissasDiffer(s, b, inv, q, n, 1, 2 * v);
  }

  lemma {:induction false} DigitsAreRegular<S(!new), W(!new)>(m: Setup<S, W>, inv: S -> S, q: Point<S>,
      digits: seq<int>, i: nat, st: State<S, W>)
    requires forall j: nat :: 0 < j < |digits| ==> PointDouble(m.s, inv, Reached(m.s, inv, q, digits, j)).x != q.x
    requires i < |digits| && st.a == Reached(m.s, inv, q, digits, i)
    ensures Regular(m, inv, q, digits, i, st)
  {
    if i > 0 { DigitsAreRegular(m, inv, q, digits, i - 1, DigitStep(m, inv, q, digits[i - 1], st)); }
  }

  lemma LastChords<S(!new)>(s: Ring<S>, b: S, inv: S -> S, q: Point<S>, n: nat, v: nat, k: nat, l: nat)
    requires AssociativeCurve(s, b, inv) && OnCurve(s, b, q) && HasOrder(s, inv, q, n)
    requires 0 < v < k && v + k < l && v + k + l < n
    ensures Repeated(s, inv, q, v).x != Repeated(s, inv, q, k).x
    ensures PointAdd(s, inv, Repeated(s, inv, q, v), Repeated(s, inv, q, k)).x != Repeated(s, inv, q, l).x
  {
    AbscissasDiffer(s, b, inv, q, n, v, k);
    RepeatedAdd(s, b, inv, q, v, k);
    AbscissasDiffer(s, b, inv, q, n, v + k, l);
  }

  /** With q of order above the value v of the digits, no chord over the digits is vertical, and with q1 = k q and
      q2 = -(l q) and the sums of the multiples below the order, neither is a last chord. */
  lemma RunIsRegular<S(!new), W(!new)>(m: Setup<S, W>, inv: S -> S, q: Point<S>, q1: Point<S>, q2: Point<S>,
      digits: seq<int>, n: nat, k: nat, l: nat)
    requires AssociativeCurve(m.s, m.b, inv) && OnCurve(m.s, m.b, q) && HasOrder(m.s, inv, q, n) && SignedDigits(digits)
    requires IsRing(m.w) && q1 == Repeated(m.s, inv, q, k) && q2 == Negated(m.s, Repeated(m.s, inv, q, l))
    requires var v := SignedValue(digits, 0); 0 < v < k && v + k < l && v + k + l < n && v + 2 < n
    ensures RegularInput(m, inv, q, q1, q2, digits)
  {
    var s, v, top := m.s, SignedValue(digits, 0), |digits| - 1;
    forall i: nat | 0 < i < |digits| ensures PointDouble(s, inv, Reached(s, inv, q, digits, i)).x != q.x {
      TurnIsRegular(s, m.b, inv, q, digits, n, i);
    }
    DigitsAreRegular(m, inv, q, digits, top, Start(m, q));
    RunInClosedForm(m, inv, q, digits, top, Start(m, q));
    ReachedIsMultiple(s, m.b, inv, q, digits, 0);
    LastChords(s, m.b, inv, q, n, v, k, l);
  }

  // ---- the Frobenius images as multiples ---------------------------------------------------------------------

  lemma {:induction false} RepeatedUntwists<S(!new), W(!new)>(s: Ring<S>, w: Ring<W>, e: S -> W, g: W, q: Point<S>,
      n: nat)
    requires UntwistSetting(s, w, e, g)
    ensures Untwist(w, e, g, Repeated(s, Inverse(s), q, n)) == Repeated(w, Inverse(w), Untwist(w, e, g, q), n)
  {
    if n == 0 {
      MulZero(w, w.mul(g, g)); MulZero(w, w.mul(w.mul(g, g), g));
    } else {
      RepeatedUntwists(s, w, e, g, q, n - 1);
      UntwistIsHom(s, w, e, g, q, Repeated(s, Inverse(s), q, n - 1));
    }
  }

  // Q1 is untwisting along conjugation, with the first constant for w.
  lemma FirstImageIsUntwist<T(!new)>(r: Ring<T>, g: Gammas<T>, q: Point<F2<T>>)
    requires IsRing(r) && GoodGammas(r, g)
    ensures FirstImage(r, g, q) == Untwist(Fp2(r), Conj(r), g.g11, q)
  {
  }

  lemma ConjugationEmbeds<T(!new)>(r: Ring<T>)
    requires IsRing(r) && IsField(Fp2(r))
    ensures Embeds(Fp2(r), Fp2(r), Conj(r))
  {
    ConjugationIsHom(r, Conj(r));
    FieldHomEmbeds(Fp2(r), Fp2(r), Conj(r));
  }

  // The constant is not zero, as its sixth power is (9 - u) / (9 + u).
  lemma GammaIsNotZero<T(!new)>(r: Ring<T>, g: Gammas<T>)
    requires IsRing(r) && IsField(Fp2(r)) && GoodGammas(r, g) && Xi(r) != Fp2(r).zero
    ensures g.g11 != Fp2(r).zero
  {
    var s, e := Fp2(r), g.g12;
    ConjugationEmbeds(r);
    assert Conj(r)(Xi(r)) != Conj(r)(s.zero);
    NonzeroProduct(s, Xi(r), s.mul(s.mul(e, e), e));
    NonzeroProduct(s, s.mul(e, e), e);
    NonzeroProduct(s, g.g11, g.g11);
  }

  /** Q2 is the negative of the image of the image. */
  lemma SecondImageIsTwice<T(!new)>(r: Ring<T>, g: Gammas<T>, q: Point<F2<T>>)
    requires IsRing(r) && GoodGammas(r, g)
    ensures SecondImage(r, g, q) == Negated(Fp2(r), FirstImage(r, g, FirstImage(r, g, q)))
  {
    var e, w := (a: F2<T>) => InFp12(r, a), Fp12Fast(r);
    var u, q1 := Untwist(w, e, Root(r), q), FirstImage(r, g, q);
    var q11 := FirstImage(r, g, q1);
    ImagesAreFrobenius(r, g, e, q);
    ImagesAreFrobenius(r, g, e, q1);
    FrobeniusComposes(r, g, u.x); FrobeniusComposes(r, g, u.y);
    UntwistCoordinates(r, e, q11);
    UntwistCoordinates(r, e, SecondImage(r, g, q));
  }

  /** With an associative law: a point whose image is its k-fold sum has as second image the negative of its k^2-fold
      sum. */
  lemma ImagesAreMultiples<T(!new)>(r: Ring<T>, g: Gammas<T>, b: F2<T>, q: Point<F2<T>>, k: nat)
    requires IsRing(r) && GoodGammas(r, g) && Xi(r) != Fp2(r).zero
    requires AssociativeCurve(Fp2(r), b, Inverse(Fp2(r))) && OnCurve(Fp2(r), b, q)
    requires FirstImage(r, g, q) == Repeated(Fp2(r), Inverse(Fp2(r)), q, k)
    ensures k * k >= 0
    ensures SecondImage(r, g, q) == Negated(Fp2(r), Repeated(Fp2(r), Inverse(Fp2(r)), q, k * k))
  {
    var s, inv := Fp2(r), Inverse(Fp2(r));
    var q1 := FirstImage(r, g, q);
    SecondImageIsTwice(r, g, q);
    FirstImageIsUntwist(r, g, q); FirstImageIsUntwist(r, g, q1);
    ConjugationEmbeds(r);
    GammaIsNotZero(r, g);
    RepeatedUntwists(s, s, Conj(r), g.g11, q, k);
    RepeatedMul(s, b, inv, q, k, k);
  }

  // ---- the multiples of a BN curve ---------------------------------------------------------------------------

  // p = r + 6 x^2, and the multiples that the run compares are below r.
  lemma BnMultiples(x: nat, v: nat, k: nat)
    requires x > 1 && v == 6 * x + 2 && k == 6 * (x * x)
    ensures FieldOrder(x) == GroupOrder(x) + k
    ensures k * k >= 0 && v < k && v + k < k * k && v + k + k * k < GroupOrder(x) && v + 2 < GroupOrder(x)
  {
    var x2 := x * x;
    assert x2 >= 2 * x;
    assert x * x * x == x * x2 && x * x * x * x == x2 * x2;
    assert x * x2 >= 2 * x2;
    assert x2 * x2 >= 4 * x2 by { assert x2 >= 4; }
    assert k * k == 36 * (x2 * x2);
  }

  /** Reducing the eigenvalue p to 6 x^2 on a point of order r */
  lemma ReducedEigenvalue<S(!new)>(s: Ring<S>, b: S, inv: S -> S, q: Point<S>, n: nat, k: nat)
    requires AssociativeCurve(s, b, inv) && Proper(s, b, q) && Repeated(s, inv, q, n) == Infinity(s)
    ensures Repeated(s, inv, q, n + k) == Repeated(s, inv, q, k)
  {
    RepeatedAdd(s, b, inv, q, n, k);
  }
}
