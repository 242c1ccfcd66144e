/** What the run of the Miller loop multiplies together, without the run: the point before every turn, the product of
    powers of line values, and the same value over the field that the lines are evaluated in. */
module MillerValue {
  import opened Arithmetic
  import opened BnParameter
  import opened Rings
  import opened Powers
  import opened FieldLaws
  import opened AffineCurve
  import opened CurveTransfer
  import opened PointMultiples
  import opened MillerSteps
  import opened MillerRuns
  import opened Untwisting

  predicate Adds(d: int) { d == 1 || d == -1 }

  // What a turn with digit d makes of 2 a
  ghost function Added<S>(s: Ring<S>, inv: S -> S, q: Point<S>, d: int, twice: Point<S>): Point<S> {
    if Adds(d) then PointAdd(s, inv, twice, Signed(s, q, d)) else twice
  }

  /** The point that signed-digit double-and-add reaches after the digits above i and the digit i. */
  ghost function Reached<S>(s: Ring<S>, inv: S -> S, q: Point<S>, digits: seq<int>, i: nat): Point<S>
    requires i < |digits|
    decreases |digits| - i
  {
    if i == |digits| - 1 then q
    else
      Added(s, inv, q, digits[i], PointDouble(s, inv, Reached(s, inv, q, digits, i + 1)))
  }

  // ---- the points are multiples ----------------------------------------------------------------------------

  lemma OppositeCancels<S(!new)>(s: Ring<S>, b: S, inv: S -> S, p: Point<S>)
    requires CurveSetting(s, b, inv) && OnCurve(s, b, p)
    ensures Proper(s, b, Negated(s, p)) && PointAdd(s, inv, Negated(s, p), p) == Infinity(s)
  {
    NegatedOnCurve(s, b, p);
    CurvePointFacts(s, b, inv, p); CurvePointFacts(s, b, inv, Negated(s, p));
    NegateTwice(s, p.y);
  }

  // (p + q) - p = q
  lemma OppositeUndoes<S(!new)>(s: Ring<S>, b: S, inv: S -> S, p: Point<S>, q: Point<S>)
    requires AssociativeCurve(s, b, inv) && OnCurve(s, b, p) && Proper(s, b, q)
    ensures PointAdd(s, inv, PointAdd(s, inv, p, q), Negated(s, p)) == q
  {
    OppositeCancels(s, b, inv, p);
    AddProper(s, b, inv, p, q);
    AddCommutes(s, b, inv, PointAdd(s, inv, p, q), Negated(s, p));
    assert At(Negated(s, p), p, q);
  }

  lemma RepeatedMinus<S(!new)>(s: Ring<S>, b: S, inv: S -> S, p: Point<S>, n: nat)
    requires AssociativeCurve(s, b, inv) && OnCurve(s, b, p) && n > 0
    ensures PointAdd(s, inv, Repeated(s, inv, p, n), Negated(s, p)) == Repeated(s, inv, p, n - 1)
  {
    RepeatedProper(s, b, inv, p, n - 1);
    OppositeUndoes(s, b, inv, p, Repeated(s, inv, p, n - 1));
  }

  lemma RepeatedPlus<S(!new)>(s: Ring<S>, b: S, inv: S -> S, p: Point<S>, n: nat)
    requires CurveSetting(s, b, inv) && OnCurve(s, b, p)
    ensures PointAdd(s, inv, Repeated(s, inv, p, n), p) == Repeated(s, inv, p, n + 1)
  {
    RepeatedProper(s, b, inv, p, n);
    AddCommutes(s, b, inv, Repeated(s, inv, p, n), p);
  }

  lemma DigitOfMultiple<S(!new)>(s: Ring<S>, b: S, inv: S -> S, q: Point<S>, n: nat, d: int)
    requires AssociativeCurve(s, b, inv) && OnCurve(s, b, q) && n > 0 && -1 <= d <= 1
    ensures Added(s, inv, q, d, Repeated(s, inv, q, n)) == Repeated(s, inv, q, n + d)
  {
    if d == 1 { RepeatedPlus(s, b, inv, q, n); }
    if d == -1 { RepeatedMinus(s, b, inv, q, n); }
  }

  // One turn from the n-fold sum
  lemma TurnOfMultiple<S(!new)>(s: Ring<S>, b: S, inv: S -> S, q: Point<S>, n: nat, d: int)
    requires AssociativeCurve(s, b, inv) && OnCurve(s, b, q) && n > 0 && -1 <= d <= 1
    ensures Added(s, inv, q, d, PointDouble(s, inv, Repeated(s, inv, q, n))) == Repeated(s, inv, q, d + 2 * n)
  {
    RepeatedTwice(s, b, inv, q, n);
    DigitOfMultiple(s, b, inv, q, 2 * n, d);
  }

  /** With an associative law: after the digits down to i, the point is the n-fold sum of q, n the value of those
      digits. */
  lemma {:induction false} ReachedIsMultiple<S(!new)>(s: Ring<S>, b: S, inv: S -> S, q: Point<S>, digits: seq<int>,
      i: nat)
    requires AssociativeCurve(s, b, inv) && OnCurve(s, b, q) && i < |digits| && digits[|digits| - 1] == 1
    requires forall j: int :: 0 <= j < |digits| ==> -1 <= digits[j] <= 1
    ensures SignedValue(digits, i) >= 1
    ensures Reached(s, inv, q, digits, i) == Repeated(s, inv, q, SignedValue(digits, i))
    decreases |digits| - i
  {
    if i == |digits| - 1 {
      TopDigit(s, b, inv, q, digits);
    } else {
      ReachedIsMultiple(s, b, inv, q, digits, i + 1);
      TurnOfMultiple(s, b, inv, q, SignedValue(digits, i + 1), digits[i]);
    }
  }

  lemma TopDigit<S(!new)>(s: Ring<S>, b: S, inv: S -> S, q: Point<S>, digits: seq<int>)
    requires CurveSetting(s, b, inv) && OnCurve(s, b, q) && |digits| > 0 && digits[|digits| - 1] == 1
    ensures SignedValue(digits, |digits| - 1) == 1 && Repeated(s, inv, q, 1) == q
  {
    CurvePointFacts(s, b, inv, q);
    assert SignedValue(digits, |digits|) == 0;
    assert Repeated(s, inv, q, 1) == PointAdd(s, inv, q, Repeated(s, inv, q, 0));
  }

  // ---- the product of line values --------------------------------------------------------------------------

  ghost function TangentValue<S, W>(m: Setup<S, W>, inv: S -> S, a: Point<S>): W {
    m.evaluate(AffineLine(m.s, a, TangentSlope(m.s, inv, a)))
  }

  ghost function ChordValue<S, W>(m: Setup<S, W>, inv: S -> S, a: Point<S>, q: Point<S>): W {
    m.evaluate(AffineLine(m.s, a, ChordSlope(m.s, inv, a, q)))
  }

  /** The lines of the turn with digit i: the tangent at the point a before it, and the chord from 2 a to q or -q. */
  ghost function TurnValue<S, W>(m: Setup<S, W>, inv: S -> S, q: Point<S>, digits: seq<int>, i: nat): W
    requires i < |digits| - 1
  {
    var a := Reached(m.s, inv, q, digits, i + 1);
    var tangent := TangentValue(m, inv, a);
    if Adds(digits[i]) then
      m.w.mul(tangent, ChordValue(m, inv, PointDouble(m.s, inv, a), Signed(m.s, q, digits[i])))
    else tangent
  }

  /** The product over the digits j below i of TurnValue(j) to the power 2^j. */
  ghost function TurnProduct<S, W>(m: Setup<S, W>, inv: S -> S, q: Point<S>, digits: seq<int>, i: nat): W
    requires i < |digits|
  {
    if i == 0 then m.w.one
    else m.w.mul(Power(m.w, TurnValue(m, inv, q, digits, i - 1), TwoTo(i - 1)), TurnProduct(m, inv, q, digits, i - 1))
  }

  // f^(2^(i + 1)) v^(2^i) = (f^2 v)^(2^i)
  lemma SquaredPower<W(!new)>(w: Ring<W>, f: W, v: W, i: nat)
    requires IsRing(w)
    ensures Power(w, w.mul(w.mul(f, f), v), TwoTo(i)) == w.mul(Power(w, f, TwoTo(i + 1)), Power(w, v, TwoTo(i)))
  {
    PowerOfProduct(w, w.mul(f, f), v, TwoTo(i));
    SmallPowers(w, f);
    PowerOfPower(w, f, 2, TwoTo(i));
  }

  /** i turns from (f, a) multiply f^(2^i) by the product, and lead to the point reached. */
  lemma {:induction false} RunInClosedForm<S(!new), W(!new)>(m: Setup<S, W>, inv: S -> S, q: Point<S>,
      digits: seq<int>, i: nat, st: State<S, W>)
    requires IsRing(m.w) && i < |digits| && st.a == Reached(m.s, inv, q, digits, i)
    ensures AffineMiller(m, inv, q, digits, i, st).a == Reached(m.s, inv, q, digits, 0)
    ensures AffineMiller(m, inv, q, digits, i, st).f ==
            m.w.mul(Power(m.w, st.f, TwoTo(i)), TurnProduct(m, inv, q, digits, i))
  {
    var w := m.w;
    if i == 0 {
      SmallPowers(w, st.f);
      OneIsUnit(w, st.f);
    } else {
      var next, v := DigitStep(m, inv, q, digits[i - 1], st), TurnValue(m, inv, q, digits, i - 1);
      Use(w, w.mul(st.f, st.f), TangentValue(m, inv, st.a),
          ChordValue(m, inv, PointDouble(m.s, inv, st.a), Signed(m.s, q, digits[i - 1])));
      assert next.f == w.mul(w.mul(st.f, st.f), v);
      RunInClosedForm(m, inv, q, digits, i - 1, next);
      SquaredPower(w, st.f, v, i - 1);
      Use(w, Power(w, st.f, TwoTo(i)), Power(w, v, TwoTo(i - 1)), TurnProduct(m, inv, q, digits, i - 1));
    }
  }

  /** The Miller value: the product over all turns, and the chords to q1 and from there to q2. */
  ghost function MillerProduct<S,
      W>(m: Setup<S, W>, inv: S -> S, q: Point<S>, q1: Point<S>, q2: Point<S>, digits: seq<int>): W
    requires |digits| > 0
  {
    var a := Reached(m.s, inv, q, digits, 0);
    m.w.mul(m.w.mul(TurnProduct(m, inv, q, digits, |digits| - 1), ChordValue(m, inv, a, q1)),
            ChordValue(m, inv, PointAdd(m.s, inv, a, q1), q2))
  }

  /** The value that the loop computes is the product, and the point that it reaches is q1 and q2 added to the point of
      the digits. */
  lemma ValueIsProduct<S(!new),
      W(!new)>(m: Setup<S, W>, inv: S -> S, q: Point<S>, q1: Point<S>, q2: Point<S>, digits: seq<int>)
    requires IsRing(m.w) && |digits| > 0
    ensures var st, a := AffineValue(m, inv, q, q1, q2, digits), Reached(m.s, inv, q, digits, 0);
            && st.f == MillerProduct(m, inv, q, q1, q2, digits)
            && st.a == PointAdd(m.s, inv, PointAdd(m.s, inv, a, q1), q2)
  {
    var n := |digits| - 1;
    RunInClosedForm(m, inv, q, digits, n, Start(m, q));
    PowerOfOne(m.w, TwoTo(n));
    OneIsUnit(m.w, TurnProduct(m, inv, q, digits, n));
  }

  // ---- the same value on the curve over the big field --------------------------------------------------------

  /** Two setups whose lines have the same values: the second one is on the curve over the field w. */
  ghost predicate SameLines<S(!new), W(!new)>(m: Setup<S, W>, n: Setup<W, W>, e: S -> W, g: W) {
    && UntwistSetting(m.s, m.w, e, g) && n.s == m.w && n.w == m.w
    && forall a: Point<S>, k: S {:trigger AffineLine(m.s, a, k)} ::
         m.evaluate(AffineLine(m.s, a, k)) == n.evaluate(AffineLine(m.w, Untwist(m.w, e, g, a), m.w.mul(e(k), g)))
  }

  lemma SameValues<S(!new), W(!new)>(m: Setup<S, W>, n: Setup<W, W>, e: S -> W, g: W, a: Point<S>, q: Point<S>)
    requires SameLines(m, n, e, g)
    ensures TangentValue(m, Inverse(m.s), a) == TangentValue(n, Inverse(m.w), Untwist(m.w, e, g, a))
    ensures ChordValue(m, Inverse(m.s), a, q) ==
            ChordValue(n, Inverse(m.w), Untwist(m.w, e, g, a), Untwist(m.w, e, g, q))
  {
    UntwistSlopes(m.s, m.w, e, g, a, q);
  }

  lemma {:induction false} ReachedUntwists<S(!new), W(!new)>(s: Ring<S>, w: Ring<W>, e: S -> W, g: W, q: Point<S>,
      digits: seq<int>, i: nat)
    requires UntwistSetting(s, w, e, g) && i < |digits|
    ensures Untwist(w, e, g, Reached(s, Inverse(s), q, digits, i)) ==
            Reached(w, Inverse(w), Untwist(w, e, g, q), digits, i)
    decreases |digits| - i
  {
    if i < |digits| - 1 {
      ReachedUntwists(s, w, e, g, q, digits, i + 1);
      var a := Reached(s, Inverse(s), q, digits, i + 1);
      UntwistIsHom(s, w, e, g, a, q);
      UntwistIsHom(s, w, e, g, q, q);
      UntwistIsHom(s, w, e, g, PointDouble(s, Inverse(s), a), Signed(s, q, digits[i]));
    }
  }

  lemma TurnUntwists<S(!new), W(!new)>(m: Setup<S, W>, n: Setup<W, W>, e: S -> W, g: W, q: Point<S>,
      digits: seq<int>, i: nat)
    requires SameLines(m, n, e, g) && i < |digits| - 1
    ensures TurnValue(m, Inverse(m.s), q, digits, i) ==
            TurnValue(n, Inverse(m.w), Untwist(m.w, e, g, q), digits, i)
  {
    var s, w, a := m.s, m.w, Reached(m.s, Inverse(m.s), q, digits, i + 1);
    ReachedUntwists(s, w, e, g, q, digits, i + 1);
    SameValues(m, n, e, g, a, a);
    UntwistIsHom(s, w, e, g, a, a);
    UntwistIsHom(s, w, e, g, q, q);
    SameValues(m, n, e, g, PointDouble(s, Inverse(s), a), Signed(s, q, digits[i]));
  }

  lemma {:induction false} ProductsAgree<S(!new), W(!new)>(m: Setup<S, W>, inv: S -> S, q: Point<S>, n: Setup<W, W>,
      inv': W -> W, q': Point<W>, digits: seq<int>, i: nat)
    requires m.w == n.w && i < |digits|
    requires forall j: nat :: j < |digits| - 1 ==>
               TurnValue(m, inv, q, digits, j) == TurnValue(n, inv', q', digits, j)
    ensures TurnProduct(m, inv, q, digits, i) == TurnProduct(n, inv', q', digits, i)
  {
    if i > 0 { ProductsAgree(m, inv, q, n, inv', q', digits, i - 1); }
  }

  /** The Miller value on the twist is that of the untwisted points. */
  lemma ValueUntwists<S(!new), W(!new)>(m: Setup<S, W>, n: Setup<W, W>, e: S -> W, g: W,
      q: Point<S>, q1: Point<S>, q2: Point<S>, digits: seq<int>)
    requires SameLines(m, n, e, g) && |digits| > 0
    ensures MillerProduct(m, Inverse(m.s), q, q1, q2, digits) ==
            MillerProduct(n, Inverse(m.w), Untwist(m.w, e, g, q), Untwist(m.w, e, g, q1), Untwist(m.w, e, g, q2),
                          digits)
  {
    var s, w, a := m.s, m.w, Reached(m.s, Inverse(m.s), q, digits, 0);
    forall j: nat | j < |digits| - 1
      ensures TurnValue(m, Inverse(s), q, digits, j) == TurnValue(n, Inverse(w), Untwist(w, e, g, q), digits, j)
    {
      TurnUntwists(m, n, e, g, q, digits, j);
    }
    ProductsAgree(m, Inverse(s), q, n, Inverse(w), Untwist(w, e, g, q), digits, |digits| - 1);
    ReachedUntwists(s, w, e, g, q, digits, 0);
    SameValues(m, n, e, g, a, q1);
    UntwistIsHom(s, w, e, g, a, q1);
    SameValues(m, n, e, g, PointAdd(s, Inverse(s), a, q1), q2);
  }
}
