/** The Miller loop: it computes the affine Miller value up to a factor that the final exponentiation removes. */
module MillerRuns {
  import opened Rings
  import opened Powers
  import opened FieldLaws
  import opened AffineCurve
  import opened ProjectiveCurve
  import opened MillerSteps

  /** The operations of the loop: the field of the twist, its curve, Fp12, and the value of a line at the point of
      G1. */
  datatype Setup<!S, !W> = Setup(s: Ring<S>, b: S, half: S, w: Ring<W>, square: W -> W, evaluate: Line<S> -> W)

  /** The embedding e of the twist's field in Fp12 turns multiples of lines into multiples of their values. */
  ghost predicate SoundSetup<S(!new), W(!new)>(m: Setup<S, W>, inv: S -> S, e: S -> W) {
    && CurveSetting(m.s, m.b, inv) && m.s.add(m.half, m.half) == m.s.one
    && IsRing(m.w) && IsHom(m.s, m.w, e)
    && (forall f: W {:trigger m.square(f)} :: m.square(f) == m.w.mul(f, f))
    && (forall k: S, l: Line<S> {:trigger Scales(m, e, k, l)} :: Scales(m, e, k, l))
  }

  ghost predicate Scales<S, W>(m: Setup<S, W>, e: S -> W, k: S, l: Line<S>) {
    m.evaluate(Multiple(m.s, k, l)) == m.w.mul(e(k), m.evaluate(l))
  }

  // ---- the affine Miller value ------------------------------------------------------------------------

  /** A partial product of line values and the point reached */
  datatype State<S, W> = State(f: W, a: Point<S>)

  ghost function DoubleLine<S, W>(m: Setup<S, W>, inv: S -> S, st: State<S, W>): State<S, W> {
    State(m.w.mul(m.w.mul(st.f, st.f), m.evaluate(AffineLine(m.s, st.a, TangentSlope(m.s, inv, st.a)))),
          PointDouble(m.s, inv, st.a))
  }

  ghost function AddLine<S, W>(m: Setup<S, W>, inv: S -> S, q: Point<S>, st: State<S, W>): State<S, W> {
    State(m.w.mul(st.f, m.evaluate(AffineLine(m.s, st.a, ChordSlope(m.s, inv, st.a, q)))),
          PointAdd(m.s, inv, st.a, q))
  }

  function Signed<S>(s: Ring<S>, q: Point<S>, d: int): Point<S> { if d == 1 then q else Negated(s, q) }

  ghost function DigitStep<S, W>(m: Setup<S, W>, inv: S -> S, q: Point<S>, d: int, st: State<S, W>): State<S, W> {
    var next := DoubleLine(m, inv, st);
    if d == 1 || d == -1 then AddLine(m, inv, Signed(m.s, q, d), next) else next
  }

  /** Signed-digit double-and-add with affine lines over the digits i - 1, ..., 0. */
  ghost function AffineMiller<S,
      W>(m: Setup<S, W>, inv: S -> S, q: Point<S>, digits: seq<int>, i: nat, st: State<S, W>): State<S, W>
    requires i <= |digits|
  {
    if i == 0 then st else AffineMiller(m, inv, q, digits, i - 1, DigitStep(m, inv, q, digits[i - 1], st))
  }

  /** No chord of the run is vertical. */
  ghost predicate Regular<S, W>(m: Setup<S, W>, inv: S -> S, q: Point<S>, digits: seq<int>, i: nat, st: State<S, W>)
    requires i <= |digits|
  {
    i == 0 || (
      && (digits[i - 1] == 1 || digits[i - 1] == -1 ==> PointDouble(m.s, inv, st.a).x != q.x)
      && Regular(m, inv, q, digits, i - 1, DigitStep(m, inv, q, digits[i - 1], st)))
  }

  // ---- the loop -------------------------------------------------------------------------------------------

  // The computed f and t stand for the affine state, f up to the nonzero factor c of the twist's field.
  ghost predicate StandsFor<S, W>(m: Setup<S, W>, e: S -> W, f: W, t: Proj<S>, c: S, st: State<S, W>) {
    && OnCurve(m.s, m.b, st.a) && t.z != m.s.zero && Represents(m.s, t, st.a)
    && c != m.s.zero && f == m.w.mul(e(c), st.f)
  }

  lemma NegatedOnCurve<S(!new)>(s: Ring<S>, b: S, q: Point<S>)
    requires IsRing(s)
    ensures OnCurve(s, b, q) ==> OnCurve(s, b, Negated(s, q))
  {
    OppositeSquares(s, q.y);
  }

  // As long as z is not zero; a triple with z = 0 stays one.
  ghost predicate StandsForOrZero<S, W>(m: Setup<S, W>, e: S -> W, f: W, t: Proj<S>, c: S, st: State<S, W>) {
    t.z != m.s.zero ==> StandsFor(m, e, f, t, c, st)
  }

  method DoubleAndEvaluate<S(!new), W(!new)>(m: Setup<S, W>, f: W, t: Proj<S>,
                                             ghost inv: S -> S, ghost e: S -> W, ghost c: S, ghost st: State<S, W>)
    returns (f': W, t': Proj<S>, ghost c': S)
    requires SoundSetup(m, inv, e) && StandsForOrZero(m, e, f, t, c, st)
    ensures t'.z == m.s.zero <==> t.z == m.s.zero
    ensures StandsForOrZero(m, e, f', t', c', DoubleLine(m, inv, st))
  {
    f' := m.square(f);
    var step := DoubleStep(m.s, m.b, m.half, t);
    var value := m.evaluate(step.0);
    if t.z != m.s.zero {
      DoubleStepRefines(m.s, m.b, inv, m.half, t, st.a);
      ghost var k := m.s.sub(m.s.zero, m.s.mul(m.s.add(st.a.y, st.a.y), m.s.mul(t.z, t.z)));
      ghost var line := AffineLine(m.s, st.a, TangentSlope(m.s, inv, st.a));
      assert Scales(m, e, k, line);
      DoubledFactor(m.s, m.w, e, c, k, st.f, m.evaluate(line));
      c' := m.s.mul(m.s.mul(c, c), k);
    } else {
      StepsKeepInfinity(m.s, m.b, m.half, st.a, t);
      c' := c;
    }
    f' := m.w.mul(f', value);
    t' := step.1;
  }

  // (c f)^2 (k v) = (c^2 k) (f^2 v), with nonzero factors
  lemma DoubledFactor<S(!new), W(!new)>(s: Ring<S>, w: Ring<W>, e: S -> W, c: S, k: S, f: W, v: W)
    requires IsField(s) && IsRing(w) && IsHom(s, w, e) && c != s.zero && k != s.zero
    ensures s.mul(s.mul(c, c), k) != s.zero
    ensures w.mul(w.mul(w.mul(e(c), f), w.mul(e(c), f)), w.mul(e(k), v)) ==
            w.mul(e(s.mul(s.mul(c, c), k)), w.mul(w.mul(f, f), v))
  {
    UseHom(s, w, e, c, c); UseHom(s, w, e, s.mul(c, c), k);
    SwapMul(w, e(c), f, e(c), f);
    SwapMul(w, e(s.mul(c, c)), w.mul(f, f), e(k), v);
    NonzeroProduct(s, c, c); NonzeroProduct(s, s.mul(c, c), k);
  }

  method AddAndEvaluate<S(!new), W(!new)>(m: Setup<S, W>, q: Point<S>, f: W, t: Proj<S>,
                                          ghost inv: S -> S, ghost e: S -> W, ghost c: S, ghost st: State<S, W>)
    returns (f': W, t': Proj<S>, ghost c': S)
    requires SoundSetup(m, inv, e) && StandsForOrZero(m, e, f, t, c, st)
    requires t.z != m.s.zero ==> OnCurve(m.s, m.b, q)
    ensures t'.z != m.s.zero <==> t.z != m.s.zero && st.a.x != q.x
    ensures StandsForOrZero(m, e, f', t', c', AddLine(m, inv, q, st))
  {
    var step := MixedAdditionStep(m.s, q, t);
    var value := m.evaluate(step.0);
    c' := c;
    if t.z == m.s.zero {
      StepsKeepInfinity(m.s, m.b, m.half, q, t);
    } else {
      MixedAdditionRefines(m.s, m.b, inv, q, t, st.a);
      if st.a.x != q.x {
        ghost var k := LineFactor(m.s, t, st.a, q);
        ghost var line := AffineLine(m.s, st.a, ChordSlope(m.s, inv, st.a, q));
        assert Scales(m, e, k, line);
        AddIsChord(m.s, m.b, inv, st.a, q);
        UseHom(m.s, m.w, e, c, k);
        SwapMul(m.w, e(c), st.f, e(k), m.evaluate(line));
        NonzeroProduct(m.s, c, k);
        c' := m.s.mul(c, k);
      }
    }
    f' := m.w.mul(f, value);
    t' := step.1;
  }

  // One turn of the loop
  method TurnWithDigit<S(!new), W(!new)>(m: Setup<S, W>, q: Point<S>, digit: int, f: W, t: Proj<S>,
                                         ghost inv: S -> S, ghost e: S -> W, ghost c: S, ghost st: State<S, W>)
    returns (f': W, t': Proj<S>, ghost c': S)
    requires SoundSetup(m, inv, e) && StandsForOrZero(m, e, f, t, c, st)
    requires t.z != m.s.zero ==> OnCurve(m.s, m.b, q)
    ensures t'.z != m.s.zero <==>
            t.z != m.s.zero && (digit == 1 || digit == -1 ==> PointDouble(m.s, inv, st.a).x != q.x)
    ensures StandsForOrZero(m, e, f', t', c', DigitStep(m, inv, q, digit, st))
  {
    NegatedOnCurve(m.s, m.b, q);
    f', t', c' := DoubleAndEvaluate(m, f, t, inv, e, c, st);
    if digit == -1 {
      var minus := Negated(m.s, q);
      f', t', c' := AddAndEvaluate(m, minus, f', t', inv, e, c', DoubleLine(m, inv, st));
    } else if digit == 1 {
      f', t', c' := AddAndEvaluate(m, q, f', t', inv, e, c', DoubleLine(m, inv, st));
    }
  }

  // The two additions after the loop
  method AddImages<S(!new), W(!new)>(m: Setup<S, W>, q1: Point<S>, q2: Point<S>, f: W, t: Proj<S>,
                                     ghost inv: S -> S, ghost e: S -> W, ghost c: S, ghost st: State<S, W>)
    returns (f': W, t': Proj<S>, ghost c': S)
    requires SoundSetup(m, inv, e) && StandsForOrZero(m, e, f, t, c, st)
    requires t.z != m.s.zero ==> OnCurve(m.s, m.b, q1) && OnCurve(m.s, m.b, q2)
    ensures t'.z != m.s.zero <==>
            t.z != m.s.zero && st.a.x != q1.x && AddLine(m, inv, q1, st).a.x != q2.x
    ensures StandsForOrZero(m, e, f', t', c', AddLine(m, inv, q2, AddLine(m, inv, q1, st)))
  {
    f', t', c' := AddAndEvaluate(m, q1, f, t, inv, e, c, st);
    f', t', c' := AddAndEvaluate(m, q2, f', t', inv, e, c', AddLine(m, inv, q1, st));
  }

  ghost function Start<S, W>(m: Setup<S, W>, q: Point<S>): State<S, W> { State(m.w.one, q) }

  /** The final affine state: the run over all digits but the leading one, then the lines to q1 and to q2. */
  ghost function AffineValue<S,
      W>(m: Setup<S, W>, inv: S -> S, q: Point<S>, q1: Point<S>, q2: Point<S>, digits: seq<int>): State<S, W>
    requires |digits| > 0
  {
    AddLine(m, inv, q2, AddLine(m, inv, q1, AffineMiller(m, inv, q, digits, |digits| - 1, Start(m, q))))
  }

  /** q is a point of the curve, and no chord of the run is vertical. */
  ghost predicate RegularInput<S,
      W>(m: Setup<S, W>, inv: S -> S, q: Point<S>, q1: Point<S>, q2: Point<S>, digits: seq<int>)
    requires |digits| > 0
  {
    var st := AffineMiller(m, inv, q, digits, |digits| - 1, Start(m, q));
    && OnCurve(m.s, m.b, q) && Regular(m, inv, q, digits, |digits| - 1, Start(m, q))
    && st.a.x != q1.x && AddLine(m, inv, q1, st).a.x != q2.x
  }

  /** from_affine of the points over Fp2 */
  function FromAffine<S(==)>(s: Ring<S>, q: Point<S>): Proj<S> {
    if q == Infinity(s) then Proj(s.one, s.one, s.zero) else Proj(q.x, q.y, s.one)
  }

  lemma StartStandsFor<S(!new), W(!new)>(m: Setup<S, W>, inv: S -> S, e: S -> W, q: Point<S>)
    requires SoundSetup(m, inv, e) && Proper(m.s, m.b, q)
    ensures FromAffine(m.s, q).z != m.s.zero <==> OnCurve(m.s, m.b, q)
    ensures StandsForOrZero(m, e, m.w.one, FromAffine(m.s, q), m.s.one, Start(m, q))
  {
    if OnCurve(m.s, m.b, q) { CurvePointFacts(m.s, m.b, inv, q); }
    OneIsUnit(m.s, q.x); OneIsUnit(m.s, q.y); OneIsUnit(m.w, m.w.one);
  }

  lemma RunStep<S, W>(m: Setup<S, W>, inv: S -> S, q: Point<S>, digits: seq<int>, i: nat, st: State<S, W>)
    requires i < |digits|
    ensures var next := DigitStep(m, inv, q, digits[i], st);
            && AffineMiller(m, inv, q, digits, i + 1, st) == AffineMiller(m, inv, q, digits, i, next)
            && (Regular(m, inv, q, digits, i + 1, st) <==>
                  (digits[i] == 1 || digits[i] == -1 ==> PointDouble(m.s, inv, st.a).x != q.x)
                  && Regular(m, inv, q, digits, i, next))
  {
  }

  /** miller_loop: the denominator of t is not zero at the end exactly for regular input, and then t represents the
      affine point that the signed digits lead to, and f is the affine Miller value times an element of the twist's
      field. */
  method Loop<S(==,!new), W(!new)>(m: Setup<S, W>, q: Point<S>, q1: Point<S>, q2: Point<S>, digits: seq<int>,
                                   ghost inv: S -> S, ghost e: S -> W)
    returns (f: W, t: Proj<S>, ghost c: S)
    requires SoundSetup(m, inv, e) && |digits| > 0 && Proper(m.s, m.b, q)
    requires OnCurve(m.s, m.b, q) ==> OnCurve(m.s, m.b, q1) && OnCurve(m.s, m.b, q2)
    ensures t.z != m.s.zero <==> RegularInput(m, inv, q, q1, q2, digits)
    ensures t.z != m.s.zero ==> StandsFor(m, e, f, t, c, AffineValue(m, inv, q, q1, q2, digits))
  {
    f, t, c := m.w.one, FromAffine(m.s, q), m.s.one;
    var i := |digits| - 1;
    ghost var st := Start(m, q);
    ghost var end, regular := AffineMiller(m, inv, q, digits, i, st), Regular(m, inv, q, digits, i, st);
    StartStandsFor(m, inv, e, q);
    while i > 0
      invariant 0 <= i < |digits| && StandsForOrZero(m, e, f, t, c, st)
      invariant t.z != m.s.zero ==> OnCurve(m.s, m.b, q)
      invariant OnCurve(m.s, m.b, q) && regular <==> t.z != m.s.zero && Regular(m, inv, q, digits, i, st)
      invariant AffineMiller(m, inv, q, digits, i, st) == end
    {
      i := i - 1;
      ghost var next := DigitStep(m, inv, q, digits[i], st);
      RunStep(m, inv, q, digits, i, st);
      f, t, c := TurnWithDigit(m, q, digits[i], f, t, inv, e, c, st);
      st := next;
    }
    f, t, c := AddImages(m, q1, q2, f, t, inv, e, c, st);
  }

  // ---- the value is not zero ------------------------------------------------------------------------------

  /** The lines that are not vertical have nonzero values. */
  ghost predicate NonzeroLines<S(!new), W>(m: Setup<S, W>) {
    forall l: Line<S> {:trigger m.evaluate(l)} :: l.l0 == m.s.one ==> m.evaluate(l) != m.w.zero
  }

  lemma StepsKeepNonzero<S(!new), W(!new)>(m: Setup<S, W>, inv: S -> S, q: Point<S>, st: State<S, W>)
    requires IsField(m.w) && NonzeroLines(m) && st.f != m.w.zero
    ensures DoubleLine(m, inv, st).f != m.w.zero && AddLine(m, inv, q, st).f != m.w.zero
  {
    NonzeroProduct(m.w, st.f, st.f);
    NonzeroProduct(m.w, m.w.mul(st.f, st.f), m.evaluate(AffineLine(m.s, st.a, TangentSlope(m.s, inv, st.a))));
    NonzeroProduct(m.w, st.f, m.evaluate(AffineLine(m.s, st.a, ChordSlope(m.s, inv, st.a, q))));
  }

  lemma {:induction false} RunKeepsNonzero<S(!new), W(!new)>(m: Setup<S, W>, inv: S -> S, q: Point<S>,
                                                             digits: seq<int>, i: nat, st: State<S, W>)
    requires IsField(m.w) && NonzeroLines(m) && st.f != m.w.zero && i <= |digits|
    ensures AffineMiller(m, inv, q, digits, i, st).f != m.w.zero
  {
    if i > 0 {
      StepsKeepNonzero(m, inv, q, st);
      StepsKeepNonzero(m, inv, Signed(m.s, q, digits[i - 1]), DoubleLine(m, inv, st));
      RunKeepsNonzero(m, inv, q, digits, i - 1, DigitStep(m, inv, q, digits[i - 1], st));
    }
  }

  /** In a field, the affine Miller value is not zero. */
  lemma ValueIsNotZero<S(!new),
      W(!new)>(m: Setup<S, W>, inv: S -> S, q: Point<S>, q1: Point<S>, q2: Point<S>, digits: seq<int>)
    requires IsField(m.w) && NonzeroLines(m) && |digits| > 0
    ensures AffineValue(m, inv, q, q1, q2, digits).f != m.w.zero
  {
    var st := AffineMiller(m, inv, q, digits, |digits| - 1, Start(m, q));
    RunKeepsNonzero(m, inv, q, digits, |digits| - 1, Start(m, q));
    StepsKeepNonzero(m, inv, q1, st);
    StepsKeepNonzero(m, inv, q2, AddLine(m, inv, q1, st));
  }
}
