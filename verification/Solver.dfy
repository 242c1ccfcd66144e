/** A decision procedure for identities of commutative rings, by reflection: an expression is expanded into an
    integer combination of monomials, and the expansion vanishes when its coefficients do. */
module Solver {
  import opened Rings

  datatype Expr = V(i: int) | C(n: int) | Add(l: Expr, r: Expr) | Sub(l: Expr, r: Expr) | Mul(l: Expr, r: Expr)

  ghost function Lookup<T>(r: Ring<T>, env: seq<T>, i: int): T {
    if env == [] || i >= |env| then r.zero else if i < 0 then env[0] else env[i]
  }

  ghost function Eval<T>(r: Ring<T>, e: Expr, env: seq<T>): T
    decreases e
  {
    match e
    case V(i) => Lookup(r, env, i)
    case C(n) => OfInt(r, n)
    case Add(x, y) => r.add(Eval(r, x, env), Eval(r, y, env))
    case Sub(x, y) => r.sub(Eval(r, x, env), Eval(r, y, env))
    case Mul(x, y) => r.mul(Eval(r, x, env), Eval(r, y, env))
  }

  // ---- expansion -----------------------------------------------------------------

  datatype Factors = Empty | Push(e: Expr, rest: Factors)

  // A monomial is a number whose digits in base 65536 are the exponents of the variables.
  ghost function Code(i: int): int { if i <= 0 then 1 else 65536 * Code(i - 1) }

  ghost function Size(e: Expr): nat {
    match e
    case V(_) => 1
    case C(_) => 1
    case Add(x, y) => 1 + Size(x) + Size(y)
    case Sub(x, y) => 1 + Size(x) + Size(y)
    case Mul(x, y) => 1 + Size(x) + Size(y)
  }

  ghost function FactorsSize(t: Factors): nat { match t case Empty => 0
      case Push(e, rest) => Size(e) + FactorsSize(rest) }

  /** Expands c times the monomial k times e times the factors t: the sum of c' m(k') over the resulting terms,
      plus 1 for every product left out when more than n are nested. */
  ghost function Sum(n: int, c: int, k: int, e: Expr, t: Factors, m: int -> int): int
    decreases Size(e) + FactorsSize(t), e, t
  {
    match e
    case V(i) => if t.Empty? then c * m(k + Code(i)) else Sum(n, c, k + Code(i), t.e, t.rest, m)
    case C(d) => if t.Empty? then c * d * m(k) else Sum(n, c * d, k, t.e, t.rest, m)
    case Add(x, y) => Sum(n, c, k, x, t, m) + Sum(n, c, k, y, t, m)
    case Sub(x, y) => Sum(n, c, k, x, t, m) + Sum(n, -c, k, y, t, m)
    case Mul(x, y) =>
      if n <= 0 then 1
      else if x.V? then Sum(n - 1, c, k + Code(x.i), y, t, m)
      else if y.V? then Sum(n - 1, c, k + Code(y.i), x, t, m)
      else Sum(n - 1, c, k, x, Push(y, t), m)
  }

  datatype Terms = Nil | Term(k: int, c: int, rest: Terms)

  ghost function Append(s: Terms, t: Terms): Terms {
    match s case Nil => t case Term(k, c, rest) => Term(k, c, Append(rest, t))
  }

  // The terms that Sum adds up
  ghost function Expand(n: int, c: int, k: int, e: Expr, t: Factors): Terms
    decreases Size(e) + FactorsSize(t)
  {
    match e
    case V(i) => if t.Empty? then Term(k + Code(i), c, Nil) else Expand(n, c, k + Code(i), t.e, t.rest)
    case C(d) => if t.Empty? then Term(k, c * d, Nil) else Expand(n, c * d, k, t.e, t.rest)
    case Add(x, y) => Append(Expand(n, c, k, x, t), Expand(n, c, k, y, t))
    case Sub(x, y) => Append(Expand(n, c, k, x, t), Expand(n, -c, k, y, t))
    case Mul(x, y) =>
      if n <= 0 then Nil
      else if x.V? then Expand(n - 1, c, k + Code(x.i), y, t)
      else if y.V? then Expand(n - 1, c, k + Code(y.i), x, t)
      else Expand(n - 1, c, k, x, Push(y, t))
  }

  // The number of products left out
  ghost function Missed(n: int, e: Expr, t: Factors): nat
    decreases Size(e) + FactorsSize(t)
  {
    match e
    case V(_) => if t.Empty? then 0 else Missed(n, t.e, t.rest)
    case C(_) => if t.Empty? then 0 else Missed(n, t.e, t.rest)
    case Add(x, y) => Missed(n, x, t) + Missed(n, y, t)
    case Sub(x, y) => Missed(n, x, t) + Missed(n, y, t)
    case Mul(x, y) =>
      if n <= 0 then 1
      else if x.V? then Missed(n - 1, y, t)
      else if y.V? then Missed(n - 1, x, t)
      else Missed(n - 1, x, Push(y, t))
  }

  ghost function Total(t: Terms, m: int -> int): int {
    match t case Nil => 0 case Term(k, c, rest) => c * m(k) + Total(rest, m)
  }

  lemma {:induction false} TotalOfAppend(s: Terms, t: Terms, m: int -> int)
    ensures Total(Append(s, t), m) == Total(s, m) + Total(t, m)
  {
    if s.Term? { TotalOfAppend(s.rest, t, m); }
  }

  lemma {:induction false} SumIsTotal(n: int, c: int, k: int, e: Expr, t: Factors, m: int -> int)
    ensures Sum(n, c, k, e, t, m) == Total(Expand(n, c, k, e, t), m) + Missed(n, e, t)
    decreases Size(e) + FactorsSize(t)
  {
    match e
    case V(i) => if t.Push? { SumIsTotal(n, c, k + Code(i), t.e, t.rest, m); }
    case C(d) => if t.Push? { SumIsTotal(n, c * d, k, t.e, t.rest, m); }
    case Add(x, y) =>
      SumIsTotal(n, c, k, x, t, m);
      SumIsTotal(n, c, k, y, t, m);
      TotalOfAppend(Expand(n, c, k, x, t), Expand(n, c, k, y, t), m);
    case Sub(x, y) =>
      SumIsTotal(n, c, k, x, t, m);
      SumIsTotal(n, -c, k, y, t, m);
      TotalOfAppend(Expand(n, c, k, x, t), Expand(n, -c, k, y, t), m);
    case Mul(x, y) =>
      if n > 0 {
        if x.V? { SumIsTotal(n - 1, c, k + Code(x.i), y, t, m); }
        else if y.V? { SumIsTotal(n - 1, c, k + Code(y.i), x, t, m); }
        else { SumIsTotal(n - 1, c, k, x, Push(y, t), m); }
      }
  }

  lemma {:induction false} TotalOfNothing(t: Terms)
    ensures Total(t, (k: int) => 0) == 0
  {
    if t.Term? { TotalOfNothing(t.rest); }
  }

  // ---- values in a ring ------------------------------------------------------------

  ghost function Rest<T>(env: seq<T>): seq<T> { if env == [] then [] else env[1..] }

  ghost function Mono<T>(r: Ring<T>, k: int, env: seq<T>): T
    decreases k
  {
    if k <= 0 then r.one
    else r.mul(Power(r, Lookup(r, env, 0), k % 65536), Mono(r, k / 65536, Rest(env)))
  }

  // Sum of the exponents of a monomial
  ghost function Degree(k: int): nat
    decreases k
  {
    if k <= 0 then 0 else k % 65536 + Degree(k / 65536)
  }

  ghost function Value<T>(r: Ring<T>, t: Terms, env: seq<T>): T
    decreases t
  {
    match t
    case Nil => r.zero
    case Term(k, c, rest) => r.add(r.mul(OfInt(r, c), Mono(r, k, env)), Value(r, rest, env))
  }

  ghost function FactorsValue<T>(r: Ring<T>, s: Factors, env: seq<T>): T
    decreases s
  {
    match s case Empty => r.one case Push(e, t) => r.mul(Eval(r, e, env), FactorsValue(r, t, env))
  }

  lemma Digits(k: int, l: int)
    requires k >= 0 && l >= 0 && k % 65536 + l % 65536 < 65536
    ensures (k + l) % 65536 == k % 65536 + l % 65536 && (k + l) / 65536 == k / 65536 + l / 65536
  {
  }

  lemma MonoStep<T(!new)>(r: Ring<T>, k: int, env: seq<T>)
    requires IsRing(r) && k >= 0
    ensures Mono(r, k, env) == r.mul(Power(r, Lookup(r, env, 0), k % 65536), Mono(r, k / 65536, Rest(env)))
  {
    Use(r, r.one, r.one, r.one);
  }

  lemma LowDigits(k: int, l: int)
    requires k >= 0 && l >= 0 && Degree(k) + Degree(l) < 65536
    ensures k % 65536 + l % 65536 < 65536 && Degree(k / 65536) + Degree(l / 65536) < 65536
  {
  }

  lemma Smaller(k: int, l: int)
    requires k >= 0 && l >= 0 && k + l > 0
    ensures 0 <= k / 65536 && 0 <= l / 65536 && k / 65536 + l / 65536 < k + l
  {
  }

  lemma DegreeStep(k: int)
    requires k >= 0
    ensures Degree(k) == k % 65536 + Degree(k / 65536)
  {
  }

  lemma {:induction false} DegreeMul(k: int, l: int)
    requires k >= 0 && l >= 0 && Degree(k) + Degree(l) < 65536
    ensures Degree(k + l) == Degree(k) + Degree(l)
    decreases k + l
  {
    if k + l > 0 {
      LowDigits(k, l);
      Digits(k, l);
      Smaller(k, l);
      var x, y := k / 65536, l / 65536;
      DegreeMul(x, y);
      DegreeStep(k); DegreeStep(l); DegreeStep(k + l);
    }
  }

  lemma {:induction false} MonoMul<T(!new)>(r: Ring<T>, k: int, l: int, env: seq<T>)
    requires IsRing(r) && k >= 0 && l >= 0 && Degree(k) + Degree(l) < 65536
    ensures Mono(r, k + l, env) == r.mul(Mono(r, k, env), Mono(r, l, env))
    decreases k + l
  {
    if k == 0 && l == 0 {
      Use(r, r.one, r.one, r.one);
    } else {
      Digits(k, l);
      MonoMul(r, k / 65536, l / 65536, Rest(env));
      MonoStep(r, k, env); MonoStep(r, l, env);
      PowerAdd(r, Lookup(r, env, 0), k % 65536, l % 65536);
      SwapMul(r, Power(r, Lookup(r, env, 0), k % 65536), Power(r, Lookup(r, env, 0), l % 65536),
              Mono(r, k / 65536, Rest(env)), Mono(r, l / 65536, Rest(env)));
    }
  }

  lemma {:induction false} MonoOfVariable<T(!new)>(r: Ring<T>, i: int, env: seq<T>)
    requires IsRing(r)
    ensures Mono(r, Code(i), env) == Lookup(r, env, i) && Degree(Code(i)) == 1
    decreases i
  {
    var x := Lookup(r, env, i);
    Use(r, x, r.one, r.one);
    Use(r, r.one, x, x);
    if i <= 0 {
      assert Power(r, x, 1) == r.mul(x, Power(r, x, 0));
    } else {
      MonoOfVariable(r, i - 1, Rest(env));
      assert Code(i) / 65536 == Code(i - 1) && Code(i) % 65536 == 0;
    }
  }

  lemma {:induction false} ValueOfAppend<T(!new)>(r: Ring<T>, s: Terms, t: Terms, env: seq<T>)
    requires IsRing(r)
    ensures Value(r, Append(s, t), env) == r.add(Value(r, s, env), Value(r, t, env))
    decreases s
  {
    var y := Value(r, t, env);
    if s.Nil? {
      Use(r, y, r.zero, r.zero);
      Use(r, r.zero, y, y);
    } else {
      ValueOfAppend(r, s.rest, t, env);
      Use(r, r.mul(OfInt(r, s.c), Mono(r, s.k, env)), Value(r, s.rest, env), y);
    }
  }

  // The value of c k e t
  ghost function ProductValue<T>(r: Ring<T>, c: int, k: int, e: Expr, t: Factors, env: seq<T>): T {
    r.mul(r.mul(OfInt(r, c), Mono(r, k, env)), r.mul(Eval(r, e, env), FactorsValue(r, t, env)))
  }

  ghost predicate Kept<T>(r: Ring<T>, n: int, c: int, k: int, e: Expr, t: Factors, env: seq<T>) {
    Value(r, Expand(n, c, k, e, t), env) == ProductValue(r, c, k, e, t, env)
  }

  ghost function Count(t: Factors): nat { match t case Empty => 0 case Push(_, rest) => 1 + Count(rest) }

  lemma SumKept<T(!new)>(r: Ring<T>, n: int, c: int, k: int, a: Expr, b: Expr, t: Factors, env: seq<T>)
    requires IsRing(r) && Kept(r, n, c, k, a, t, env) && Kept(r, n, c, k, b, t, env)
    ensures Kept(r, n, c, k, Add(a, b), t, env)
  {
    ValueOfAppend(r, Expand(n, c, k, a, t), Expand(n, c, k, b, t), env);
    DistributeIn(r, r.mul(OfInt(r, c), Mono(r, k, env)), Eval(r, a, env), Eval(r, b, env), FactorsValue(r, t, env));
  }

  lemma SubKept<T(!new)>(r: Ring<T>, n: int, c: int, k: int, a: Expr, b: Expr, t: Factors, env: seq<T>)
    requires IsRing(r) && Kept(r, n, c, k, a, t, env) && Kept(r, n, -c, k, b, t, env)
    ensures Kept(r, n, c, k, Sub(a, b), t, env)
  {
    ValueOfAppend(r, Expand(n, c, k, a, t), Expand(n, -c, k, b, t), env);
    DifferenceKept(r, c, Mono(r, k, env), Eval(r, a, env), Eval(r, b, env), FactorsValue(r, t, env));
  }

  lemma NestedKept<T(!new)>(r: Ring<T>, n: int, c: int, k: int, a: Expr, b: Expr, t: Factors, env: seq<T>)
    requires IsRing(r) && n > 0 && !a.V? && !b.V? && Kept(r, n - 1, c, k, a, Push(b, t), env)
    ensures Kept(r, n, c, k, Mul(a, b), t, env)
  {
    Use(r, Eval(r, a, env), Eval(r, b, env), FactorsValue(r, t, env));
  }

  // Expansion keeps the value.
  lemma {:induction false} ExpandKeeps<T(!new)>(r: Ring<T>, n: int, c: int, k: int, e: Expr, t: Factors, env: seq<T>)
    requires IsRing(r) && n >= 0 && k >= 0 && Degree(k) + n + Count(t) < 65535 && Missed(n, e, t) == 0
    ensures Kept(r, n, c, k, e, t, env)
    decreases Size(e) + FactorsSize(t)
  {
    match e
    case V(i) =>
      Raise(r, k, i, env);
      if t.Push? { ExpandKeeps(r, n, c, k + Code(i), t.e, t.rest, env); }
      VariableKept(r, n, c, k, i, t, env);
    case C(d) =>
      if t.Push? { ExpandKeeps(r, n, c * d, k, t.e, t.rest, env); }
      ConstantKept(r, n, c, k, d, t, env);
    case Add(a, b) =>
      ExpandKeeps(r, n, c, k, a, t, env);
      ExpandKeeps(r, n, c, k, b, t, env);
      SumKept(r, n, c, k, a, b, t, env);
    case Sub(a, b) =>
      ExpandKeeps(r, n, c, k, a, t, env);
      ExpandKeeps(r, n, -c, k, b, t, env);
      SubKept(r, n, c, k, a, b, t, env);
    case Mul(a, b) =>
      if a.V? || b.V? {
        var i, d := if a.V? then a.i else b.i, if a.V? then b else a;
        Raise(r, k, i, env);
        ExpandKeeps(r, n - 1, c, k + Code(i), d, t, env);
        VariableFactorKept(r, n, c, k, a, b, i, d, t, env);
      } else {
        ExpandKeeps(r, n - 1, c, k, a, Push(b, t), env);
        NestedKept(r, n, c, k, a, b, t, env);
      }
  }

  lemma VariableFactorKept<T(!new)>(r: Ring<T>, n: int, c: int, k: int, a: Expr, b: Expr, i: int, d: Expr,
                                    t: Factors, env: seq<T>)
    requires IsRing(r) && n > 0
    requires Mono(r, k + Code(i), env) == r.mul(Mono(r, k, env), Lookup(r, env, i))
    requires if a.V? then i == a.i && d == b else b.V? && i == b.i && d == a
    requires Kept(r, n - 1, c, k + Code(i), d, t, env)
    ensures Kept(r, n, c, k, Mul(a, b), t, env)
  {
    var l, x, v, y, z := OfInt(r, c), Mono(r, k, env), Lookup(r, env, i), Eval(r, d, env), FactorsValue(r, t, env);
    Use(r, l, x, v); Use(r, r.mul(l, x), v, r.mul(y, z)); Use(r, v, y, z);
    Use(r, Eval(r, a, env), Eval(r, b, env), v);
  }

  // Raising the exponent of variable i multiplies a monomial by it.
  lemma Raise<T(!new)>(r: Ring<T>, k: int, i: int, env: seq<T>)
    requires IsRing(r) && k >= 0 && Degree(k) < 65535
    ensures k + Code(i) > 0 && Degree(k + Code(i)) == Degree(k) + 1
    ensures Mono(r, k + Code(i), env) == r.mul(Mono(r, k, env), Lookup(r, env, i))
  {
    CodeIsPositive(i);
    MonoOfVariable(r, i, env);
    DegreeMul(k, Code(i));
    MonoMul(r, k, Code(i), env);
  }

  lemma {:induction false} CodeIsPositive(i: int)
    ensures Code(i) > 0
    decreases i
  {
    if i > 0 { CodeIsPositive(i - 1); }
  }

  lemma SingleTerm<T(!new)>(r: Ring<T>, k: int, c: int, env: seq<T>)
    requires IsRing(r)
    ensures Value(r, Term(k, c, Nil), env) == r.mul(OfInt(r, c), Mono(r, k, env))
  {
    Use(r, r.mul(OfInt(r, c), Mono(r, k, env)), r.zero, r.zero);
  }

  lemma VariableKept<T(!new)>(r: Ring<T>, n: int, c: int, k: int, i: int, t: Factors, env: seq<T>)
    requires IsRing(r)
    requires Mono(r, k + Code(i), env) == r.mul(Mono(r, k, env), Lookup(r, env, i))
    requires t.Push? ==> Kept(r, n, c, k + Code(i), t.e, t.rest, env)
    ensures Kept(r, n, c, k, V(i), t, env)
  {
    var l, x, v := OfInt(r, c), Mono(r, k, env), Lookup(r, env, i);
    SingleTerm(r, k + Code(i), c, env);
    Use(r, l, x, v);
    Use(r, r.mul(l, x), v, FactorsValue(r, t, env));
    Use(r, v, r.one, r.one);
  }

  lemma ConstantKept<T(!new)>(r: Ring<T>, n: int, c: int, k: int, d: int, t: Factors, env: seq<T>)
    requires IsRing(r)
    requires t.Push? ==> Kept(r, n, c * d, k, t.e, t.rest, env)
    ensures Kept(r, n, c, k, C(d), t, env)
  {
    var l, v, x := OfInt(r, c), OfInt(r, d), Mono(r, k, env);
    SingleTerm(r, k, c * d, env);
    OfIntMul(r, c, d);
    Use(r, l, v, x); Use(r, v, x, x); Use(r, l, x, v);
    Use(r, r.mul(l, x), v, FactorsValue(r, t, env));
    Use(r, v, r.one, r.one);
  }

  lemma DistributeIn<T(!new)>(r: Ring<T>, x: T, a: T, b: T, z: T)
    requires IsRing(r)
    ensures r.mul(x, r.mul(r.add(a, b), z)) == r.add(r.mul(x, r.mul(a, z)), r.mul(x, r.mul(b, z)))
  {
    Use(r, r.add(a, b), z, z); Use(r, a, z, z); Use(r, b, z, z);
    Use(r, z, a, b);
    Use(r, x, r.mul(a, z), r.mul(b, z));
  }

  lemma DifferenceKept<T(!new)>(r: Ring<T>, c: int, x: T, a: T, b: T, z: T)
    requires IsRing(r)
    ensures r.mul(r.mul(OfInt(r, c), x), r.mul(r.sub(a, b), z)) ==
            r.add(r.mul(r.mul(OfInt(r, c), x), r.mul(a, z)), r.mul(r.mul(OfInt(r, -c), x), r.mul(b, z)))
  {
    var n, d := OfInt(r, -1), OfInt(r, c);
    SubIsAddNeg(r, a, b);
    DistributeIn(r, r.mul(d, x), a, r.mul(n, b), z);
    OfIntMul(r, c, -1);
    Use(r, d, n, x); Use(r, n, x, x); Use(r, d, x, n);
    Use(r, r.mul(d, x), n, r.mul(b, z)); Use(r, n, b, z);
  }

  // ---- comparison --------------------------------------------------------------------

  ghost function Indicator(k: int): int -> int { (l: int) => if l == k then 1 else 0 }

  ghost function Without(t: Terms, k: int): Terms {
    match t case Nil => Nil case Term(l, c, rest) => if l == k then Without(rest, k) else Term(l, c, Without(rest, k))
  }

  ghost function Length(t: Terms): nat { match t case Nil => 0 case Term(_, _, rest) => 1 + Length(rest) }

  lemma {:induction false} SplitOff<T(!new)>(r: Ring<T>, t: Terms, k: int, env: seq<T>)
    requires IsRing(r)
    ensures Value(r, t, env) ==
                r.add(r.mul(OfInt(r, Total(t, Indicator(k))), Mono(r, k, env)), Value(r, Without(t, k), env))
    ensures Length(Without(t, k)) <= Length(t)
    decreases t
  {
    if t.Nil? {
      MulZero(r, Mono(r, k, env));
      Use(r, r.zero, r.zero, r.zero);
    } else {
      SplitOff(r, t.rest, k, env);
      var n, x := Total(t.rest, Indicator(k)), Mono(r, k, env);
      var a, s, w := r.mul(OfInt(r, t.c), Mono(r, t.k, env)), r.mul(OfInt(r, n), x), Value(r, Without(t.rest, k), env);
      if t.k == k {
        OfIntAdd(r, t.c, n);
        Use(r, x, OfInt(r, t.c), OfInt(r, n));
        Use(r, OfInt(r, t.c), x, x); Use(r, OfInt(r, n), x, x); Use(r, OfInt(r, t.c + n), x, x);
        Use(r, a, s, w);
      } else {
        Use(r, a, s, w); Use(r, s, a, w); Use(r, a, s, s);
      }
    }
  }

  lemma {:induction false} TotalWithout(t: Terms, k: int, l: int)
    ensures Total(Without(t, k), Indicator(l)) == if l == k then 0 else Total(t, Indicator(l))
  {
    if t.Term? { TotalWithout(t.rest, k, l); }
  }

  // Terms whose coefficients cancel monomial by monomial have value zero.
  lemma {:induction false} CancelledIsZero<T(!new)>(r: Ring<T>, t: Terms, env: seq<T>)
    requires IsRing(r) && forall k: int :: Total(t, Indicator(k)) == 0
    ensures Value(r, t, env) == r.zero
    decreases Length(t)
  {
    if t.Term? {
      SplitOff(r, t, t.k, env);
      SplitOff(r, t.rest, t.k, env);
      var w := Without(t, t.k);
      forall l: int ensures Total(w, Indicator(l)) == 0 { TotalWithout(t, t.k, l); }
      CancelledIsZero(r, w, env);
      MulZero(r, Mono(r, t.k, env));
      Use(r, r.zero, r.zero, r.zero);
    }
  }

  lemma UnitFactors<T(!new)>(r: Ring<T>, x: T)
    requires IsRing(r)
    ensures r.mul(r.mul(OfInt(r, 1), r.one), r.mul(x, r.one)) == x
  {
    Use(r, r.zero, r.one, r.one); Use(r, r.one, r.zero, r.zero);
    assert OfInt(r, 1) == r.add(OfInt(r, 0), r.one) == r.one;
    Use(r, r.one, r.one, r.one); Use(r, x, r.one, r.one); Use(r, r.one, x, x);
  }

  datatype Equation = Equation(lhs: Expr, rhs: Expr)

  /** The difference of the two sides expands to nothing; the verifier decides this by evaluation. */
  ghost predicate Valid(q: Equation) {
    forall m: int -> int :: Sum(99, 1, 0, Sub(q.lhs, q.rhs), Empty, m) == 0
  }

  /** A valid equation holds in every commutative ring, for every value of its variables. */
  lemma Apply<T(!new)>(r: Ring<T>, q: Equation, env: seq<T>)
    requires IsRing(r) && Valid(q)
    ensures Eval(r, q.lhs, env) == Eval(r, q.rhs, env)
  {
    var d, t := Sub(q.lhs, q.rhs), Expand(99, 1, 0, Sub(q.lhs, q.rhs), Empty);
    SumIsTotal(99, 1, 0, d, Empty, k => 0);
    TotalOfNothing(t);
    forall k: int ensures Total(t, Indicator(k)) == 0 { SumIsTotal(99, 1, 0, d, Empty, Indicator(k)); }
    CancelledIsZero(r, t, env);
    ExpandKeeps(r, 99, 1, 0, d, Empty, env);
    var x, y := Eval(r, q.lhs, env), Eval(r, q.rhs, env);
    UnitFactors(r, r.sub(x, y));
    Use(r, x, y, y); Use(r, r.zero, y, y); Use(r, y, r.zero, r.zero);
  }
}
