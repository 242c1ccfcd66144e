/** ECDSA as in secp256r1_ecdsa.py, over an abstract commutative group with a generator of prime order. The script's
    addition of two equal points raises an error, and the model keeps that. */
module Ecdsa {
  import opened Arithmetic
  import opened Rings
  import opened ModularExponentiation
  import opened PrimeCharacteristic

  /** A group of points with their x-coordinates. */
  datatype Group<!A> = Group(infinity: A, add: (A, A) -> A, double: A -> A, x: A -> int)

  ghost predicate IsGroup<A(!new)>(g: Group<A>) {
    forall a: A, b: A, c: A {:trigger At(a, b, c)} :: GroupLaws(g, a, b, c)
  }

  ghost predicate GroupLaws<A>(g: Group<A>, a: A, b: A, c: A) {
    && g.add(a, b) == g.add(b, a)
    && g.add(g.add(a, b), c) == g.add(a, g.add(b, c))
    && g.add(g.infinity, a) == a
    && g.double(a) == g.add(a, a)
  }

  lemma UseGroup<A(!new)>(g: Group<A>, a: A, b: A, c: A)
    requires IsGroup(g)
    ensures GroupLaws(g, a, b, c)
  {
    assert At(a, b, c);
  }

  ghost function Multiple<A>(g: Group<A>, p: A, n: nat): A {
    if n == 0 then g.infinity else g.add(p, Multiple(g, p, n - 1))
  }

  lemma {:induction false} MultipleAdd<A(!new)>(g: Group<A>, p: A, m: nat, n: nat)
    requires IsGroup(g)
    ensures Multiple(g, p, m + n) == g.add(Multiple(g, p, m), Multiple(g, p, n))
  {
    var q := Multiple(g, p, n);
    if m == 0 {
      UseGroup(g, q, q, q);
    } else {
      MultipleAdd(g, p, m - 1, n);
      UseGroup(g, p, Multiple(g, p, m - 1), q);
    }
  }

  lemma {:induction false} MultipleMul<A(!new)>(g: Group<A>, p: A, m: nat, n: nat)
    requires IsGroup(g)
    ensures m * n >= 0 && Multiple(g, Multiple(g, p, m), n) == Multiple(g, p, m * n)
    decreases n
  {
    if n > 0 {
      MultipleMul(g, p, m, n - 1);
      assert m * n == m + m * (n - 1);
      MultipleAdd(g, p, m, m * (n - 1));
    }
  }

  // Multiples of a point of order n depend on the factor modulo n only.
  lemma MultipleModulo<A(!new)>(g: Group<A>, p: A, n: nat, k: nat)
    requires IsGroup(g) && n > 0 && Multiple(g, p, n) == g.infinity
    ensures k % n >= 0 && Multiple(g, p, k) == Multiple(g, p, k % n)
  {
    Split(k, n);
    MultipleOfOrder(g, p, n, k / n, k % n);
  }

  lemma Split(k: nat, n: nat)
    requires n > 0
    ensures k / n >= 0 && k % n >= 0 && k == n * (k / n) + k % n
  {
  }

  lemma MultipleOfOrder<A(!new)>(g: Group<A>, p: A, n: nat, q: nat, k: nat)
    requires IsGroup(g) && Multiple(g, p, n) == g.infinity
    ensures n * q + k >= 0 && Multiple(g, p, n * q + k) == Multiple(g, p, k)
  {
    MultipleMul(g, p, n, q);
    InfinityMultiple(g, q);
    MultipleAdd(g, p, n * q, k);
    UseGroup(g, Multiple(g, p, k), g.infinity, g.infinity);
  }

  lemma {:induction false} InfinityMultiple<A(!new)>(g: Group<A>, n: nat)
    requires IsGroup(g)
    ensures Multiple(g, g.infinity, n) == g.infinity
  {
    if n > 0 {
      InfinityMultiple(g, n - 1);
      UseGroup(g, g.infinity, g.infinity, g.infinity);
    }
  }

  // ---- the script's addition and multiplication --------------------------------------------------------

  /** What the script does: it raises an error, by a failed assertion or in an addition, or it returns a value. */
  datatype Outcome<T> = AssertionFailed | AdditionFailed | Completed(value: T)

  /** point_add: for equal points it calls point_double with one argument too many, unless the sum is infinity. */
  function PointAdd<A(==)>(g: Group<A>, p: A, q: A): Outcome<A> {
    if p == q && g.add(p, q) != g.infinity then AdditionFailed else Completed(g.add(p, q))
  }

  lemma {:induction false} TwoToGrows(i: nat, j: nat)
    requires i <= j
    ensures TwoTo(i) <= TwoTo(j)
    decreases j
  {
    if i < j { TwoToGrows(i, j - 1); }
  }

  /** Turn i of scalar_mul adds 2^i p to an equal point. */
  ghost predicate MeetsAt<A>(g: Group<A>, p: A, n: nat, i: nat) {
    var t := TwoTo(i);
    n / t % 2 == 1 && PointAdd(g, Multiple(g, p, n % t), Multiple(g, p, t)) == AdditionFailed
  }

  ghost predicate AddsEqualPoints<A>(g: Group<A>, p: A, n: nat) { exists i: nat :: MeetsAt(g, p, n, i) }

  lemma DivisionIs(n: int, m: int, q: int, s: int)
    requires 0 <= s < m && n == q * m + s
    ensures n / m == q && n % m == s
  {
    var d := n / m - q;
    DivModUnique(n, m, q, s);
    assert n == n / m * m + n % m && n / m * m == q * m + d * m;
    MulGap(m, d);
  }

  lemma SplitBit(h: int, b: int, t: int)
    ensures (2 * h + b) * t == h * (2 * t) + b * t
  {
  }

  // The division by 2 t from the division by t
  lemma NextBit(n: nat, t: nat)
    requires t > 0
    ensures n / (2 * t) == n / t / 2 && n % (2 * t) == if n / t % 2 == 1 then n % t + t else n % t
  {
    var q, s := n / t, n % t;
    var h, b := q / 2, q % 2;
    SplitBit(h, b, t);
    DivisionIs(n, 2 * t, h, if b == 1 then t + s else s);
  }

  // What one turn of scalar_mul does to the two multiples
  lemma Turn<A(!new)>(g: Group<A>, point: A, n: nat, t: nat)
    requires IsGroup(g) && t > 0
    ensures n % t >= 0 && n % (2 * t) >= 0 && n / (2 * t) == n / t / 2
    ensures g.double(Multiple(g, point, t)) == Multiple(g, point, 2 * t)
    ensures g.add(Multiple(g, point, n % t), Multiple(g, point, t)) == Multiple(g, point, n % t + t)
    ensures n % (2 * t) == if n / t % 2 == 1 then n % t + t else n % t
  {
    NextBit(n, t);
    MultipleAdd(g, point, n % t, t); MultipleAdd(g, point, t, t);
    UseGroup(g, Multiple(g, point, t), Multiple(g, point, t), Multiple(g, point, t));
  }

  lemma NoMoreBits(n: nat, i: nat, j: nat)
    requires n / TwoTo(i) == 0 && i <= j
    ensures n / TwoTo(j) == 0 && n % TwoTo(i) == n
  {
    TwoToGrows(i, j);
    assert n == n / TwoTo(i) * TwoTo(i) + n % TwoTo(i);
    DivisionIs(n, TwoTo(j), 0, n); DivisionIs(n, TwoTo(i), 0, n);
  }

  /** scalar_mul: double-and-add is repeated addition, except that it fails exactly when a turn adds equal points. */
  method ScalarMul<A(==,!new)>(g: Group<A>, point: A, n: nat) returns (res: Outcome<A>)
    requires IsGroup(g)
    ensures res == if AddsEqualPoints(g, point, n) then AdditionFailed else Completed(Multiple(g, point, n))
  {
    var p, multiplier, sum := point, n, g.infinity;
    ghost var i: nat, t: nat := 0, 1;
    OneTimes(g, point);
    DivisionIs(n, 1, n, 0);
    while multiplier > 0
      invariant t == TwoTo(i) && multiplier == n / t && n % t >= 0
      invariant p == Multiple(g, point, t) && sum == Multiple(g, point, n % t)
      invariant forall j: nat :: j < i ==> !MeetsAt(g, point, n, j)
    {
      Turn(g, point, n, t);
      if multiplier % 2 == 1 {
        var added := PointAdd(g, sum, p);
        assert MeetsAt(g, point, n, i) <==> added == AdditionFailed;
        if added == AdditionFailed { return AdditionFailed; }
        sum := added.value;
      }
      p := g.double(p);
      multiplier := multiplier / 2;
      i, t := i + 1, 2 * t;
    }
    NoMoreBits(n, i, i);
    forall j: nat ensures !MeetsAt(g, point, n, j) {
      if j >= i { NoMoreBits(n, i, j); }
    }
    return Completed(sum);
  }

  lemma OneTimes<A(!new)>(g: Group<A>, p: A)
    requires IsGroup(g)
    ensures Multiple(g, p, 1) == p && Multiple(g, p, 0) == g.infinity
  {
    UseGroup(g, p, g.infinity, p);
    assert Multiple(g, p, 1) == g.add(p, Multiple(g, p, 0));
    UseGroup(g, g.infinity, p, p);
  }

  lemma TwoTimes<A(!new)>(g: Group<A>, p: A)
    requires IsGroup(g)
    ensures Multiple(g, p, 2) == g.double(p)
  {
    OneTimes(g, p);
    UseGroup(g, p, p, p);
    assert Multiple(g, p, 2) == g.add(p, Multiple(g, p, 1));
  }

  // ---- points of prime order --------------------------------------------------------------------------

  /** p has order n: none of its first n - 1 multiples is infinity. */
  ghost predicate HasOrder<A>(g: Group<A>, p: A, n: nat) {
    n > 0 && Multiple(g, p, n) == g.infinity && forall m: nat :: 0 < m < n ==> Multiple(g, p, m) != g.infinity
  }

  lemma PrimeOrder<A(!new)>(g: Group<A>, p: A, n: nat)
    requires IsGroup(g) && IsPrime(n) && Multiple(g, p, n) == g.infinity && p != g.infinity
    ensures HasOrder(g, p, n)
  {
    forall m: nat | 0 < m < n ensures Multiple(g, p, m) != g.infinity {
      PrimeCoprime(m, n);
      var x, y :| Combination(m, n, x, y) == 1;
      BezoutCong(m, n, x, y);
      ModReduce(x, 0, n);
      CongMul(x % n, x, m, m, n);
      var k := x % n;
      MultipleMul(g, p, m, k);
      InfinityMultiple(g, k);
      assert k * m == m * k && x * m == m * x;
      OneTimes(g, p);
      SameMultiple(g, p, n, m * k, 1);
    }
  }

  // Equal multiples differ by a multiple of the order.
  lemma EqualMultiples<A(!new)>(g: Group<A>, p: A, n: nat, k: nat, l: nat)
    requires IsGroup(g) && HasOrder(g, p, n)
    ensures Multiple(g, p, k) == Multiple(g, p, l) <==> Cong(k, l, n)
  {
    if Cong(k, l, n) {
      SameMultiple(g, p, n, k, l);
    } else {
      MultipleModulo(g, p, n, k); MultipleModulo(g, p, n, l);
      var a: nat, b: nat := k % n, l % n;
      if Multiple(g, p, a) == Multiple(g, p, b) {
        if a < b { SmallMultiplesDiffer(g, p, n, a, b); } else { SmallMultiplesDiffer(g, p, n, b, a); }
      }
    }
  }

  lemma SmallMultiplesDiffer<A(!new)>(g: Group<A>, p: A, n: nat, a: nat, b: nat)
    requires IsGroup(g) && HasOrder(g, p, n) && a < b <= n && (b == n ==> a > 0)
    ensures Multiple(g, p, a) != Multiple(g, p, b)
  {
    if Multiple(g, p, a) == Multiple(g, p, b) {
      MultipleAdd(g, p, n - b, a); MultipleAdd(g, p, n - b, b);
    }
  }

  lemma BitBelow(k: nat, t: nat)
    requires t > 0 && k / t % 2 == 1
    ensures 0 <= k % t < t <= k
  {
    if t > k { DivisionIs(k, t, 0, k); }
  }

  lemma DifferentAtTurn<A(!new)>(g: Group<A>, p: A, n: nat, low: nat, t: nat)
    requires IsGroup(g) && IsPrime(n) && Multiple(g, p, n) == g.infinity && low < t < n
    ensures PointAdd(g, Multiple(g, p, low), Multiple(g, p, t)) != AdditionFailed
  {
    if p == g.infinity {
      InfinityMultiple(g, low); InfinityMultiple(g, t);
      UseGroup(g, p, p, p);
    } else {
      PrimeOrder(g, p, n);
      SmallMultiplesDiffer(g, p, n, low, t);
    }
  }

  /** Below the order, scalar_mul never adds equal points. */
  lemma NeverMeets<A(!new)>(g: Group<A>, p: A, n: nat, k: nat)
    requires IsGroup(g) && IsPrime(n) && Multiple(g, p, n) == g.infinity && k < n
    ensures !AddsEqualPoints(g, p, k)
  {
    forall i: nat ensures !MeetsAt(g, p, k, i) {
      var t := TwoTo(i);
      if k / t % 2 == 1 {
        BitBelow(k, t);
        DifferentAtTurn(g, p, n, k % t, t);
      }
    }
  }

  // ---- signatures ------------------------------------------------------------------------------------

  /** sign. The inverse of k is its power n - 2, and the script asserts that it is one. */
  method Sign<A(==,!new)>(g: Group<A>, z: nat, da: nat, k: nat, point: A,
      n: nat) returns (signature: Outcome<(int, int)>)
    requires IsGroup(g) && n > 2
    ensures var r, i := g.x(Multiple(g, point, k)) % n, IntPower(k, n - 2) % n;
            var s := i * (z + r * da) % n;
            signature == if AddsEqualPoints(g, point, k) then AdditionFailed
                         else if r == 0 || i * k % n != 1 || s == 0 then AssertionFailed
                         else Completed((r, s))
    ensures signature.Completed? ==> IsSignature(g, z, da, k, point, n, signature.value.0, signature.value.1)
  {
    var p := ScalarMul(g, point, k);
    if p == AdditionFailed { return AdditionFailed; }
    var r := g.x(p.value) % n;
    if r == 0 { return AssertionFailed; }
    var kInverse := ModularPow(k, n - 2, n);
    if kInverse * k % n != 1 { return AssertionFailed; }
    var s := kInverse * (z + r * da) % n;
    if s == 0 { return AssertionFailed; }
    return Completed((r, s));
  }

  /** r is the x-coordinate of k G, and s k = z + r da modulo n. */
  ghost predicate IsSignature<A>(g: Group<A>, z: int, da: int, k: nat, point: A, n: int, r: int, s: int) {
    && n > 0 && r == g.x(Multiple(g, point, k)) % n && 0 < r < n && 0 < s < n
    && exists i: int {:trigger i * k} :: i * k % n == 1 && s == i * (z + r * da) % n
  }

  /** What verify does on every input: the assertion on s, then two multiplications and an addition that may fail. */
  ghost function Verdict<A>(g: Group<A>, z: nat, r: nat, s: nat, publicKey: A, point: A, n: nat): Outcome<bool>
    requires n > 2
  {
    var i := IntPower(s, n - 2) % n;
    var u1: nat, u2: nat := z * i % n, r * i % n;
    if i * s % n != 1 then AssertionFailed
    else if AddsEqualPoints(g, point, u1) || AddsEqualPoints(g, publicKey, u2) then AdditionFailed
    else if PointAdd(g, Multiple(g, point, u1), Multiple(g, publicKey, u2)) == AdditionFailed then AdditionFailed
    else Completed(Accepts(g, z, r, i, publicKey, point, n))
  }

  /** verify. */
  method Verify<A(==,!new)>(g: Group<A>, z: nat, r: nat, s: nat, publicKey: A, point: A, n: nat)
    returns (verdict: Outcome<bool>)
    requires IsGroup(g) && n > 2
    ensures verdict == Verdict(g, z, r, s, publicKey, point, n)
  {
    var sInverse := ModularPow(s, n - 2, n);
    if sInverse * s % n != 1 { return AssertionFailed; }
    var u1 := z * sInverse % n;
    var u2 := r * sInverse % n;
    var p1 := ScalarMul(g, point, u1);
    if p1 == AdditionFailed { return AdditionFailed; }
    var p2 := ScalarMul(g, publicKey, u2);
    if p2 == AdditionFailed { return AdditionFailed; }
    var sum := PointAdd(g, p1.value, p2.value);
    if sum == AdditionFailed { return AdditionFailed; }
    var x1 := g.x(sum.value) % n;
    return Completed(x1 == r % n);
  }

  ghost predicate Accepts<A>(g: Group<A>, z: int, r: int, i: int, publicKey: A, point: A, n: int)
    requires n > 0
  {
    g.x(g.add(Multiple(g, point, z * i % n), Multiple(g, publicKey, r * i % n))) % n == r % n
  }

  // u1 + u2 da = k modulo n
  lemma ScalarsCombine(z: int, r: int, da: int, k: int, i: int, j: int, s: int, n: int)
    requires n > 0 && Cong(i * k, 1, n) && Cong(s, i * (z + r * da), n) && Cong(j * s, 1, n)
    ensures Cong(z * j + r * j * da, k, n)
  {
    var t := z + r * da;
    // s k = t, and j t = j s k = k
    CongMul(s, i * t, k, k, n);
    CongMul(i * k, 1, t, t, n);
    assert i * t * k == i * k * t;
    CongMul(s * k, t, j, j, n);
    CongMul(j * s, 1, k, k, n);
    assert s * k * j == j * s * k && t * j == z * j + r * j * da;
  }

  lemma ReducedScalars(a: int, b: int, da: int, n: int)
    requires n > 0
    ensures Cong(a % n + b % n * da, a + b * da, n)
  {
    ModReduce(a, 0, n); ModReduce(b, 0, n);
    CongMul(b % n, b, da, da, n);
    CongAdd(a % n, a, b % n * da, b * da, n);
  }

  lemma SameMultiple<A(!new)>(g: Group<A>, point: A, n: nat, k: nat, l: nat)
    requires IsGroup(g) && n > 0 && Multiple(g, point, n) == g.infinity && Cong(k, l, n)
    ensures Multiple(g, point, k) == Multiple(g, point, l)
  {
    MultipleModulo(g, point, n, k);
    MultipleModulo(g, point, n, l);
  }

  lemma CombinedPoint<A(!new)>(g: Group<A>, point: A, u1: nat, u2: nat, da: nat)
    requires IsGroup(g)
    ensures u1 + u2 * da >= 0
    ensures g.add(Multiple(g, point, u1), Multiple(g, Multiple(g, point, da), u2)) == Multiple(g, point, u1 + u2 * da)
  {
    MultipleMul(g, point, da, u2);
    MultipleAdd(g, point, u1, da * u2);
  }

  /** In the group, signatures verify: for every message, key, nonce and inverse j of s, the equation that verify tests
      holds of what sign returns. */
  lemma SignatureVerifies<A(!new)>(g: Group<A>, z: nat, da: nat, k: nat, point: A, n: nat, r: int, s: int, j: int)
    requires IsGroup(g) && n > 1 && Multiple(g, point, n) == g.infinity
    requires IsSignature(g, z, da, k, point, n, r, s) && j * s % n == 1
    ensures Accepts(g, z, r, j, Multiple(g, point, da), point, n)
  {
    var i :| i * k % n == 1 && s == i * (z + r * da) % n;
    DivModUnique(1, n, 0, 1);
    ModReduce(i * (z + r * da), 0, n);
    ScalarsCombine(z, r, da, k, i, j, s, n);
    ReducedScalars(z * j, r * j, da, n);
    var u1, u2 := z * j % n, r * j % n;
    CombinedPoint(g, point, u1, u2, da);
    SameMultiple(g, point, n, u1 + u2 * da, k);
    ModReduce(g.x(Multiple(g, point, k)), 0, n);
  }

  // ---- Fermat's little theorem for the plain inverses ------------------------------------------------------

  /** The integers as a ring. */
  function Integers(): Ring<int> {
    Ring(0, 1, (a: int, b: int) => a + b, (a: int, b: int) => a - b, (a: int, b: int) => a * b)
  }

  lemma IntegersAreRing()
    ensures IsRing(Integers())
  {
    forall a: int, b: int, c: int ensures Laws(Integers(), a, b, c) { IntegerLaws(a, b, c); }
  }

  lemma IntegerLaws(a: int, b: int, c: int)
    ensures a * b * c == a * (b * c) && a * (b + c) == a * b + a * c
  {
  }

  lemma {:induction false} PowerInIntegers(a: int, n: nat)
    ensures Power(Integers(), a, n) == IntPower(a, n)
  {
    if n > 0 { PowerInIntegers(a, n - 1); }
  }

  lemma {:induction false} IntegerOfInt(n: nat)
    ensures OfInt(Integers(), n) == n
  {
    if n > 0 { IntegerOfInt(n - 1); }
  }

  // A term between the first and the last is a multiple of p.
  lemma InnerTerm(x: int, y: int, p: nat, i: nat) returns (c: int)
    requires IsPrime(p) && 0 < i < p
    ensures BinomialTerm(Integers(), x, y, p, i) == p * c
  {
    var r := Integers();
    var q := PrimeDividesChoose(p, i);
    var m := Power(r, x, i) * Power(r, y, p - i);
    IntegerOfInt(Choose(p, i));
    c := q * m;
    MultiplyOut(p, q, m);
  }

  lemma MultiplyOut(p: int, q: int, m: int)
    ensures p * q * m == p * (q * m)
  {
  }

  // All terms of (x + y)^p but the first and the last are multiples of p.
  lemma {:induction false} InnerTermsCong(x: int, y: int, p: nat, j: nat)
    requires IsPrime(p) && 0 < j <= p
    ensures Cong(Partial(Integers(), x, y, p, j), IntPower(y, p), p)
  {
    var r := Integers();
    if j == 1 {
      IntegersAreRing();
      LastTerm(r, x, y, p);
      PowerInIntegers(y, p);
      assert Partial(r, x, y, p, 0) == 0;
    } else {
      InnerTermsCong(x, y, p, j - 1);
      var c := InnerTerm(x, y, p, j - 1);
      ModShift(Partial(r, x, y, p, j - 1), c, p);
    }
  }

  lemma SumToThePrimeModulo(x: int, y: int, p: nat)
    requires IsPrime(p)
    ensures Cong(IntPower(x + y, p), IntPower(x, p) + IntPower(y, p), p)
  {
    var r := Integers();
    IntegersAreRing();
    BinomialTheorem(r, x, y, p);
    InnerTermsCong(x, y, p, p);
    LastTerm(r, x, y, p);
    PowerInIntegers(x + y, p); PowerInIntegers(x, p);
    CongAdd(Partial(r, x, y, p, p), IntPower(y, p), IntPower(x, p), IntPower(x, p), p);
  }

  lemma {:induction false} PowersOfOne(n: nat)
    ensures IntPower(1, n) == 1
  {
    if n > 0 { PowersOfOne(n - 1); }
  }

  lemma {:induction false} FermatModulo(a: nat, p: nat)
    requires IsPrime(p)
    ensures Cong(IntPower(a, p), a, p)
  {
    if a == 0 {
      assert IntPower(0, p) == 0 * IntPower(0, p - 1);
    } else {
      FermatModulo(a - 1, p);
      SumToThePrimeModulo(a - 1, 1, p);
      PowersOfOne(p);
      CongAdd(IntPower(a - 1, p), a - 1, 1, 1, p);
    }
  }

  /** For a prime modulus, s^(n - 2) inverts every s that is not a multiple of n. */
  lemma PowerInverts(s: nat, n: nat)
    requires IsPrime(n) && n > 2 && s % n != 0
    ensures IntPower(s, n - 2) % n * s % n == 1
  {
    var i := IntPower(s, n - 2);
    FermatModulo(s, n);
    var x := InverseModulo(s, n);
    assert IntPower(s, n) == s * (s * i);
    // s i s = s, and s has the inverse x
    assert i * s * s == s * (s * i) && 1 * s == s;
    CongCancel(i * s, 1, s, x, n);
    ModReduce(i, 0, n);
    ModMul(i, s, n);
    DivModUnique(1, n, 0, 1);
  }

  lemma InverseModulo(s: int, n: int) returns (x: int)
    requires IsPrime(n) && s % n != 0
    ensures Cong(s * x, 1, n)
  {
    PrimeCoprime(s % n, n);
    var x0, y :| Combination(s % n, n, x0, y) == 1;
    BezoutCong(s % n, n, x0, y);
    ModMul(s, x0, n);
    x := x0;
  }

  lemma BezoutCong(s: int, n: int, x: int, y: int)
    requires n > 0 && Combination(s, n, x, y) == 1
    ensures Cong(s * x, 1, n)
  {
    ModShift(1, -y, n);
    assert s * x == 1 + n * -y;
  }

  // ---- what a verdict means --------------------------------------------------------------------------------

  lemma {:induction false} MultipleOfSum<A(!new)>(g: Group<A>, a: A, b: A, n: nat)
    requires IsGroup(g)
    ensures Multiple(g, g.add(a, b), n) == g.add(Multiple(g, a, n), Multiple(g, b, n))
  {
    var ma, mb := Multiple(g, a, n), Multiple(g, b, n);
    if n == 0 {
      UseGroup(g, g.infinity, g.infinity, g.infinity);
    } else {
      var la, lb := Multiple(g, a, n - 1), Multiple(g, b, n - 1);
      MultipleOfSum(g, a, b, n - 1);
      // (a + b) + (la + lb) = (a + la) + (b + lb)
      UseGroup(g, a, b, g.add(la, lb)); UseGroup(g, b, la, lb); UseGroup(g, la, b, lb);
      UseGroup(g, a, la, g.add(b, lb));
    }
  }

  /** q is the point of the multiples of t with s q = t. */
  ghost predicate Divides<A>(g: Group<A>, t: A, s: nat, q: A) {
    Multiple(g, q, s) == t && exists m: nat :: q == Multiple(g, t, m)
  }

  // For j inverse to s modulo n, multiplication by j undoes multiplication by s on points with n t = infinity.
  lemma Undo<A(!new)>(g: Group<A>, t: A, s: nat, j: nat, n: nat)
    requires IsGroup(g) && n > 1 && j * s % n == 1 && Multiple(g, t, n) == g.infinity
    ensures Multiple(g, Multiple(g, t, j), s) == t && Multiple(g, Multiple(g, t, s), j) == t
    ensures Multiple(g, t, j) == g.infinity <==> t == g.infinity
  {
    MultipleMul(g, t, j, s); MultipleMul(g, t, s, j);
    assert j * s == s * j;
    DivModUnique(1, n, 0, 1);
    SameMultiple(g, t, n, j * s, 1);
    OneTimes(g, t);
    InfinityMultiple(g, j); InfinityMultiple(g, s);
  }

  lemma OrderOfMultiple<A(!new)>(g: Group<A>, p: A, z: nat, n: nat)
    requires IsGroup(g) && Multiple(g, p, n) == g.infinity
    ensures Multiple(g, Multiple(g, p, z), n) == g.infinity
  {
    MultipleMul(g, p, z, n); MultipleMul(g, p, n, z);
    assert z * n == n * z;
    InfinityMultiple(g, z);
  }

  lemma OnlyQuotient<A(!new)>(g: Group<A>, t: A, s: nat, j: nat, n: nat, q: A)
    requires IsGroup(g) && n > 1 && j * s % n == 1 && Multiple(g, t, n) == g.infinity
    ensures Divides(g, t, s, q) <==> q == Multiple(g, t, j)
  {
    Undo(g, t, s, j, n);
    if Divides(g, t, s, q) {
      var m: nat :| q == Multiple(g, t, m);
      OrderOfMultiple(g, t, m, n);
      Undo(g, q, s, j, n);
    }
  }

  // u p with u = z j mod n is j (z p).
  lemma ScaledPoint<A(!new)>(g: Group<A>, p: A, z: nat, j: nat, n: nat)
    requires IsGroup(g) && n > 0 && Multiple(g, p, n) == g.infinity
    ensures z * j % n >= 0 && Multiple(g, p, z * j % n) == Multiple(g, Multiple(g, p, z), j)
    ensures Multiple(g, Multiple(g, p, z), n) == g.infinity
  {
    MultipleMul(g, p, z, j);
    var k: nat := z * j;
    MultipleModulo(g, p, n, k);
    OrderOfMultiple(g, p, z, n);
  }

  // The sum that verify computes is j (z G + r Q), and its two points are equal exactly if z G = r Q.
  lemma SumOfVerify<A(!new)>(g: Group<A>, z: nat, r: nat, s: nat, j: nat, publicKey: A, point: A, n: nat)
    requires IsGroup(g) && n > 1 && j * s % n == 1
    requires Multiple(g, point, n) == g.infinity && Multiple(g, publicKey, n) == g.infinity
    ensures z * j % n >= 0 && r * j % n >= 0
    ensures var a, b, u, v := Multiple(g, point, z), Multiple(g, publicKey, r), Multiple(g, point, z * j % n),
                              Multiple(g, publicKey, r * j % n);
            && Multiple(g, g.add(a, b), n) == g.infinity && g.add(u, v) == Multiple(g, g.add(a, b), j)
            && (g.add(u, v) == g.infinity <==> g.add(a, b) == g.infinity) && (u == v <==> a == b)
  {
    var a, b := Multiple(g, point, z), Multiple(g, publicKey, r);
    ScaledPoint(g, point, z, j, n); ScaledPoint(g, publicKey, r, j, n);
    MultipleOfSum(g, a, b, j); MultipleOfSum(g, a, b, n);
    UseGroup(g, g.infinity, g.infinity, g.infinity);
    Undo(g, g.add(a, b), s, j, n); Undo(g, a, s, j, n); Undo(g, b, s, j, n);
  }

  /** What verify decides, for any two points with n G = n Q = infinity, n prime, and all z, r and s. It fails its
      assertion exactly if n divides s, and its last addition exactly if z G = r Q with sum other than infinity. In
      all other cases there is one point R among the multiples of z G + r Q with s R = z G + r Q, and the answer is
      whether the x-coordinate of R is r modulo n. */
  lemma VerdictMeans<A(!new)>(g: Group<A>, z: nat, r: nat, s: nat, publicKey: A, point: A, n: nat)
    requires IsGroup(g) && IsPrime(n) && n > 2
    requires Multiple(g, point, n) == g.infinity && Multiple(g, publicKey, n) == g.infinity
    ensures var verdict, a, b := Verdict(g, z, r, s, publicKey, point, n), Multiple(g, point, z),
                                 Multiple(g, publicKey, r);
            && (verdict == AssertionFailed <==> s % n == 0)
            && (verdict == AdditionFailed <==> s % n != 0 && a == b && g.add(a, b) != g.infinity)
            && (verdict.Completed? ==> exists q: A :: Divides(g, g.add(a, b), s, q))
            && (verdict.Completed? ==> forall q: A :: Divides(g, g.add(a, b), s, q) ==>
                  (verdict.value <==> g.x(q) % n == r % n))
  {
    var j: nat := IntPower(s, n - 2) % n;
    if s % n == 0 {
      ModMul(s, j, n);
      assert j * s == s * j && 0 * j == 0;
      DivModUnique(0, n, 0, 0);
    } else {
      var t := g.add(Multiple(g, point, z), Multiple(g, publicKey, r));
      PowerInverts(s, n);
      NeverMeets(g, point, n, z * j % n); NeverMeets(g, publicKey, n, r * j % n);
      SumOfVerify(g, z, r, s, j, publicKey, point, n);
      forall q: A ensures Divides(g, t, s, q) <==> q == Multiple(g, t, j) { OnlyQuotient(g, t, s, j, n, q); }
      assert Divides(g, t, s, Multiple(g, t, j));
    }
  }

  lemma NonceArithmetic(t: int, t': int, j: int, s: int, n: int)
    requires n > 1 && Cong(t * t', 1, n) && j * s % n == 1 && 0 < s < n
    ensures s * t' * (t * j % n) % n == 1 && s * t' * t % n == s
  {
    var i := s * t';
    DivModUnique(1, n, 0, 1); DivModUnique(s, n, 0, s);
    ModReduce(t * j, 0, n);
    // i (t j) = (t t') (j s) and i t = (t t') s
    CongMul(t * j % n, t * j, i, i, n);
    CongMul(t * t', 1, j * s, 1, n);
    assert t * j * i == t * t' * (j * s) && i * (t * j % n) == t * j % n * i;
    CongMul(t * t', 1, s, s, n);
    assert i * t == t * t' * s && 1 * s == s;
  }

  // The nonce that explains a signature: k = j (z + r da) for j inverse to s
  lemma NonceOf<A(!new)>(g: Group<A>, z: nat, da: nat, point: A, n: nat, r: nat, s: nat, j: nat) returns (k: nat)
    requires IsGroup(g) && IsPrime(n) && Multiple(g, point, n) == g.infinity
    requires 0 < r < n && 0 < s < n && j * s % n == 1 && (z + r * da) % n != 0
    requires g.x(Multiple(g, Multiple(g, point, z + r * da), j)) % n == r
    ensures IsSignature(g, z, da, k, point, n, r, s)
  {
    var t: nat := z + r * da;
    var t' := InverseModulo(t, n);
    ScaledPoint(g, point, t, j, n);
    k := t * j % n;
    NonceArithmetic(t, t', j, s, n);
    assert s * t' * k % n == 1 && s == s * t' * (z + r * da) % n;
  }

  lemma PrimeIsOdd(n: nat)
    requires IsPrime(n) && n > 2
    ensures n % 2 == 1
  {
    assert n % 2 != 0;
  }

  lemma CongDifference(a: int, b: int, n: int)
    requires n > 0
    ensures Cong(a, b, n) <==> (a - b) % n == 0
  {
    DivModUnique(0, n, 0, 0);
    if Cong(a, b, n) { CongAdd(a, a, b, b, n); CongAdd(a, b, b, b, n); }
    if Cong(a - b, 0, n) { CongAdd(a - b, 0, -b, -b, n); }
  }

  // z G + r Q = (z + r da) G for Q = da G, and z G = r Q exactly if z = r da modulo n
  lemma KeyTimes<A(!new)>(g: Group<A>, z: nat, r: nat, da: nat, point: A, n: nat)
    requires IsGroup(g) && IsPrime(n) && Multiple(g, point, n) == g.infinity && point != g.infinity
    ensures var q := Multiple(g, point, da);
            var a, b := Multiple(g, point, z), Multiple(g, q, r);
            && Multiple(g, q, n) == g.infinity && z + r * da >= 0 && g.add(a, b) == Multiple(g, point, z + r * da)
            && (a == b <==> (z - r * da) % n == 0) && (z % n == 0 <==> a == g.infinity)
            && Multiple(g, g.add(a, b), n) == g.infinity
  {
    var q := Multiple(g, point, da);
    ScaledPoint(g, point, da, 1, n);
    CombinedPoint(g, point, z, r, da);
    ScaledPoint(g, point, z + r * da, 1, n);
    MultipleMul(g, point, da, r);
    PrimeOrder(g, point, n);
    EqualMultiples(g, point, n, z, da * r);
    assert da * r == r * da;
    CongDifference(z, r * da, n);
    EqualMultiples(g, point, n, z, 0);
    DivModUnique(0, n, 0, 0);
  }

  // For j inverse to s, verify compares r with the x-coordinate of j t, t = z G + r Q.
  lemma CompletedVerdict<A(!new)>(g: Group<A>, z: nat, r: nat, s: nat, publicKey: A, point: A, n: nat, t: A, j: nat)
    requires IsGroup(g) && IsPrime(n) && n > 2 && s % n != 0 && j * s % n == 1
    requires Multiple(g, point, n) == g.infinity && Multiple(g, publicKey, n) == g.infinity
    requires t == g.add(Multiple(g, point, z), Multiple(g, publicKey, r)) && Multiple(g, t, n) == g.infinity
    requires Multiple(g, point, z) == Multiple(g, publicKey, r) ==> t == g.infinity
    ensures Verdict(g, z, r, s, publicKey, point, n) == Completed(g.x(Multiple(g, t, j)) % n == r % n)
  {
    VerdictMeans(g, z, r, s, publicKey, point, n);
    OnlyQuotient(g, t, s, j, n, Multiple(g, t, j));
  }

  // With t = z + r da and Q = da G, that point is j (t G).
  lemma VerdictForKey<A(!new)>(g: Group<A>, z: nat, da: nat, point: A, n: nat, r: nat, s: nat, t: nat, j: nat)
    requires IsGroup(g) && IsPrime(n) && n > 2 && Multiple(g, point, n) == g.infinity && point != g.infinity
    requires s % n != 0 && t == z + r * da && j * s % n == 1
    requires z % n == 0 || (z - r * da) % n != 0
    ensures Verdict(g, z, r, s, Multiple(g, point, da), point, n) ==
            Completed(g.x(Multiple(g, Multiple(g, point, t), j)) % n == r % n)
  {
    KeyTimes(g, z, r, da, point, n);
    UseGroup(g, g.infinity, g.infinity, g.infinity);
    CompletedVerdict(g, z, r, s, Multiple(g, point, da), point, n, Multiple(g, point, t), j);
  }

  lemma OddDouble<A(!new)>(g: Group<A>, a: A, n: nat)
    requires IsGroup(g) && n > 1 && n % 2 == 1 && Multiple(g, a, n) == g.infinity
    ensures g.add(a, a) == g.infinity <==> a == g.infinity
  {
    var h := (n + 1) / 2;
    ModShift(1, 1, n);
    DivModUnique(1, n, 0, 1);
    assert h * 2 == 1 + n * 1;
    TwoTimes(g, a); OneTimes(g, a);
    UseGroup(g, a, a, a);
    Undo(g, a, h, 2, n);
  }

  /** sign, then verify, over a group with a generator of prime order n: verify accepts what sign returned exactly if
      z is zero or not r da modulo n. In the other case it adds two equal points and fails. */
  lemma RoundTrip<A(!new)>(g: Group<A>, z: nat, da: nat, k: nat, point: A, n: nat, r: nat, s: nat)
    requires IsGroup(g) && IsPrime(n) && n > 2 && Multiple(g, point, n) == g.infinity && point != g.infinity
    requires IsSignature(g, z, da, k, point, n, r, s)
    ensures Verdict(g, z, r, s, Multiple(g, point, da), point, n) ==
            if z % n == 0 || (z - r * da) % n != 0 then Completed(true) else AdditionFailed
  {
    DivModUnique(s, n, 0, s);
    if z % n == 0 || (z - r * da) % n != 0 {
      AcceptsSignature(g, z, da, k, point, n, r, s);
    } else {
      KeyTimes(g, z, r, da, point, n);
      PrimeIsOdd(n);
      ScaledPoint(g, point, z, 1, n);
      OddDouble(g, Multiple(g, point, z), n);
      VerdictMeans(g, z, r, s, Multiple(g, point, da), point, n);
    }
  }

  lemma AcceptsSignature<A(!new)>(g: Group<A>, z: nat, da: nat, k: nat, point: A, n: nat, r: nat, s: nat)
    requires IsGroup(g) && IsPrime(n) && n > 2 && Multiple(g, point, n) == g.infinity && point != g.infinity
    requires IsSignature(g, z, da, k, point, n, r, s) && s % n != 0
    requires z % n == 0 || (z - r * da) % n != 0
    ensures Verdict(g, z, r, s, Multiple(g, point, da), point, n) == Completed(true)
  {
    var j: nat, t: nat := IntPower(s, n - 2) % n, z + r * da;
    PowerInverts(s, n);
    SignatureVerifies(g, z, da, k, point, n, r, s, j);
    KeyTimes(g, z, r, da, point, n);
    SumOfVerify(g, z, r, s, j, Multiple(g, point, da), point, n);
    VerdictForKey(g, z, da, point, n, r, s, t, j);
  }

  /** With z = r da, other than zero modulo n, verify fails on what sign returned. */
  lemma FailsOnEqualPoints<A(!new)>(g: Group<A>, z: nat, da: nat, k: nat, point: A, n: nat, r: nat, s: nat)
    requires IsGroup(g) && IsPrime(n) && n > 2 && Multiple(g, point, n) == g.infinity && point != g.infinity
    requires IsSignature(g, z, da, k, point, n, r, s) && z == r * da && z % n != 0
    ensures Verdict(g, z, r, s, Multiple(g, point, da), point, n) == AdditionFailed
  {
    RoundTrip(g, z, da, k, point, n, r, s);
    DivModUnique(0, n, 0, 0);
  }

  /** With the public key da G: verify accepts (r, s) exactly if it is the signature that some nonce makes. */
  lemma AcceptsExactlySignatures<A(!new)>(g: Group<A>, z: nat, da: nat, point: A, n: nat, r: nat, s: nat)
    requires IsGroup(g) && IsPrime(n) && n > 2 && Multiple(g, point, n) == g.infinity && point != g.infinity
    requires 0 < r < n && 0 < s < n && (z + r * da) % n != 0
    requires z % n == 0 || (z - r * da) % n != 0
    ensures Verdict(g, z, r, s, Multiple(g, point, da), point, n) ==
            Completed(exists k: nat :: IsSignature(g, z, da, k, point, n, r, s))
  {
    if k: nat :| IsSignature(g, z, da, k, point, n, r, s) {
      RoundTrip(g, z, da, k, point, n, r, s);
    } else {
      DivModUnique(s, n, 0, s); DivModUnique(r, n, 0, r);
      var t: nat := z + r * da;
      var j := InverseModulo(s, n);
      var j': nat := j % n;
      InverseReduced(s, j, n);
      VerdictForKey(g, z, da, point, n, r, s, t, j');
      if g.x(Multiple(g, Multiple(g, point, t), j')) % n == r {
        var k := NonceOf(g, z, da, point, n, r, s, j');
      }
    }
  }

  lemma InverseReduced(s: int, j: int, n: int)
    requires n > 1 && Cong(s * j, 1, n)
    ensures j % n >= 0 && j % n * s % n == 1
  {
    ModMul(j, s, n);
    assert j * s == s * j;
    DivModUnique(1, n, 0, 1);
  }

  // ---- a run that fails ------------------------------------------------------------------------------------

  type Fifth = a: int | 0 <= a < 5

  function AddFifths(a: Fifth, b: Fifth): Fifth { if a + b < 5 then a + b else a + b - 5 }
  function DoubleFifth(a: Fifth): Fifth { AddFifths(a, a) }
  function Abscissa(a: Fifth): int { a }

  /** The group of five elements, each its own x-coordinate. */
  function Fifths(): Group<Fifth> { Group(0, AddFifths, DoubleFifth, Abscissa) }

  lemma FifthsAreGroup()
    ensures IsGroup(Fifths())
  {
    forall a: Fifth, b: Fifth, c: Fifth ensures GroupLaws(Fifths(), a, b, c) { FifthLaws(a, b, c); }
  }

  lemma FifthLaws(a: Fifth, b: Fifth, c: Fifth)
    ensures GroupLaws(Fifths(), a, b, c)
  {
  }

  lemma MultiplesOfOne(g: Group<Fifth>)
    requires g == Fifths()
    ensures Multiple(g, 1, 1) == 1 && Multiple(g, 1, 2) == 2 && Multiple(g, 1, 5) == 0
  {
    FifthsAreGroup();
    OneTimes(g, 1); TwoTimes(g, 1);
    MultipleAdd(g, 1, 2, 2); MultipleAdd(g, 1, 1, 4);
  }

  /** Key 1, nonce 2 and z = 2 sign to (2, 2), and verify then adds the point 1 to itself. */
  lemma FailingRun(g: Group<Fifth>, n: nat)
    requires g == Fifths() && n == 5
    ensures IsGroup(g) && IsSignature(g, 2, 1, 2, 1, n, 2, 2)
    ensures Verdict(g, 2, 2, 2, Multiple(g, 1, 1), 1, n) == AdditionFailed
  {
    FifthsAreGroup();
    MultiplesOfOne(g);
    assert 3 * 2 % 5 == 1 && 2 == 3 * (2 + 2 * 1) % 5;
    FailsOnEqualPoints(g, 2, 1, 2, 1, n, 2, 2);
  }

  /** Key 1 and z = 1: verify rejects (3, 1), as the x-coordinate of 1 G + 3 Q is 4. */
  lemma RejectingRun(g: Group<Fifth>, n: nat)
    requires g == Fifths() && n == 5
    ensures Verdict(g, 1, 3, 1, Multiple(g, 1, 1), 1, n) == Completed(false)
  {
    FifthsAreGroup();
    MultiplesOfOne(g);
    MultipleAdd(g, 1, 1, 2);
    VerdictMeans(g, 1, 3, 1, 1, 1, n);
    OneTimes(g, 4);
    assert Divides(g, 4, 1, 4);
  }
}
