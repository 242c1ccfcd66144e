/** The final exponentiation as one power of its argument. */
module PairingExponent {
  import opened BnParameter
  import opened Rings
  import opened Powers
  import opened CyclotomicExponentiation

  /** frobenius is the p-th power map. */
  ghost predicate RaisesTo<S(!new)>(o: Ops<S>, p: nat) {
    forall f: S {:trigger o.frobenius(f)} :: o.frobenius(f) == Power(o.fp12, f, p)
  }

  lemma NatProducts(p: nat)
    ensures p * p >= 0 && p * p * p >= 0 && p * p * p * (p * p * p) >= 0
  {
    assert p * p >= 0;
    assert p * p * p >= 0;
    assert (p * p * p) * (p * p * p) >= 0;
  }

  /** The other maps as powers. */
  lemma MapsArePowers<S(!new)>(o: Ops<S>, p: nat, f: S)
    requires Sound(o) && RaisesTo(o, p)
    ensures p * p >= 0 && o.frobeniusSquare(f) == Power(o.fp12, f, p * p)
    ensures p * p * p >= 0 && o.frobeniusCube(f) == Power(o.fp12, f, p * p * p)
    ensures p * p * p * (p * p * p) >= 0 && o.conjugate(f) == Power(o.fp12, f, p * p * p * (p * p * p))
  {
    var s := o.fp12;
    NatProducts(p);
    Compose(o, f);
    PowerOfPower(s, f, p, p);
    PowerOfPower(s, f, p * p, p);
    ConjugateIsSixth(o, f);
    CubeIsPower(o, p, o.frobeniusCube(f));
    PowerOfPower(s, f, p * p * p, p * p * p);
  }

  lemma CubeIsPower<S(!new)>(o: Ops<S>, p: nat, f: S)
    requires Sound(o) && RaisesTo(o, p)
    ensures p * p * p >= 0 && o.frobeniusCube(f) == Power(o.fp12, f, p * p * p)
  {
    NatProducts(p);
    Compose(o, f);
    PowerOfPower(o.fp12, f, p, p);
    PowerOfPower(o.fp12, f, p * p, p);
  }

  lemma {:induction false} CombinedPowers<S(!new)>(s: Ring<S>, f: S, p1: nat, p2: nat, p3: nat,
                                                    l0: nat, l1: nat, l2: nat, l3: nat)
    requires IsRing(s)
    ensures l0 + l1 * p1 + l2 * p2 + l3 * p3 >= 0
    ensures s.mul(Power(s, Power(s, f, p3), l3),
                  s.mul(Power(s, Power(s, f, p2), l2), s.mul(Power(s, Power(s, f, p1), l1), Power(s, f, l0)))) ==
            Power(s, f, l0 + l1 * p1 + l2 * p2 + l3 * p3)
  {
    PowerOfPower(s, f, p1, l1); PowerOfPower(s, f, p2, l2); PowerOfPower(s, f, p3, l3);
    PowerAdd(s, f, p1 * l1, l0);
    PowerAdd(s, f, p2 * l2, p1 * l1 + l0);
    PowerAdd(s, f, p3 * l3, p2 * l2 + (p1 * l1 + l0));
  }

  /** The hard part as one power. */
  lemma ProductIsPower<S(!new)>(o: Ops<S>, p: nat, f: S, l0: nat, l1: nat, l2: nat, l3: nat)
    requires Sound(o) && RaisesTo(o, p)
    ensures l0 + l1 * p + l2 * (p * p) + l3 * (p * p * p) >= 0
    ensures FrobeniusProduct(o, f, l0, l1, l2, l3) == Power(o.fp12, f, l0 + l1 * p + l2 * (p * p) + l3 * (p * p * p))
  {
    MapsArePowers(o, p, f);
    CombinedPowers(o.fp12, f, p, p * p, p * p * p, l0, l1, l2, l3);
  }

  // f^q / f = f^(q - 1)
  lemma PowerOverBase<S(!new)>(s: Ring<S>, f: S, fi: S, q: nat)
    requires IsRing(s) && Inverses(s, f, fi) && q > 0
    ensures s.mul(Power(s, f, q), fi) == Power(s, f, q - 1)
  {
    var x := Power(s, f, q - 1);
    Use(s, f, x, x); Use(s, x, f, fi); OneIsUnit(s, x);
  }

  ghost function EasyExponent(p: int): int { (p * p * p * (p * p * p) - 1) * (p * p + 1) }

  lemma EasyExponentIsNat(p: nat)
    requires p > 0
    ensures EasyExponent(p) >= 0
  {
    NatProducts(p);
    var c := p * p * p;
    assert c >= 1 by { assert p * p >= 1; assert p * p * p >= 1; }
    assert c * c >= 1;
    assert (c * c - 1) * (p * p + 1) >= 0;
  }

  /** The easy part as one power. */
  lemma EasyPartIsPower<S(!new)>(o: Ops<S>, p: nat, f: S, fi: S)
    requires Sound(o) && RaisesTo(o, p) && Inverses(o.fp12, f, fi) && p > 0
    ensures var t := o.fp12.mul(o.conjugate(f), fi);
            EasyExponent(p) >= 0 && o.fp12.mul(o.frobeniusSquare(t), t) == Power(o.fp12, f, EasyExponent(p))
  {
    var s := o.fp12;
    var t := s.mul(o.conjugate(f), fi);
    EasyExponentIsNat(p);
    MapsArePowers(o, p, f);
    MapsArePowers(o, p, t);
    SixthPowerIsPositive(p);
    EasyPowers(s, f, fi, p * p * p * (p * p * p), p * p, t);
  }

  lemma SixthPowerIsPositive(p: nat)
    requires p > 0
    ensures p * p * p * (p * p * p) > 0
  {
    assert p * p >= 1;
    assert p * p * p >= 1;
    assert (p * p * p) * (p * p * p) >= 1;
  }

  lemma EasyPowers<S(!new)>(s: Ring<S>, f: S, fi: S, q: nat, d: nat, t: S)
    requires IsRing(s) && Inverses(s, f, fi) && q > 0 && t == s.mul(Power(s, f, q), fi)
    ensures (q - 1) * (d + 1) >= 0 && s.mul(Power(s, t, d), t) == Power(s, f, (q - 1) * (d + 1))
  {
    PowerOverBase(s, f, fi, q);
    SmallPowers(s, t);
    PowerAdd(s, t, d, 1);
    PowerOfPower(s, f, q - 1, d + 1);
  }

  /** An invertible f has order dividing p^12 - 1. */
  lemma FullOrder<S(!new)>(o: Ops<S>, p: nat, f: S, fi: S)
    requires Sound(o) && RaisesTo(o, p) && Inverses(o.fp12, f, fi) && p > 0
    ensures var c := p * p * p * (p * p * p); c * c - 1 >= 0 && Power(o.fp12, f, c * c - 1) == o.fp12.one
  {
    var s, c := o.fp12, p * p * p * (p * p * p);
    SixthPowerIsPositive(p);
    assert c * c > 0;
    MapsArePowers(o, p, f);
    MapsArePowers(o, p, o.conjugate(f));
    PowerOfPower(s, f, c, c);
    Compose(o, f);
    PowerOverBase(s, f, fi, c * c);
  }

  // (p^6 - 1) (p^2 + 1) (p^4 - p^2 + 1) = p^12 - 1
  lemma CyclotomicFactors(p: int)
    ensures var c := p * p * p * (p * p * p); EasyExponent(p) * (p * p * p * p - p * p + 1) == c * c - 1
  {
    var d := p * p;
    var e := d * d;
    assert p * p * p * (p * p * p) == d * e;
    assert p * p * p * p == e;
    assert (d + 1) * (e - d + 1) == d * e + 1;
    Multiply(d * e, d + 1, e - d + 1);
  }

  lemma Multiply(c: int, a: int, b: int)
    requires a * b == c + 1
    ensures (c - 1) * a * b == c * c - 1
  {
    assert (c - 1) * a * b == (c - 1) * (a * b);
  }

  /** The total exponent of the final exponentiation, (p^12 - 1) / r times 2 x (6 x^2 + 3 x + 1). */
  ghost function TotalExponent(x: int): int { EasyExponent(FieldOrder(x)) * HardExponent(x) }

  lemma TotalExponentIdentity(x: int)
    ensures var p := FieldOrder(x);
            var c := p * p * p * (p * p * p);
            TotalExponent(x) * GroupOrder(x) == (c * c - 1) * Multiplier(x)
  {
    var p := FieldOrder(x);
    var d := p * p * p * p - p * p + 1;
    HardExponentIdentity(x);
    CyclotomicFactors(p);
    Rotate(EasyExponent(p), HardExponent(x), GroupOrder(x), Multiplier(x), d);
  }

  lemma Rotate(e: int, h: int, r: int, m: int, d: int)
    requires h * r == m * d
    ensures e * h * r == e * d * m
  {
    assert e * h * r == e * (h * r);
    assert e * (m * d) == e * d * m;
  }

  lemma ExponentsAreNat(x: nat)
    requires x > 0
    ensures Lambda0(x) >= 0 && Lambda1(x) >= 0 && Lambda2(x) >= 0 && Lambda3(x) >= 0
    ensures FieldOrder(x) > 0 && GroupOrder(x) > 0 && Multiplier(x) >= 0
  {
    assert x * x >= 0;
    assert x * x * x >= 0;
    assert x * x * x * x >= 0;
  }

  /** Hard part after easy part: the total power, and an element of order dividing the group order r. */
  lemma TotalPower<S(!new)>(o: Ops<S>, x: nat, f: S, fi: S)
    requires Sound(o) && x > 0 && FieldOrder(x) > 0 && RaisesTo(o, FieldOrder(x)) && Inverses(o.fp12, f, fi)
    ensures var t := o.fp12.mul(o.conjugate(f), fi);
            var g := o.fp12.mul(o.frobeniusSquare(t), t);
            var result := FrobeniusProduct(o, g, Lambda0(x), Lambda1(x), Lambda2(x), Lambda3(x));
            && TotalExponent(x) >= 0 && result == Power(o.fp12, f, TotalExponent(x))
            && GroupOrder(x) >= 0 && Power(o.fp12, result, GroupOrder(x)) == o.fp12.one
  {
    ExponentsAreNat(x);
    TotalExponentIdentity(x);
    EasyExponentIsNat(FieldOrder(x));
    ProductIsPower(o, FieldOrder(x), f, Lambda0(x), Lambda1(x), Lambda2(x), Lambda3(x));
    TotalPowerOf(o, FieldOrder(x), Lambda0(x), Lambda1(x), Lambda2(x), Lambda3(x), EasyExponent(FieldOrder(x)),
                 HardExponent(x), GroupOrder(x), Multiplier(x), f, fi);
  }

  lemma TotalPowerOf<S(!new)>(o: Ops<S>, p: nat, l0: nat, l1: nat, l2: nat, l3: nat, e: nat, h: nat, r: nat, m: nat,
                              f: S, fi: S)
    requires Sound(o) && p > 0 && RaisesTo(o, p) && Inverses(o.fp12, f, fi)
    requires e == EasyExponent(p) && h == l0 + l1 * p + l2 * (p * p) + l3 * (p * p * p)
    requires var c := p * p * p * (p * p * p); e * h * r == (c * c - 1) * m
    ensures var t := o.fp12.mul(o.conjugate(f), fi);
            var g := o.fp12.mul(o.frobeniusSquare(t), t);
            && e * h >= 0 && FrobeniusProduct(o, g, l0, l1, l2, l3) == Power(o.fp12, f, e * h)
            && Power(o.fp12, FrobeniusProduct(o, g, l0, l1, l2, l3), r) == o.fp12.one
  {
    var g := Power(o.fp12, f, e);
    EasyPartIsPower(o, p, f, fi);
    ProductIsPower(o, p, g, l0, l1, l2, l3);
    FullOrder(o, p, f, fi);
    OrderOfPower(o.fp12, f, g, e, h, r, p * p * p * (p * p * p) * (p * p * p * (p * p * p)) - 1, m);
  }

  // g = f^e, g^h = f^(e h), and (f^(e h))^r = 1 when e h r is a multiple of the order n of f.
  lemma OrderOfPower<S(!new)>(s: Ring<S>, f: S, g: S, e: nat, h: nat, r: nat, n: nat, m: nat)
    requires IsRing(s) && g == Power(s, f, e) && Power(s, f, n) == s.one && e * h * r == n * m
    ensures e * h >= 0 && Power(s, g, h) == Power(s, f, e * h)
    ensures Power(s, Power(s, g, h), r) == s.one
  {
    PowerOfPower(s, f, e, h);
    PowerOfPower(s, f, e * h, r);
    PowerOfPower(s, f, n, m);
    PowerOfOne(s, m);
  }

  ghost predicate IsTotalPower<S>(s: Ring<S>, x: int, f: S, result: S) {
    && TotalExponent(x) >= 0 && result == Power(s, f, TotalExponent(x))
    && GroupOrder(x) >= 0 && Power(s, result, GroupOrder(x)) == s.one
  }

  lemma ExponentiationIsTotalPower<S(!new)>(o: Ops<S>, p: nat, f: S, fi: S, result: S)
    requires Sound(o) && p == FieldOrder(X) && p > 0 && RaisesTo(o, p) && Inverses(o.fp12, f, fi)
    requires IsExponentiation(o, f, fi, result)
    ensures IsTotalPower(o.fp12, X, f, result)
  {
    TotalPower(o, X, f, fi);
  }
}
