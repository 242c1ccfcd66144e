/** The integer identity behind the hard part of the final exponentiation, for every BN parameter x. */
module BnParameter {
  /** The parameter x of the curve. */
  const X: int := 4965661367192848881

  function FieldOrder(x: int): int { 36 * x * x * x * x + 36 * x * x * x + 24 * x * x + 6 * x + 1 }
  function GroupOrder(x: int): int { 36 * x * x * x * x + 36 * x * x * x + 18 * x * x + 6 * x + 1 }

  function Lambda0(x: int): int { 1 + 6 * x + 12 * x * x + 12 * x * x * x }
  function Lambda1(x: int): int { 4 * x + 6 * x * x + 12 * x * x * x }
  function Lambda2(x: int): int { 6 * x + 6 * x * x + 12 * x * x * x }
  function Lambda3(x: int): int { -1 + 4 * x + 6 * x * x + 12 * x * x * x }

  function HardExponent(x: int): int {
    var p := FieldOrder(x);
    Lambda0(x) + Lambda1(x) * p + Lambda2(x) * (p * p) + Lambda3(x) * (p * p * p)
  }

  function Multiplier(x: int): int { 2 * x * (6 * x * x + 3 * x + 1) }

  // With s = 6 x^2 = p - r all these have low degree.
  lemma Shapes(x: int, s: int)
    requires s == 6 * x * x
    ensures FieldOrder(x) == s * s + 6 * s * x + 4 * s + 6 * x + 1 && GroupOrder(x) == FieldOrder(x) - s
    ensures Lambda0(x) == 2 * x * s + 2 * s + 6 * x + 1 && Lambda1(x) == 2 * x * s + s + 4 * x
    ensures Lambda2(x) == 2 * x * s + s + 6 * x && Lambda3(x) == 2 * x * s + s + 4 * x - 1
    ensures Multiplier(x) == 2 * x * s + s + 2 * x
  {
    assert x * s == 6 * x * x * x;
    assert s * s == 6 * x * x * s && x * x * s == x * (x * s);
  }

  // m p in terms of s, for m = 2 x - 1
  lemma SmallMultiple(x: int, s: int, p: int, c: int)
    requires s == 6 * x * x && p == s * s + 6 * s * x + 4 * s + 6 * x + 1 && c == 2 * x * s + s + 2 * x
    ensures (2 * x - 1) * p == (2 * x - 1) * (1 + s) + c * s - (2 * x * s + s + 6 * x)
  {
    assert 6 * (x * s * x) == 6 * x * x * s;
    assert (2 * x - 1) * p == 2 * (x * s * s) + 12 * (x * s * x) + 8 * (x * s) + 12 * (x * x) + 2 * x - p;
    assert c * s == 2 * (x * s * s) + s * s + 2 * (x * s);
  }

  // The cofactor of r in s^4 - s^2 + 1
  function Cofactor(x: int, s: int): int { s * s - 6 * s * x + 3 * s - 6 * x + 1 }

  lemma CofactorIdentity(x: int, s: int, p: int)
    requires s == 6 * x * x && p == s * s + 6 * s * x + 4 * s + 6 * x + 1
    ensures (p - s) * Cofactor(x, s) == s * s * s * s - s * s + 1
  {
    var e, d := s * s + 3 * s + 1, 6 * x * (s + 1);
    assert d == 6 * s * x + 6 * x && p - s == e + d && Cofactor(x, s) == e - d;
    assert (e + d) * (e - d) == e * e - d * d;
    assert d * d == 6 * s * ((s + 1) * (s + 1)) by {
      assert d * d == 6 * (6 * x * x) * ((s + 1) * (s + 1));
    }
    assert e * e == s * s * s * s + 6 * (s * s * s) + 11 * (s * s) + 6 * s + 1;
    assert 6 * s * ((s + 1) * (s + 1)) == 6 * (s * s * s) + 12 * (s * s) + 6 * s;
  }

  lemma LowestFactor(x: int, s: int, c: int)
    requires s == 6 * x * x && c == 2 * x * s + s + 2 * x
    ensures c * (1 - 6 * x) == 2 * x - s - 4 * (x * s) - 2 * (s * s)
  {
    assert 6 * (x * s * x) == 6 * x * x * s;
    assert c * (1 - 6 * x) == c - 12 * (x * s * x) - 6 * (x * s) - 12 * (x * x);
  }

  lemma Regroup(x: int, s: int, c: int)
    ensures c * Cofactor(x, s) - c * s * (2 + s) == c * (1 - 6 * x) * (1 + s)
  {
    assert c * (s * s - 6 * s * x + 3 * s - 6 * x + 1) - c * s * (2 + s) == c * (1 - 6 * x) * (1 + s);
  }

  lemma LowestDigit(x: int, s: int, c: int)
    requires s == 6 * x * x && c == 2 * x * s + s + 2 * x
    ensures (1 + s + s * s) * (4 * x + 2 * s + 1) - c * s * (2 + s) + c * Cofactor(x, s) ==
                2 * x * s + 2 * s + 6 * x + 1
  {
    LowestFactor(x, s, c);
    Regroup(x, s, c);
    Expanded(x, s);
  }

  lemma Expanded(x: int, s: int)
    ensures (1 + s + s * s) * (4 * x + 2 * s + 1) + (2 * x - s - 4 * (x * s) - 2 * (s * s)) * (1 + s) ==
            2 * x * s + 2 * s + 6 * x + 1
  {
  }

  // The exponent is c q for the quotient q of p^4 - p^2 + 1 by p - s.
  lemma Telescopes(m: int, s: int, p: int, c: int, u: int)
    ensures (c * (s * s * s - s + u) - m * (1 + s + s * s) * p) +
            (c * (s * s - 1) + m * (1 + s + s * s) - m * (1 + s) * p) * p +
            (c * s + m * (1 + s) - m * p) * (p * p) + (c + m) * (p * p * p) ==
            c * (p * p * p + s * (p * p) + (s * s - 1) * p + (s * s * s - s + u))
  {
  }

  lemma Quartic(s: int, p: int)
    ensures (p * p * p + s * (p * p) + s * s * p + s * s * s) * (p - s) == p * p * p * p - s * s * s * s
  {
  }

  lemma QuotientExpanded(w: int, s: int, p: int, u: int)
    ensures (w - p - s + u) * (p - s) == w * (p - s) + (p - s) * u + s * s - p * p
  {
  }

  lemma QuotientOfCyclotomic(s: int, p: int, u: int)
    requires (p - s) * u == s * s * s * s - s * s + 1
    ensures (p * p * p + s * (p * p) + (s * s - 1) * p + (s * s * s - s + u)) * (p - s) == p * p * p * p - p * p + 1
  {
    Quartic(s, p);
    QuotientExpanded(p * p * p + s * (p * p) + s * s * p + s * s * s, s, p, u);
    assert (s * s - 1) * p == s * s * p - p;
  }

  /** The exponent of the hard part times r is 2 x (6 x^2 + 3 x + 1) (p^4 - p^2 + 1). */
  lemma HardExponentIdentity(x: int)
    ensures var p := FieldOrder(x);
            HardExponent(x) * GroupOrder(x) == Multiplier(x) * (p * p * p * p - p * p + 1)
  {
    var s, p, c, m := 6 * x * x, FieldOrder(x), Multiplier(x), 2 * x - 1;
    var u := Cofactor(x, s);
    var q := p * p * p + s * (p * p) + (s * s - 1) * p + (s * s * s - s + u);
    ExponentIsMultiple(x, s, p, c, m, u, q);
    Shapes(x, s);
    CofactorIdentity(x, s, p);
    QuotientOfCyclotomic(s, p, u);
    Associate(c, q, p - s);
  }

  lemma Associate(c: int, q: int, r: int)
    ensures c * q * r == c * (q * r)
  {
  }

  lemma ExponentIsMultiple(x: int, s: int, p: int, c: int, m: int, u: int, q: int)
    requires s == 6 * x * x && p == FieldOrder(x) && c == Multiplier(x) && m == 2 * x - 1 && u == Cofactor(x, s)
    requires q == p * p * p + s * (p * p) + (s * s - 1) * p + (s * s * s - s + u)
    ensures HardExponent(x) == c * q
  {
    Shapes(x, s);
    SmallMultiple(x, s, p, c);
    LowestDigit(x, s, c);
    MiddleDigits(x, s, p, c, m, u);
    Telescopes(m, s, p, c, u);
  }

  lemma MiddleDigits(x: int, s: int, p: int, c: int, m: int, u: int)
    requires m == 2 * x - 1 && c == 2 * x * s + s + 2 * x
    requires m * p == m * (1 + s) + c * s - (2 * x * s + s + 6 * x)
    requires (1 + s + s * s) * (4 * x + 2 * s + 1) - c * s * (2 + s) + c * u == 2 * x * s + 2 * s + 6 * x + 1
    ensures 2 * x * s + s + 4 * x == c * (s * s - 1) + m * (1 + s + s * s) - m * (1 + s) * p
    ensures 2 * x * s + 2 * s + 6 * x + 1 == c * (s * s * s - s + u) - m * (1 + s + s * s) * p
  {
    var d := 4 * x + 2 * s + 1;
    DigitOfM(x, s, m);
    Spread(m, 1 + s, p, c * s, d);
    Spread(m, 1 + s + s * s, p, c * s, d);
    MiddleExpanded(x, s, c, m, d);
    LowestExpanded(s, c, d, u);
  }

  lemma DigitOfM(x: int, s: int, m: int)
    requires m == 2 * x - 1
    ensures m * (1 + s) == 2 * x + 2 * x * s - 1 - s
  {
  }

  lemma LowestExpanded(s: int, c: int, d: int, u: int)
    ensures c * (s * s * s - s + u) - ((1 + s + s * s) * (c * s) - (1 + s + s * s) * d) ==
            (1 + s + s * s) * d - c * s * (2 + s) + c * u
  {
  }

  lemma Spread(m: int, a: int, p: int, y: int, z: int)
    requires m * p == y - z
    ensures m * a * p == a * y - a * z
  {
    assert m * a * p == a * (m * p);
  }

  lemma MiddleExpanded(x: int, s: int, c: int, m: int, d: int)
    requires c == 2 * x * s + s + 2 * x && m == 2 * x - 1 && d == 4 * x + 2 * s + 1
    ensures c * (s * s - 1) + m * (1 + s + s * s) - ((1 + s) * (c * s) - (1 + s) * d) == 2 * x * s + s + 4 * x
  {
    assert c * (s * s - 1) - (1 + s) * (c * s) == -c - c * s;
    assert c * s == 2 * (x * s * s) + s * s + 2 * (x * s);
  }

  // ---- the digits of the Miller loop ---------------------------------------------------------------

  /** The entries of S_NAF: the signed binary digits of 6 x + 2, lowest first. */
  function Digit(i: int): int {
    if i == 3 || i == 5 || i == 14 || i == 23 || i == 33 || i == 38 || i == 49 || i == 61 || i == 65 then 1
    else if i == 7 || i == 10 || i == 17 || i == 19 || i == 25 || i == 30 || i == 35 || i == 44 || i == 47 || i == 51
       || i == 55 || i == 57 || i == 63 then -1
    else 0
  }

  function SNaf(): (digits: seq<int>)
    ensures |digits| == 66 && forall i: int :: 0 <= i < 66 ==> digits[i] == Digit(i)
  {
    seq(66, (i: nat) => Digit(i))
  }

  ghost function SignedValue(digits: seq<int>, i: nat): int
    requires i <= |digits|
    decreases |digits| - i
  {
    if i == |digits| then 0 else digits[i] + 2 * SignedValue(digits, i + 1)
  }

  ghost predicate NonAdjacent(digits: seq<int>) {
    && (forall i: int :: 0 <= i < |digits| ==> -1 <= digits[i] <= 1)
    && (forall i: int :: 0 <= i < |digits| - 1 ==> digits[i] == 0 || digits[i + 1] == 0)
  }

  // The value of the digits i, ..., 65
  ghost function Tail(i: int): int
    decreases 66 - i
  {
    if i >= 66 then 0 else Digit(i) + 2 * Tail(i + 1)
  }

  lemma TailAt59()
    ensures Tail(59) == 52
  {
    assert Tail(65) == 1;
    assert Tail(64) == 2;
    assert Tail(63) == 3;
    assert Tail(62) == 6;
    assert Tail(61) == 13;
    assert Tail(60) == 26;
  }

  lemma TailAt52()
    ensures Tail(52) == 6616
  {
    TailAt59();
    assert Tail(58) == 104;
    assert Tail(57) == 207;
    assert Tail(56) == 414;
    assert Tail(55) == 827;
    assert Tail(54) == 1654;
    assert Tail(53) == 3308;
  }

  lemma TailAt45()
    ensures Tail(45) == 846796
  {
    TailAt52();
    assert Tail(51) == 13231;
    assert Tail(50) == 26462;
    assert Tail(49) == 52925;
    assert Tail(48) == 105850;
    assert Tail(47) == 211699;
    assert Tail(46) == 423398;
  }

  lemma TailAt38()
    ensures Tail(38) == 108389825
  {
    TailAt45();
    assert Tail(44) == 1693591;
    assert Tail(43) == 3387182;
    assert Tail(42) == 6774364;
    assert Tail(41) == 13548728;
    assert Tail(40) == 27097456;
    assert Tail(39) == 54194912;
  }

  lemma TailAt31()
    ensures Tail(31) == 13873897588
  {
    TailAt38();
    assert Tail(37) == 216779650;
    assert Tail(36) == 433559300;
    assert Tail(35) == 867118599;
    assert Tail(34) == 1734237198;
    assert Tail(33) == 3468474397;
    assert Tail(32) == 6936948794;
  }

  lemma TailAt24()
    ensures Tail(24) == 1775858891198
  {
    TailAt31();
    assert Tail(30) == 27747795175;
    assert Tail(29) == 55495590350;
    assert Tail(28) == 110991180700;
    assert Tail(27) == 221982361400;
    assert Tail(26) == 443964722800;
    assert Tail(25) == 887929445599;
  }

  lemma TailAt17()
    ensures Tail(17) == 227309938073403
  {
    TailAt24();
    assert Tail(23) == 3551717782397;
    assert Tail(22) == 7103435564794;
    assert Tail(21) == 14206871129588;
    assert Tail(20) == 28413742259176;
    assert Tail(19) == 56827484518351;
    assert Tail(18) == 113654969036702;
  }

  lemma TailAt10()
    ensures Tail(10) == 29095672073395599
  {
    TailAt17();
    assert Tail(16) == 454619876146806;
    assert Tail(15) == 909239752293612;
    assert Tail(14) == 1818479504587225;
    assert Tail(13) == 3636959009174450;
    assert Tail(12) == 7273918018348900;
    assert Tail(11) == 14547836036697800;
  }

  lemma TailAt3()
    ensures Tail(3) == 3724246025394636661
  {
    TailAt10();
    assert Tail(9) == 58191344146791198;
    assert Tail(8) == 116382688293582396;
    assert Tail(7) == 232765376587164791;
    assert Tail(6) == 465530753174329582;
    assert Tail(5) == 931061506348659165;
    assert Tail(4) == 1862123012697318330;
  }

  lemma TailAt0()
    ensures Tail(0) == 29793968203157093288
  {
    TailAt3();
    assert Tail(2) == 7448492050789273322;
    assert Tail(1) == 14896984101578546644;
  }

  lemma {:induction false} TailIsValue(i: nat)
    requires i <= 66
    ensures SignedValue(SNaf(), i) == Tail(i)
    decreases 66 - i
  {
    if i < 66 { TailIsValue(i + 1); }
  }

  lemma DigitsApart(i: int)
    ensures -1 <= Digit(i) <= 1 && (Digit(i) == 0 || Digit(i + 1) == 0)
  {
  }

  lemma DigitsNonAdjacent()
    ensures NonAdjacent(SNaf())
  {
    forall i: int | 0 <= i < |SNaf()| ensures -1 <= SNaf()[i] <= 1 { DigitsApart(i); }
    forall i: int | 0 <= i < |SNaf()| - 1 ensures SNaf()[i] == 0 || SNaf()[i + 1] == 0 { DigitsApart(i); }
  }

  /** The digits are non-adjacent, start with 1 and denote 6 x + 2. */
  lemma DigitsOfLoop()
    ensures |SNaf()| == 66 && SNaf()[65] == 1 && NonAdjacent(SNaf())
    ensures SignedValue(SNaf(), 0) == 6 * X + 2
  {
    DigitsNonAdjacent();
    TailIsValue(0);
    TailAt0();
  }
}
