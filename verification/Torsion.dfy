/** No point of the two curves has y = 0: -3 is not a cube modulo P, and -3 / (9 + u) is not a cube in Fp2. */
module Torsion {
  import opened Arithmetic
  import opened Reduction
  import opened Rings
  import opened Powers
  import opened FieldLaws
  import opened BaseField
  import opened Extensions
  import opened Tower
  import opened PrimeCharacteristic
  import opened ResidueIntegers
  import opened TowerFrobenius
  import opened TowerInverses
  import opened PairingInstance
  import opened AffineCurve

  /** In a field whose nonzero elements have order dividing 3 k, the product of l of order 9 and a cube is no cube when
      the k-th power of l is not one. */
  lemma NotACube<T(!new)>(s: Ring<T>, k: nat, c: T, l: T, g: T, e: nat, x: T)
    requires IsField(s) && (forall a: T {:trigger Power(s, a, 3 * k)} :: a != s.zero ==> Power(s, a, 3 * k) == s.one)
    requires c == s.mul(l, Power(s, g, 3)) && c != s.zero
    requires Power(s, l, 9) == s.one && k % 9 == e && Power(s, l, e) != s.one
    ensures Power(s, x, 3) != c
  {
    if Power(s, x, 3) == c {
      NonzeroProduct(s, l, Power(s, g, 3));
      NonzeroPower(s, x, 3); NonzeroPower(s, g, 3);
      PowerOfPower(s, x, 3, k); PowerOfPower(s, g, 3, k);
      PowerOfProduct(s, l, Power(s, g, 3), k);
      Remainder(s, l, k, 9, e);
      OneIsUnit(s, Power(s, l, e));
    }
  }

  lemma NoTorsionWithoutCube<T(!new)>(s: Ring<T>, b: T, c: T)
    requires IsRing(s) && c == s.sub(s.zero, b) && forall x: T :: Power(s, x, 3) != c
    ensures NoTwoTorsion(s, b)
  {
    forall x: T ensures s.add(s.mul(s.mul(x, x), x), b) != s.zero {
      var y := s.mul(s.mul(x, x), x);
      SmallPowers(s, x);
      Use(s, x, s.mul(x, x), x);
      if s.add(y, b) == s.zero { SubUnique(s, s.zero, b, y); }
    }
  }

  // ---- y^2 = x^3 + 3 ---------------------------------------------------------------------------------------

  const MONTGOMERY_MINUS_THREE: Fe := 2835618237479817285229536898052677859331024519843486484651854290584230417520
  const CUBIC_LAMBDA: Fe := 18731201692820842353848075059342071549041157989550039552249237545853671124488
  const CUBIC_LAMBDA_6: Fe := 17419166386535333598783630241015674584964973961482396687585055285806960741276
  const CUBIC_ROOT: Fe := 9537327827215285567676503313540190520157755160226523176617442981243889656796

  lemma CubicLambda(r: Ring<Fe>)
    requires r == Mont()
    ensures Power(r, CUBIC_LAMBDA, 6) == CUBIC_LAMBDA_6 && Power(r, CUBIC_LAMBDA, 9) == MONTGOMERY_ONE
  {
    var l2: Fe := 3885660733798085002415807183973966991993203502683019987873162822449458232924;
    FpValue(CUBIC_LAMBDA, CUBIC_LAMBDA, l2,
      -4526213372029531319616714005122349526854147543371987046448529743082759307840);
    var l4: Fe := 15188662007381582519010693549410799447200679130075808160158891972422000841995;
    FpValue(l2, l2, l4,
      -79660508037366476377332596842821603459484290389500927418482205857973844308368);
    var l6: Fe := 17419166386535333598783630241015674584964973961482396687585055285806960741276;
    FpValue(l4, l2, l6,
      -89453671204801224335803511980143142944412079113537754660054751753094497034132);
    var l8: Fe := 10018972627906489386623255809705563899050837217222648529738477197279170666170;
    FpValue(l4, l4, l8,
      -42462171333911200582207546911869397919673541054189763992811311497967397718465);
    FpValue(l8, CUBIC_LAMBDA, MONTGOMERY_ONE,
      -25023190613385563287864100288825551180739831044640608935066001060737488504912);
    MontIsRing();
    NinthPower(r, CUBIC_LAMBDA, l2, l4, l6, l8);
  }

  lemma NinthPower<T(!new)>(r: Ring<T>, a: T, a2: T, a4: T, a6: T, a8: T)
    requires IsRing(r) && a2 == r.mul(a, a) && a4 == r.mul(a2, a2) && a6 == r.mul(a4, a2) && a8 == r.mul(a4, a4)
    ensures Power(r, a, 6) == a6 && Power(r, a, 9) == r.mul(a8, a)
  {
    SmallPowers(r, a);
    PowerAdd(r, a, 2, 2); PowerAdd(r, a, 4, 2); PowerAdd(r, a, 4, 4); PowerAdd(r, a, 8, 1);
  }

  lemma MinusThreeFactors()
    ensures MONTGOMERY_MINUS_THREE == MontMul(CUBIC_LAMBDA, Power(Mont(), CUBIC_ROOT, 3))
  {
    var c2: Fe := 5895665882838860894010569283274727067345739452257814170128268683729034111180;
    FpValue(CUBIC_ROOT, CUBIC_ROOT, c2,
      -27033273132060293182135598710379562579751397328520679593266208268139129259408);
    var c3: Fe := 13719567859959082284623044061397858480240110662927701736162644197452940418656;
    FpValue(c2, CUBIC_ROOT, c3,
      -70009663938120737688221646200657692057217219496936004792241340967634617443792);
    FpValue(CUBIC_LAMBDA, c3, MONTGOMERY_MINUS_THREE,
      -3260114011517820852282534023527111212968175552618658129761105733993321876224);
    ThirdPower(Mont(), CUBIC_ROOT);
  }

  lemma ThirdPower(r: Ring<Fe>, a: Fe)
    requires r == Mont()
    ensures Power(r, a, 3) == r.mul(r.mul(a, a), a)
  {
    MontIsRing();
    SmallPowers(r, a);
    Use(r, a, a, a);
  }

  lemma ThirdOfP()
    ensures 3 * (P / 3) + 1 == P && P / 3 % 9 == 6
  {
  }

  lemma UnitsOfBaseField(r: Ring<Fe>, p: nat, k: nat)
    requires r == Mont() && p == P && IsPrime(p) && 3 * k + 1 == p
    ensures forall a: Fe {:trigger Power(r, a, 3 * k)} :: a != r.zero ==> Power(r, a, 3 * k) == r.one
  {
    MontIsField();
    EveryResidueIsFixed(p);
    forall a: Fe | a != r.zero ensures Power(r, a, 3 * k) == r.one { OrderOfUnits(r, a, p); }
  }

  /** No point of y^2 = x^3 + 3 over the prime field has y = 0. */
  lemma CurveHasNoTwoTorsion(r: Ring<Fe>, b: Fe)
    requires IsPrime(P) && r == Mont() && r.sub(r.zero, b) == MONTGOMERY_MINUS_THREE
    ensures NoTwoTorsion(r, b)
  {
    ThirdOfP();
    MontIsField();
    UnitsOfBaseField(r, P, P / 3);
    CubicLambda(r);
    MinusThreeFactors();
    forall x: Fe ensures Power(r, x, 3) != MONTGOMERY_MINUS_THREE {
      NotACube(r, P / 3, MONTGOMERY_MINUS_THREE, CUBIC_LAMBDA, CUBIC_ROOT, 6, x);
    }
    NoTorsionWithoutCube(r, b, MONTGOMERY_MINUS_THREE);
  }

  // ---- y^2 = x^3 + 3 / (9 + u) -------------------------------------------------------------------------------

  const MINUS_TWIST: F2<Fe> := Quad(5115962632078357433750013847525671369884302701340880540125236228278928603807,
      21319802579386124396274181984421089380931388634926614713786233869280900808160)
  const TWIST_LAMBDA: F2<Fe> := Quad(3885660733798085002415807183973966991993203502683019987873162822449458232924,
      0)
  const TWIST_LAMBDA_3: F2<Fe> := Quad(17419166386535333598783630241015674584964973961482396687585055285806960741276,
      0)
  const TWIST_ROOT: F2<Fe> := Quad(17029515527954700028635808575934580594344169951130360359739621599530545468834,
      20617586191070586505776426973701759712653832127985830189361607648393258524311)

  lemma TwistLambda(s: Ring<F2<Fe>>)
    requires s == Fp2(Mont())
    ensures Power(s, TWIST_LAMBDA, 3) == TWIST_LAMBDA_3 && Power(s, TWIST_LAMBDA, 9) == s.one
  {
    var l2: F2<Fe> := Quad(15188662007381582519010693549410799447200679130075808160158891972422000841995,
      0);
    RealValue(TWIST_LAMBDA, TWIST_LAMBDA, l2.c0,
      -79660508037366476377332596842821603459484290389500927418482205857973844308368);
    ImaginaryValue(TWIST_LAMBDA, TWIST_LAMBDA, l2.c1,
      0);
    Fp2Value(TWIST_LAMBDA, TWIST_LAMBDA, l2);
    var l3: F2<Fe> := Quad(17419166386535333598783630241015674584964973961482396687585055285806960741276,
      0);
    RealValue(l2, TWIST_LAMBDA, l3.c0,
      -89453671204801224335803511980143142944412079113537754660054751753094497034132);
    ImaginaryValue(l2, TWIST_LAMBDA, l3.c1,
      0);
    Fp2Value(l2, TWIST_LAMBDA, l3);
    var l6: F2<Fe> := Quad(20006444479023397533370224967097343182639219473961804911780625968796493078869,
      0);
    RealValue(l3, l3, l6.c0,
      -91974520687759541474212286642380905430047200492050524994598993409043347519376);
    ImaginaryValue(l3, l3, l6.c1,
      0);
    Fp2Value(l3, l3, l6);
    RealValue(l6, l3, MONTGOMERY_ONE,
      -17675493081125514181444271687885188181737951108853826271220787606134186571564);
    ImaginaryValue(l6, l3, 0,
      0);
    Fp2Value(l6, l3, Quad(MONTGOMERY_ONE, 0));
    MontIsRing();
    Fp2IsRing(Mont());
    NinthPowerByThree(s, TWIST_LAMBDA, l2, l3, l6);
  }

  lemma NinthPowerByThree<T(!new)>(r: Ring<T>, a: T, a2: T, a3: T, a6: T)
    requires IsRing(r) && a2 == r.mul(a, a) && a3 == r.mul(a2, a) && a6 == r.mul(a3, a3)
    ensures Power(r, a, 3) == a3 && Power(r, a, 9) == r.mul(a6, a3)
  {
    SmallPowers(r, a);
    Use(r, a, a, a);
    PowerAdd(r, a, 3, 3); PowerAdd(r, a, 6, 3);
  }

  lemma MinusTwistFactors()
    ensures var s := Fp2(Mont()); MINUS_TWIST == s.mul(TWIST_LAMBDA, Power(s, TWIST_ROOT, 3))
  {
    var s := Fp2(Mont());
    var c2: F2<Fe> := Quad(16425296541090485881581115706335327225511079299964625421260919452381080331202,
      3621489319188296930510205940495582710265083177913399853850025046396777735846);
    RealValue(TWIST_ROOT, TWIST_ROOT, c2.c0,
      -93063654126638224684686578113675690122287912307168797791861866489250393414539);
    ImaginaryValue(TWIST_ROOT, TWIST_ROOT, c2.c1,
      12923613632049993252474378785262907034215536558421822886328063311975014840324);
    Fp2Value(TWIST_ROOT, TWIST_ROOT, c2);
    var c3: F2<Fe> := Quad(9834086653003281651901886874512696847012781054187911828311881799027036732343,
      8635431648261535470787081789612933723085829286111486980271585531061540900221);
    RealValue(c2, TWIST_ROOT, c3.c0,
      -42655820772800367713715220928527222477240299104885149295652235228489712950442);
    ImaginaryValue(c2, TWIST_ROOT, c3.c1,
      -27393359064212284157671468139525142679654417225584415194128792218308731766090);
    Fp2Value(c2, TWIST_ROOT, c3);
    RealValue(TWIST_LAMBDA, c3, MINUS_TWIST.c0,
      -25318436044084426294997454753097725922236392453108247402034685371852167328740);
    ImaginaryValue(TWIST_LAMBDA, c3, MINUS_TWIST.c1,
      -111251969350729888056386464621021952976580072836324972111287879934396462944332);
    Fp2Value(TWIST_LAMBDA, c3, MINUS_TWIST);
    MontIsRing();
    Fp2IsRing(Mont());
    SmallPowers(s, TWIST_ROOT);
    Use(s, TWIST_ROOT, TWIST_ROOT, TWIST_ROOT);
  }

  const THIRD_OF_P2: nat :=
    159698392005540947480662681738892913599750772177033607478815934084690031228792745815947017273145957323729410771604366753945418544713195649548797674289296

  lemma ThirdOfP2()
    ensures 3 * THIRD_OF_P2 + 1 == P * P && THIRD_OF_P2 % 9 == 3
  {
  }

  lemma UnitsOfFp2(r: Ring<Fe>, s: Ring<F2<Fe>>, p: nat, k: nat)
    requires r == Mont() && s == Fp2(r) && p == P && IsPrime(p) && 3 * k + 1 == p * p
    ensures forall a: F2<Fe> {:trigger Power(s, a, 3 * k)} :: a != s.zero ==> Power(s, a, 3 * k) == s.one
  {
    MontIsRing();
    Fp2IsField();
    PrimeVanishes(p);
    EveryResidueIsFixed(p);
    SixthOfP();
    forall a: F2<Fe> | a != s.zero ensures Power(s, a, 3 * k) == s.one {
      ConjugationIsPower(r, p, a);
      ConjugationIsPower(r, p, Fp2Conjugate(r, a));
      NegateTwice(r, a.c1);
      PowerOfPower(s, a, p, p);
      OrderOfUnits(s, a, p * p);
    }
  }

  /** No point of the twisted curve over Fp2 has y = 0. */
  lemma TwistHasNoTwoTorsion(s: Ring<F2<Fe>>, b: F2<Fe>)
    requires IsPrime(P) && s == Fp2(Mont()) && s.sub(s.zero, b) == MINUS_TWIST
    ensures NoTwoTorsion(s, b)
  {
    ThirdOfP2();
    Fp2IsField();
    UnitsOfFp2(Mont(), s, P, THIRD_OF_P2);
    TwistLambda(s);
    MinusTwistFactors();
    forall x: F2<Fe> ensures Power(s, x, 3) != MINUS_TWIST {
      NotACube(s, THIRD_OF_P2, MINUS_TWIST, TWIST_LAMBDA, TWIST_ROOT, 3, x);
    }
    NoTorsionWithoutCube(s, b, MINUS_TWIST);
  }
}
