/** The alt_bn128 instance of the pairing tower, in Montgomery form. */
module PairingInstance {
  import opened Arithmetic
  import opened Reduction
  import opened Rings
  import opened BaseField
  import opened Extensions
  import opened Tower
  import opened FrobeniusMaps
  import opened ResidueIntegers
  import opened Powers
  import opened FieldLaws
  import opened PrimeCharacteristic
  import opened TowerFrobenius
  import opened TowerInverses

  /** The constants of frobenius.py. */
  function Constants(): Gammas<Fe> {
    Gammas(
      Quad(1334504125441109323775816677333762124980877086439557453392802825656291576071,
           7532670101108748540749979597679923402841328813027773483599019704565791010162),
      Quad(11461073415658098971834280704587444395456423268720245247603935854280982113072,
           17373957475705492831721812124331982823197004514106338927670775596783233550167),
      Quad(16829996427371746075450799880956928810557034522864196246648550205375670302249,
           20140510615310063345578764457068708762835443761990824243702724480509675468743),
      Quad(9893659366031634526915473325149983243417508801286144596494093251884139331218,
           16514792769865828027011044701859348114858257981779976519405133026725453154633),
      Quad(8443299194457421137480282511969901974227997168695360756777672575877693116391,
           21318636632361225103955470331868462398471880609949088574192481281746934874025),
      1881798392815877688876180778159931906057091683336018750908411925848733129714,
      17419166386535333598783630241015674584964973961482396687585055285806960741276,
      15537367993719455909907449462855742678907882278146377936676643359958227611562,
      20006444479023397533370224967097343182639219473961804911780625968796493078869,
      4469076485303941623462775504241600503731337195815426975103982608838265467307,
      Quad(3649295186494431467217240962842301358951278585756714214031945394966344685949,
           17372117152826387298350653207345606612066102743297871578090761045572893546809),
      Quad(14543349330631744552586812320441124107441202078168618766450326117520897829805,
           4646831431411403714092965637071058625728899792817054432901795759277546050476),
      Quad(5058246444467529146795605864300346278139276634433627416040487689269555906334,
           1747732256529211876667641288188566325860867395306999418986313414135550739840),
      Quad(3025265262868802913511075437173590487338001780554453930995247874855578067679,
           10425289180741305073643362413949631488281652900778689227251281048515799234257),
      Quad(9862576063628467829192720579684130652367741026604221989510773554027227469215,
           16681752610922605480353377694363181135019829138759259603037557916788351015335))
  }

  // ---- products of constants, checked by a quotient -----------------------------------------------

  // d and c both are s0 + sign s1 divided by r, when d = x0 + sign x1 with x0 r = s0 and x1 r = s1.
  lemma CombinationIs(d: int, x0: int, x1: int, s0: int, s1: int, sign: int, c: int, k: int, r: int, r': int, p: int)
    requires p > 0 && Cong(r * r', 1, p) && 0 <= d < p && 0 <= c < p
    requires Cong(x0 * r, s0, p) && Cong(x1 * r, s1, p) && Cong(d, x0 + sign * x1, p)
    requires s0 + sign * s1 == c * r + p * k
    ensures d == c
  {
    CongMul(x1 * r, s1, sign, sign, p);
    CongAdd(x0 * r, s0, sign * (x1 * r), sign * s1, p);
    CongMul(d, x0 + sign * x1, r, r, p);
    assert x0 * r + sign * (x1 * r) == (x0 + sign * x1) * r && x1 * r * sign == sign * (x1 * r)
        && s1 * sign == sign * s1;
    ModShift(c * r, k, p);
    CongCancel(d, c, r, r', p);
    DivModUnique(d, p, 0, d);
    DivModUnique(c, p, 0, c);
  }

  lemma FpValue(a: Fe, b: Fe, c: Fe, k: int)
    requires a * b == c * R + P * k
    ensures MontMul(a, b) == c
  {
    AltBn128Setting();
    MontMulMeans(a, b);
    CombinationIs(MontMul(a, b), MontMul(a, b), 0, a * b, 0, 1, c, k, R, R_PRIME, P);
  }

  lemma Fp2Value(a: F2<Fe>, b: F2<Fe>, c: F2<Fe>)
    requires MontSub(MontMul(a.c0, b.c0), MontMul(a.c1, b.c1)) == c.c0
    requires MontAdd(MontMul(a.c0, b.c1), MontMul(a.c1, b.c0)) == c.c1
    ensures Fp2Mul(Mont(), a, b) == c && Fp2(Mont()).mul(a, b) == c
  {
  }

  lemma RealValue(a: F2<Fe>, b: F2<Fe>, c: Fe, k: int)
    requires a.c0 * b.c0 - a.c1 * b.c1 == c * R + P * k
    ensures MontSub(MontMul(a.c0, b.c0), MontMul(a.c1, b.c1)) == c
  {
    AltBn128Setting();
    var x0, x1 := MontMul(a.c0, b.c0), MontMul(a.c1, b.c1);
    MontMulMeans(a.c0, b.c0);
    MontMulMeans(a.c1, b.c1);
    MontSumValues(x0, x1);
    SubModMeans(x0, x1, P);
    CombinationIs(MontSub(x0, x1), x0, x1, a.c0 * b.c0, a.c1 * b.c1, -1, c, k, R, R_PRIME, P);
  }

  lemma ImaginaryValue(a: F2<Fe>, b: F2<Fe>, c: Fe, k: int)
    requires a.c0 * b.c1 + a.c1 * b.c0 == c * R + P * k
    ensures MontAdd(MontMul(a.c0, b.c1), MontMul(a.c1, b.c0)) == c
  {
    AltBn128Setting();
    var x0, x1 := MontMul(a.c0, b.c1), MontMul(a.c1, b.c0);
    MontMulMeans(a.c0, b.c1);
    MontMulMeans(a.c1, b.c0);
    MontSumValues(x0, x1);
    var d := MontAdd(x0, x1);
    DivModUnique(d, P, 0, d);
    CombinationIs(d, x0, x1, a.c0 * b.c1, a.c1 * b.c0, 1, c, k, R, R_PRIME, P);
  }

  lemma SmallIntegers()
    ensures OfInt(Mont(), 9) == 13381388159399823366557795051099241510703237597767364208733475022892534956023
    ensures OfInt(Mont(), 1) == MONTGOMERY_ONE
  {
    IntegerValue(P, 9, 13381388159399823366557795051099241510703237597767364208733475022892534956023);
    IntegerValue(P, 1, MONTGOMERY_ONE);
  }

  lemma FirstPowers()
    ensures var g, s := Constants(), Fp2(Mont());
            && g.g12 == s.mul(g.g11, g.g11) && g.g13 == s.mul(g.g12, g.g11)
            && g.g14 == s.mul(g.g12, g.g12) && g.g15 == s.mul(g.g14, g.g11)
  {
    var g := Constants();
    RealValue(g.g11, g.g11, g.g12.c0,
      -63141745154461465675158341292749035840809299975526793256724408545662412410965);
    ImaginaryValue(g.g11, g.g11, g.g12.c1,
      -90992323478994468929880644002729115865466723195134712176787833491610597250076);
    Fp2Value(g.g11, g.g11, g.g12);
    RealValue(g.g12, g.g11, g.g13.c0,
      -94313549997102889255550574123288044057616786980874855047828515282780501672482);
    ImaginaryValue(g.g12, g.g11, g.g13.c1,
      -101542810562528463513886378412652097494122305273142848129591315136327279664969);
    Fp2Value(g.g12, g.g11, g.g13);
    RealValue(g.g12, g.g12, g.g14.c0,
      -60128430154479067457335857333407696003308658022158493793977504819312564549991);
    ImaginaryValue(g.g12, g.g12, g.g14.c1,
      -69171105360532694669494112849688482707764129078541740854322505787955590987680);
    Fp2Value(g.g12, g.g12, g.g14);
    RealValue(g.g14, g.g11, g.g15.c0,
      -49746551911061329794940765753400494937971377839163110706234426384462672139868);
    ImaginaryValue(g.g14, g.g11, g.g15.c1,
      -108367069849390799746958531090514486225311548203214301932708636392490403580827);
    Fp2Value(g.g14, g.g11, g.g15);
  }

  lemma ThirdPowers()
    ensures var g, s := Constants(), Fp2(Mont());
            && g.g32 == s.mul(g.g31, g.g31) && g.g33 == s.mul(g.g32, g.g31)
            && g.g34 == s.mul(g.g32, g.g32) && g.g35 == s.mul(g.g34, g.g31)
  {
    var g := Constants();
    RealValue(g.g31, g.g31, g.g32.c0,
      -90115863299975307999806081567423266174433146092275779330428362387885342256920);
    ImaginaryValue(g.g31, g.g31, g.g32.c1,
      -18789738179295985901145062522360354605030230060947990852232102710213391545338);
    Fp2Value(g.g31, g.g31, g.g32);
    RealValue(g.g32, g.g31, g.g33.c0,
      -28022224195044045345868543516164155247526958998640663829419358024810138493461);
    ImaginaryValue(g.g32, g.g31, g.g33.c1,
      3071642567382497872227179772343407461032595660871180294742753203599303011063);
    Fp2Value(g.g32, g.g31, g.g33);
    RealValue(g.g32, g.g32, g.g34.c0,
      -7327487127355058535573963827419670371674256189270408802070624975871544322465);
    ImaginaryValue(g.g32, g.g32, g.g34.c1,
      -48976294526833902196200648074517605165489259911239512083346193740216614778424);
    Fp2Value(g.g32, g.g32, g.g34);
    RealValue(g.g34, g.g31, g.g35.c0,
      -59944398204564852725342609294399904021913480623784979370689398956672699674154);
    ImaginaryValue(g.g34, g.g31, g.g35.c1,
      -84109755979423536899145519849556664620227841721708426353980868802869921966932);
    Fp2Value(g.g34, g.g31, g.g35);
  }

  lemma SecondPowers()
    ensures var g, r := Constants(), Mont();
            && g.g22 == r.mul(g.g21, g.g21) && g.g23 == r.mul(g.g22, g.g21)
            && g.g24 == r.mul(g.g22, g.g22) && g.g25 == r.mul(g.g24, g.g21)
    ensures var g, r := Constants(), Mont(); g.g22 == r.sub(g.g21, r.one)
  {
    var g := Constants();
    FpValue(g.g21, g.g21, g.g22,
      -91988220126550613776600167748746636522909609695320453586102212671064381105380);
    FpValue(g.g22, g.g21, g.g23,
      -80697429769655347643343083079787045086567059595304341080651741115971982327096);
    FpValue(g.g22, g.g22, g.g24,
      -91974520687759541474212286642380905430047200492050524994598993409043347519376);
    FpValue(g.g24, g.g21, g.g25,
      -21922070717949703958094636481781339424303283286984091702446959411000015404842);
    MontSumValues(g.g21, MONTGOMERY_ONE);
  }

  const NINE_PLUS_U: F2<Fe> := Quad(13381388159399823366557795051099241510703237597767364208733475022892534956023,
      6350874878119819312338956282401532409788428879151445726012394534686998597021)

  lemma XiValue()
    ensures Xi(Mont()) == NINE_PLUS_U
  {
    SmallIntegers();
  }

  lemma SixthPower()
    ensures var g, s := Constants(), Fp2(Mont());
            s.mul(NINE_PLUS_U, s.mul(s.mul(g.g12, g.g12), g.g12)) == Fp2Conjugate(Mont(), NINE_PLUS_U)
  {
    var g := Constants();
    var e: F2<Fe> := Quad(9893659366031634526915473325149983243417508801286144596494093251884139331218,
      16514792769865828027011044701859348114858257981779976519405133026725453154633);
    var c: F2<Fe> := Quad(6729835073088586529653772122958989548298377227398918358614263884929882197303,
      3410641754718904955833342565017114246589535134227253693416824152185952402538);
    var x: F2<Fe> := Quad(13381388159399823366557795051099241510703237597767364208733475022892534956023,
      15537367993719455909907449462855742678907882278146377936676643359958227611562);
    RealValue(g.g12, g.g12, e.c0,
      -60128430154479067457335857333407696003308658022158493793977504819312564549991);
    ImaginaryValue(g.g12, g.g12, e.c1,
      -69171105360532694669494112849688482707764129078541740854322505787955590987680);
    Fp2Value(g.g12, g.g12, e);
    RealValue(e, g.g12, c.c0,
      -43530082331161819193432834505796441989975588392116341999958418789556268681881);
    ImaginaryValue(e, g.g12, c.c1,
      -1542200766512730117410056651093935532029539918679833527867316672302147511742);
    Fp2Value(e, g.g12, c);
    RealValue(NINE_PLUS_U, c, x.c0,
      -67664861186936651267418606936611121830536084685331766308871113814948441980679);
    ImaginaryValue(NINE_PLUS_U, c, x.c1,
      -78157248599915270148864976161911409477930052780034951344204470569476044265865);
    Fp2Value(NINE_PLUS_U, c, x);
    MontSumValues(0, NINE_PLUS_U.c1);
  }

  lemma Norms()
    ensures var g, r := Constants(), Mont();
            && Fp2(r).mul(Fp2Conjugate(r, g.g11), g.g11) == Quad(g.g21, r.zero)
            && g.g31 == Fp2ScalarMul(r, g.g11, g.g21)
  {
    var g := Constants();
    var x: F2<Fe> := Quad(1334504125441109323775816677333762124980877086439557453392802825656291576071,
      14355572770730526681496426147577351685854982344270050179090018190079435198421);
    MontSumValues(0, g.g11.c1);
    RealValue(x, g.g11, g.g21,
      -14813992235909463391352371576750660442010178216778822973539875796928753619855);
    ImaginaryValue(x, g.g11, 0,
      1334504125441109323775816677333762124980877086439557453392802825656291576071);
    Fp2Value(x, g.g11, Quad(g.g21, 0));
    FpValue(g.g11.c0, g.g21, g.g31.c0,
      -19190587779425240155513181771894661535129556935783743561633146380589984635790);
    FpValue(g.g11.c1, g.g21, g.g31.c1,
      -91253500100781065080876609414447165938352108277088497645844027465544673167332);
  }

  /** The constants of frobenius.py satisfy the relations that the Frobenius maps rest on. */
  lemma ConstantsAreGood()
    ensures GoodGammas(Mont(), Constants())
  {
    FirstPowers(); SecondPowers(); ThirdPowers(); SixthPower(); Norms(); XiValue();
  }

  // ---- the first constant is the power (p - 1) / 6 of 9 + u ------------------------------------------------

  // 9 + u is LAMBDA, of order 144, times the sixth power of GAMMA_ROOT.
  const LAMBDA: F2<Fe> := Quad(10476649494026741399717032701727204265385747606900400623191848817740436143366,
      13092345631498983571460340139951277874917291318321073531446830931440173409904)
  const LAMBDA_129: F2<Fe> := Quad(15081891216325990655112403324875646597503722435713347247795277587117398372249,
      11549780312954339400106870582324055033571016809055685368799893799958988414892)
  const GAMMA_ROOT: F2<Fe> := Quad(17538315150675557570580958170596081783684386631945027597129866629533646143766,
      9557803666927568147024451802351921070787808410122731946016004158082784092761)

  // The powers of LAMBDA by repeated squaring
  const LAMBDA_2: F2<Fe> := Quad(21562163459214511850724486557002638107197669557754909547925652189449131891241,
      326079412624763371521919188254636981498641599542914114763385705196094317342)
  const LAMBDA_4: F2<Fe> := Quad(0, 13904633361704574389039062993679530891044040719905668517611640019728628899094)
  const LAMBDA_8: F2<Fe> := Quad(3157041179018432868398330685915203539655153167747784110439800348791555084095, 0)
  const LAMBDA_16: F2<Fe> := Quad(3885660733798085002415807183973966991993203502683019987873162822449458232924, 0)
  const LAMBDA_32: F2<Fe> := Quad(15188662007381582519010693549410799447200679130075808160158891972422000841995, 0)
  const LAMBDA_64: F2<Fe> := Quad(10018972627906489386623255809705563899050837217222648529738477197279170666170, 0)
  const LAMBDA_128: F2<Fe> := Quad(9856622043476125571634042881761679181150785194969799612969946271014780450683, 0)

  lemma SmallPowersOfLambda(s: Ring<F2<Fe>>)
    requires s == Fp2(Mont())
    ensures s.mul(LAMBDA, LAMBDA) == LAMBDA_2
    ensures s.mul(LAMBDA_2, LAMBDA_2) == LAMBDA_4
    ensures s.mul(LAMBDA_4, LAMBDA_4) == LAMBDA_8
  {
    RealValue(LAMBDA, LAMBDA, LAMBDA_2.c0,
      -116883630171357094459967776674064209837132269355391174009718125493793143079492);
    ImaginaryValue(LAMBDA, LAMBDA, LAMBDA_2.c1,
      10808104488414640858386115075098431901772356324056945950287279432168042793152);
    Fp2Value(LAMBDA, LAMBDA, LAMBDA_2);
    RealValue(LAMBDA_2, LAMBDA_2, LAMBDA_4.c0,
      21236084046589748479202567368748001125699027958211995433162266484253037573899);
    ImaginaryValue(LAMBDA_2, LAMBDA_2, LAMBDA_4.c1,
      -72915153636777483099045625735398773360042544766698510997243631133604947539580);
    Fp2Value(LAMBDA_2, LAMBDA_2, LAMBDA_4);
    RealValue(LAMBDA_4, LAMBDA_4, LAMBDA_8.c0,
      -25534220637202190676930261103777299758144712111621588664494796737284099732732);
    ImaginaryValue(LAMBDA_4, LAMBDA_4, LAMBDA_8.c1,
      0);
    Fp2Value(LAMBDA_4, LAMBDA_4, LAMBDA_8);
  }

  lemma MiddlePowersOfLambda(s: Ring<F2<Fe>>)
    requires s == Fp2(Mont())
    ensures s.mul(LAMBDA_8, LAMBDA_8) == LAMBDA_16
    ensures s.mul(LAMBDA_16, LAMBDA_16) == LAMBDA_32
    ensures s.mul(LAMBDA_32, LAMBDA_32) == LAMBDA_64
  {
    RealValue(LAMBDA_8, LAMBDA_8, LAMBDA_16.c0,
      -20100373885831940805066458378549217536240152365174242488257966940144875348233);
    ImaginaryValue(LAMBDA_8, LAMBDA_8, LAMBDA_16.c1,
      0);
    Fp2Value(LAMBDA_8, LAMBDA_8, LAMBDA_16);
    RealValue(LAMBDA_16, LAMBDA_16, LAMBDA_32.c0,
      -79660508037366476377332596842821603459484290389500927418482205857973844308368);
    ImaginaryValue(LAMBDA_16, LAMBDA_16, LAMBDA_32.c1,
      0);
    Fp2Value(LAMBDA_16, LAMBDA_16, LAMBDA_32);
    RealValue(LAMBDA_32, LAMBDA_32, LAMBDA_64.c0,
      -42462171333911200582207546911869397919673541054189763992811311497967397718465);
    ImaginaryValue(LAMBDA_32, LAMBDA_32, LAMBDA_64.c1,
      0);
    Fp2Value(LAMBDA_32, LAMBDA_32, LAMBDA_64);
  }

  lemma LargePowersOfLambda(s: Ring<F2<Fe>>)
    requires s == Fp2(Mont())
    ensures s.mul(LAMBDA_64, LAMBDA_64) == LAMBDA_128
    ensures s.mul(LAMBDA_128, LAMBDA) == LAMBDA_129
    ensures s.mul(LAMBDA_128, LAMBDA_16) == s.one
  {
    RealValue(LAMBDA_64, LAMBDA_64, LAMBDA_128.c0,
      -47556994538706686834191791936341835396639408158776643700698899848720820704836);
    ImaginaryValue(LAMBDA_64, LAMBDA_64, LAMBDA_128.c1,
      0);
    Fp2Value(LAMBDA_64, LAMBDA_64, LAMBDA_128);
    RealValue(LAMBDA_128, LAMBDA, LAMBDA_129.c0,
      -75067666640234394023621341083911265736297391799271624199974806482941035680242);
    ImaginaryValue(LAMBDA_128, LAMBDA, LAMBDA_129.c1,
      -55204380597921853928065883516176683448101921685785782065968718660405355732560);
    Fp2Value(LAMBDA_128, LAMBDA, LAMBDA_129);
    RealValue(LAMBDA_128, LAMBDA_16, MONTGOMERY_ONE,
      -31847306586537339078824101980216133474342164192072257877508355163768641700308);
    ImaginaryValue(LAMBDA_128, LAMBDA_16, 0,
      0);
    Fp2Value(LAMBDA_128, LAMBDA_16, Quad(MONTGOMERY_ONE, 0));
  }

  lemma PowersOfLambda(s: Ring<F2<Fe>>)
    requires s == Fp2(Mont())
    ensures Power(s, LAMBDA, 129) == LAMBDA_129 && Power(s, LAMBDA, 144) == s.one
  {
    SmallPowersOfLambda(s); MiddlePowersOfLambda(s); LargePowersOfLambda(s);
    MontIsRing();
    Fp2IsRing(Mont());
    PowersByDoubling(s, LAMBDA, LAMBDA_2, LAMBDA_4, LAMBDA_8, LAMBDA_16, LAMBDA_32, LAMBDA_64, LAMBDA_128);
  }

  lemma PowersByDoubling<T(!new)>(s: Ring<T>, a: T, a2: T, a4: T, a8: T, a16: T, a32: T, a64: T, a128: T)
    requires IsRing(s) && a2 == s.mul(a, a) && a4 == s.mul(a2, a2) && a8 == s.mul(a4, a4) && a16 == s.mul(a8, a8)
    requires a32 == s.mul(a16, a16) && a64 == s.mul(a32, a32) && a128 == s.mul(a64, a64)
    ensures Power(s, a, 129) == s.mul(a128, a) && Power(s, a, 144) == s.mul(a128, a16)
  {
    SmallPowers(s, a);
    PowerAdd(s, a, 2, 2); PowerAdd(s, a, 4, 4); PowerAdd(s, a, 8, 8);
    PowerAdd(s, a, 16, 16); PowerAdd(s, a, 32, 32); PowerAdd(s, a, 64, 64);
    PowerAdd(s, a, 128, 1); PowerAdd(s, a, 128, 16);
  }

  lemma XiFactors()
    ensures var s := Fp2(Mont()); NINE_PLUS_U == s.mul(LAMBDA, Power(s, GAMMA_ROOT, 6))
  {
    var s := Fp2(Mont());
    var c2: F2<Fe> := Quad(3331797389071535701813970119295151425835593466512522279697218502288203122208,
      16619174476475638577559601911314409376698538722527140223379749904244388141403);
    RealValue(GAMMA_ROOT, GAMMA_ROOT, c2.c0,
      -7746391256709355332844630332316765542981765456765160245392558935939627726091);
    ImaginaryValue(GAMMA_ROOT, GAMMA_ROOT, c2.c1,
      -72601231520387676604779706649694910637603027090758866916531320275312291605932);
    Fp2Value(GAMMA_ROOT, GAMMA_ROOT, c2);
    var c4: F2<Fe> := Quad(12920367748763874230726624321738117486321804027208724820455814866606328313431,
      7050882477035674850042469195616236107928896035658523338239243637958483902593);
    RealValue(c2, c2, c4.c0,
      -80462030328043974100296389913010735976583124607152093111895915808266964169567);
    ImaginaryValue(c2, c2, c4.c1,
      -32240731832895303822236230484519596499511766394385597417423892994195204804800);
    Fp2Value(c2, c2, c4);
    var c6: F2<Fe> := Quad(914897377678063810240298220156733390375330855658348481384972588606453206744,
      10722529154682480285881811495685966273991416687779340587992191722518881708244);
    RealValue(c4, c2, c6.c0,
      -8226776284475625464617284817520455970680220126420577458875017093285842546605);
    ImaginaryValue(c4, c2, c6.c1,
      -45840413086563669150666661998349311502996784413315550257786248947452939166709);
    Fp2Value(c4, c2, c6);
    RealValue(LAMBDA, c6, NINE_PLUS_U.c0,
      -76765270757395821101526438385427786546730549642833099863053950581846267131600);
    ImaginaryValue(LAMBDA, c6, NINE_PLUS_U.c1,
      -27917578485911928257177678580449963078316038272360329137524705284293221967672);
    Fp2Value(LAMBDA, c6, NINE_PLUS_U);
    MontIsRing();
    Fp2IsRing(Mont());
    SmallPowers(s, GAMMA_ROOT);
    PowerAdd(s, GAMMA_ROOT, 2, 2); PowerAdd(s, GAMMA_ROOT, 4, 2);
  }

  lemma GammaRootConjugates()
    ensures var s := Fp2(Mont());
            s.mul(Constants().g11, GAMMA_ROOT) == s.mul(LAMBDA_129, Fp2Conjugate(Mont(), GAMMA_ROOT))
  {
    var c: F2<Fe> := Quad(1380179508149029524029006495599799074597911083907770541784866468917481498197,
      15121645172029165359484896695956622683651392862310672552419805146108798484038);
    RealValue(Constants().g11, GAMMA_ROOT, c.c0,
      -9521307762511377241443927054093683268186823472691797344480909228763813374136);
    ImaginaryValue(Constants().g11, GAMMA_ROOT, c.c1,
      -73377366378641804795290089658231516737933582278218685327857762079830769152915);
    Fp2Value(Constants().g11, GAMMA_ROOT, c);
    var d: F2<Fe> := Quad(17538315150675557570580958170596081783684386631945027597129866629533646143766,
      12330439204911707075221953942905354017908502747175091716673033736562442115822);
    RealValue(LAMBDA_129, d, c.c0,
      -1723152093605086529723946450725366002774974752470786638474052583563276439854);
    ImaginaryValue(LAMBDA_129, d, c.c1,
      -62245145275678581358230030915660795127250610372801908738410686628867442670646);
    Fp2Value(LAMBDA_129, d, c);
    MontSumValues(0, GAMMA_ROOT.c1);
  }

  // x = l c^6 with l^n = 1 and c^(6 k + 1) = d: then x^k c = l^(k mod n) d.
  lemma PowerByParts<T(!new)>(s: Ring<T>, x: T, l: T, c: T, d: T, k: nat, n: nat, e: nat)
    requires IsRing(s) && x == s.mul(l, Power(s, c, 6)) && Power(s, c, 6 * k + 1) == d
    requires n > 0 && Power(s, l, n) == s.one && k % n == e
    ensures s.mul(Power(s, x, k), c) == s.mul(Power(s, l, e), d)
  {
    PowerOfProduct(s, l, Power(s, c, 6), k);
    PowerOfPower(s, c, 6, k);
    PowerAdd(s, c, 6 * k, 1);
    SmallPowers(s, c);
    Use(s, Power(s, l, k), Power(s, c, 6 * k), c);
    Remainder(s, l, k, n, e);
  }

  lemma Remainder<T(!new)>(s: Ring<T>, l: T, k: nat, n: nat, e: nat)
    requires IsRing(s) && n > 0 && Power(s, l, n) == s.one && k % n == e
    ensures Power(s, l, k) == Power(s, l, e)
  {
    var q := k / n;
    QuotientIsNat(k, n);
    PowerOfPower(s, l, n, q);
    PowerOfOne(s, q);
    PowerAdd(s, l, n * q, e);
    OneIsUnit(s, Power(s, l, e));
  }

  lemma QuotientIsNat(k: nat, n: nat)
    requires n > 0
    ensures k / n >= 0 && k == n * (k / n) + k % n && n * (k / n) >= 0
  {
  }

  lemma SixthOfP()
    ensures 6 * (P / 6) + 1 == P && P / 6 % 144 == 129 && P % 4 == 3
  {
  }

  /** g11 = (9 + u)^((p - 1) / 6) when p is prime. */
  lemma GammaIsPower(p: nat, g: Gammas<Fe>)
    requires p == P && IsPrime(p) && g == Constants()
    ensures Power(Fp2(Mont()), Xi(Mont()), p / 6) == g.g11
  {
    var r, s := Mont(), Fp2(Mont());
    MontIsRing();
    Fp2IsRing(r);
    PrimeVanishes(p);
    EveryResidueIsFixed(p);
    ConjugationIsPower(r, p, GAMMA_ROOT);
    SixthOfP();
    XiValue();
    XiFactors();
    PowersOfLambda(s);
    GammaRootConjugates();
    PowerByParts(s, NINE_PLUS_U, LAMBDA, GAMMA_ROOT, Fp2Conjugate(r, GAMMA_ROOT), p / 6, 144, 129);
    Fp2IsField();
    assert NINE_PLUS_U != s.zero;
    CancelGammaRoot(s, Power(s, NINE_PLUS_U, p / 6), g.g11, GAMMA_ROOT, LAMBDA, NINE_PLUS_U);
  }

  // c divides l c^6 = x, so it cancels when x does.
  lemma CancelGammaRoot<T(!new)>(s: Ring<T>, a: T, b: T, c: T, l: T, x: T)
    requires IsField(s) && x == s.mul(l, Power(s, c, 6)) && x != s.zero && s.mul(a, c) == s.mul(b, c)
    ensures a == b
  {
    MulZero(s, l); MulZero(s, Power(s, c, 5));
    assert Power(s, c, 6) == s.mul(c, Power(s, c, 5));
    Use(s, a, c, c); Use(s, b, c, c);
    CancelFactor(s, c, a, b);
  }
}
