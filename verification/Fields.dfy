/** The alt_bn128 base field: plain residues, Montgomery residues, and the isomorphism between them. */
module BaseField {
  import opened Arithmetic
  import opened Reduction
  import opened Rings

  const R: int := 0x1_0000000000000000_0000000000000000_0000000000000000_0000000000000000
  const P: int := 21888242871839275222246405745257275088696311157297823662689037894645226208583
  const N_PRIME: int := 111032442853175714102588374283752698368366046808579839647964533820976443843465
  const R2_MOD_P: int := 3096616502983703923843567936837374451735540968419076528771170197431451843209
  const R_PRIME: int := 20988524275117001072002809824448087578619730785600314334253784976379291040311
  const MONTGOMERY_ONE: int := 6350874878119819312338956282401532409788428879151445726012394534686998597021

  type Word = x: int | 0 <= x < R
  type Fe = x: int | 0 <= x < P

  // ---- residues modulo p -------------------------------------------------------

  function AddMod(a: int, b: int, p: int): int requires p > 0 { (a + b) % p }
  function SubMod(a: int, b: int, p: int): int requires p > 0 { AddMod(a, p - b, p) }
  function MulMod(a: int, b: int, p: int): int requires p > 0 { a * b % p }

  ghost predicate Residues(a: int, b: int, c: int, p: int) { 0 <= a < p && 0 <= b < p && 0 <= c < p }

  lemma AddModLaws(a: int, b: int, c: int, p: int)
    requires p > 1 && Residues(a, b, c, p)
    ensures AddMod(AddMod(a, b, p), c, p) == AddMod(a, AddMod(b, c, p), p)
    ensures AddMod(a, 0, p) == a
    ensures AddMod(SubMod(a, b, p), b, p) == a
  {
    ModReduce(a + b, c, p);
    ModReduce(b + c, a, p);
    DivModUnique(a, p, 0, a);
    ModReduce(a + (p - b), b, p);
    ModShift(a, 1, p);
  }

  lemma MulModAssoc(a: int, b: int, c: int, p: int)
    requires p > 0
    ensures MulMod(MulMod(a, b, p), c, p) == MulMod(a, MulMod(b, c, p), p)
  {
    ModMul(a * b, c, p);
    ModMul(b * c, a, p);
    assert a * b * c == b * c * a && a * (b * c % p) == b * c % p * a;
  }

  lemma MulModUnit(a: int, b: int, p: int)
    requires 0 <= a < p
    ensures MulMod(a, b, p) == MulMod(b, a, p) && MulMod(a, 1, p) == a
  {
    assert a * b == b * a;
    DivModUnique(a, p, 0, a);
  }

  lemma MulModDistributes(a: int, b: int, c: int, p: int)
    requires p > 0
    ensures MulMod(a, AddMod(b, c, p), p) == AddMod(MulMod(a, b, p), MulMod(a, c, p), p)
  {
    ModMul(b + c, a, p);
    ModAdd(a * b, a * c, p);
    assert (b + c) * a == a * b + a * c && a * ((b + c) % p) == (b + c) % p * a;
  }

  // An operation reached through three recursive steps, more than a proof unfolds by itself: the 254-bit arithmetic of
  // residues stays out of the proofs that do not ask for it with one of the lemmas below.
  function Behind(steps: nat, op: (Fe, Fe) -> Fe, a: Fe, b: Fe): Fe
    decreases steps, a, b
  {
    if steps == 0 then op(a, b) else Behind(steps - 1, op, a, b)
  }

  lemma BehindIs(op: (Fe, Fe) -> Fe, a: Fe, b: Fe)
    ensures Behind(3, op, a, b) == op(a, b)
  {
    assert Behind(3, op, a, b) == Behind(2, op, a, b) == Behind(1, op, a, b) == Behind(0, op, a, b);
  }

  function AddModP(a: Fe, b: Fe): Fe { AddMod(a, b, P) }
  function SubModP(a: Fe, b: Fe): Fe { SubMod(a, b, P) }
  function MulModP(a: Fe, b: Fe): Fe { MulMod(a, b, P) }

  // That p is P, again behind recursive steps
  ghost predicate ModulusAfter(steps: nat, p: int)
    ensures ModulusAfter(steps, p) ==> p > 1
    decreases steps, p
  {
    if steps == 0 then p == P else ModulusAfter(steps - 1, p)
  }

  /** p is the modulus. */
  ghost predicate IsModulus(p: int)
    ensures IsModulus(p) ==> p > 1
  {
    ModulusAfter(3, p)
  }

  lemma ModulusIs(p: int)
    ensures IsModulus(p) <==> p == P
  {
    assert ModulusAfter(3, p) == ModulusAfter(2, p) == ModulusAfter(1, p) == ModulusAfter(0, p);
  }

  function FpAdd(a: Fe, b: Fe): Fe { Behind(3, AddModP, a, b) }
  function FpSub(a: Fe, b: Fe): Fe { Behind(3, SubModP, a, b) }
  function FpMul(a: Fe, b: Fe): Fe { Behind(3, MulModP, a, b) }

  lemma FpValues(a: Fe, b: Fe)
    ensures FpAdd(a, b) == AddMod(a, b, P) && FpSub(a, b) == SubMod(a, b, P) && FpMul(a, b) == MulMod(a, b, P)
  {
    BehindIs(AddModP, a, b); BehindIs(SubModP, a, b); BehindIs(MulModP, a, b);
  }

  /** Residues modulo P with the arithmetic of double_and_add.py. */
  function Fp(): Ring<Fe> { Ring<Fe>.Ring(0, 1, FpAdd, FpSub, FpMul) }

  lemma FpAddLaws(a: Fe, b: Fe, c: Fe)
    ensures FpAdd(a, b) == FpAdd(b, a) && FpAdd(FpAdd(a, b), c) == FpAdd(a, FpAdd(b, c))
    ensures FpAdd(a, 0) == a && FpAdd(FpSub(a, b), b) == a
  {
    FpValues(a, b); FpValues(b, a); FpValues(b, c); FpValues(a, 0);
    FpValues(FpAdd(a, b), c); FpValues(a, FpAdd(b, c)); FpValues(FpSub(a, b), b);
    AddModLaws(a, b, c, P);
  }

  lemma FpMulLaws(a: Fe, b: Fe, c: Fe)
    ensures FpMul(a, b) == FpMul(b, a) && FpMul(a, 1) == a
    ensures FpMul(FpMul(a, b), c) == FpMul(a, FpMul(b, c))
  {
    FpValues(a, b); FpValues(b, a); FpValues(a, 1); FpValues(b, c);
    FpValues(FpMul(a, b), c); FpValues(a, FpMul(b, c));
    MulModUnit(a, b, P);
    MulModAssoc(a, b, c, P);
  }

  lemma FpDistributes(a: Fe, b: Fe, c: Fe)
    ensures FpMul(a, FpAdd(b, c)) == FpAdd(FpMul(a, b), FpMul(a, c))
  {
    FpValues(b, c); FpValues(a, FpAdd(b, c)); FpValues(a, b); FpValues(a, c);
    FpValues(FpMul(a, b), FpMul(a, c));
    MulModDistributes(a, b, c, P);
  }

  lemma FpLaws(a: Fe, b: Fe, c: Fe)
    ensures Laws(Fp(), a, b, c)
  {
    FpAddLaws(a, b, c);
    FpMulLaws(a, b, c);
    FpDistributes(a, b, c);
  }

  lemma FpIsRing()
    ensures IsRing(Fp())
  {
    forall a: Fe, b: Fe, c: Fe ensures Laws(Fp(), a, b, c) { FpLaws(a, b, c); }
  }

  // ---- Montgomery residues -------------------------------------------------------

  lemma AltBn128Setting()
    ensures Setting(P, N_PRIME, R) && Cong(R * R_PRIME, 1, P) && Cong(R2_MOD_P, R * R, P) && P % 2 == 1
  {}

  function AddMontgomery(a: Fe, b: Fe): Fe {
    MontAddIsModular(a, b, P, R);
    MontAddW(a, b, P, R)
  }

  function SubMontgomery(a: Fe, b: Fe): Fe {
    MontSubIsModular(a, b, P, R);
    MontSubW(a, b, P, R)
  }

  function MontAdd(a: Fe, b: Fe): Fe { Behind(3, AddMontgomery, a, b) }
  function MontSub(a: Fe, b: Fe): Fe { Behind(3, SubMontgomery, a, b) }

  lemma MontSumValues(a: Fe, b: Fe)
    ensures MontAdd(a, b) == AddMod(a, b, P) && MontSub(a, b) == SubMod(a, b, P)
  {
    BehindIs(AddMontgomery, a, b); BehindIs(SubMontgomery, a, b);
    MontAddIsModular(a, b, P, R); MontSubIsModular(a, b, P, R);
  }

  // Products and decodings in Montgomery form, again three steps away
  function MontgomeryProductAfter(steps: nat, a: Word, b: Fe): Fe
    decreases steps, a, b
  {
    AltBn128Setting();
    MontMulCorrect(a, b, P, N_PRIME, R);
    if steps == 0 then MontMulW(a, b, P, N_PRIME, R) else MontgomeryProductAfter(steps - 1, a, b)
  }

  function DecodedAfter(steps: nat, m: Fe): Fe
    decreases steps, m
  {
    AltBn128Setting();
    RedcCorrect(m, 0, P, N_PRIME, R);
    if steps == 0 then Redc(m, 0, P, N_PRIME, R) else DecodedAfter(steps - 1, m)
  }

  function MontMul(a: Fe, b: Fe): Fe { MontgomeryProductAfter(3, a, b) }
  function IntoMontgomeryForm(a: Word): Fe { MontgomeryProductAfter(3, a, R2_MOD_P) }
  function OutOfMontgomeryForm(m: Fe): Fe { DecodedAfter(3, m) }

  lemma MontgomeryProductValue(a: Word, b: Fe)
    ensures MontgomeryProductAfter(3, a, b) == MontMulW(a, b, P, N_PRIME, R)
  {
    assert MontgomeryProductAfter(3, a, b) == MontgomeryProductAfter(2, a, b) == MontgomeryProductAfter(1, a, b);
    assert MontgomeryProductAfter(1, a, b) == MontgomeryProductAfter(0, a, b);
  }

  lemma DecodedValue(m: Fe)
    ensures OutOfMontgomeryForm(m) == Redc(m, 0, P, N_PRIME, R)
  {
    assert DecodedAfter(3, m) == DecodedAfter(2, m) == DecodedAfter(1, m) == DecodedAfter(0, m);
  }

  /** Residues in Montgomery form with the precompiles' arithmetic. */
  function Mont(): Ring<Fe> { Ring<Fe>.Ring(0, MONTGOMERY_ONE, MontAdd, MontSub, MontMul) }

  // x is the unique residue with x r congruent to a given number.
  lemma ResidueUnique(x: int, y: int, u: int, v: int, p: int)
    requires 0 <= x < p && 0 <= y < p && Cong(u * v, 1, p) && Cong(x * u, y * u, p)
    ensures x == y
  {
    CongCancel(x, y, u, v, p);
    DivModUnique(x, p, 0, x);
    DivModUnique(y, p, 0, y);
  }

  // With ox r = x, oa r = a, ob r = b and x r = a b, also ox = oa ob.
  lemma DecodedProduct(x: int, a: int, b: int, ox: int, oa: int, ob: int, r: int, r': int, p: int)
    requires p > 0 && Cong(r * r', 1, p) && Cong(x * r, a * b, p)
    requires Cong(ox * r, x, p) && Cong(oa * r, a, p) && Cong(ob * r, b, p)
    ensures Cong(ox, oa * ob, p)
  {
    CongMul(ox * r, x, r, r, p);
    CongMul(oa * r, a, ob * r, b, p);
    assert (oa * r) * (ob * r) == (oa * ob) * r * r && (ox * r) * r == ox * r * r;
    CongCancel(ox * r, oa * ob * r, r, r', p);
    CongCancel(ox, oa * ob, r, r', p);
  }

  lemma OutMeans(m: Fe)
    ensures Cong(OutOfMontgomeryForm(m) * R, m, P)
  {
    AltBn128Setting();
    RedcCorrect(m, 0, P, N_PRIME, R);
    DecodedValue(m);
  }

  lemma MontMulMeans(a: Fe, b: Fe)
    ensures Cong(MontMul(a, b) * R, a * b, P)
  {
    AltBn128Setting();
    MontMulCorrect(a, b, P, N_PRIME, R);
    MontgomeryProductValue(a, b);
  }

  lemma IntoMeans(a: Word)
    ensures Cong(IntoMontgomeryForm(a) * R, a * R2_MOD_P, P)
  {
    AltBn128Setting();
    MontMulCorrect(a, R2_MOD_P, P, N_PRIME, R);
    MontgomeryProductValue(a, R2_MOD_P);
  }

  lemma OutOfProduct(a: Fe, b: Fe)
    ensures OutOfMontgomeryForm(MontMul(a, b)) == FpMul(OutOfMontgomeryForm(a), OutOfMontgomeryForm(b))
  {
    AltBn128Setting();
    var x, oa, ob := MontMul(a, b), OutOfMontgomeryForm(a), OutOfMontgomeryForm(b);
    var ox := OutOfMontgomeryForm(x);
    MontMulMeans(a, b);
    OutMeans(a); OutMeans(b); OutMeans(x);
    DecodedProduct(x, a, b, ox, oa, ob, R, R_PRIME, P);
    FpValues(oa, ob);
    DivModUnique(ox, P, 0, ox);
  }

  // With ox r = x, oa r = a, ob r = b and x = a + sign b, also ox = oa + sign ob.
  lemma DecodedSum(x: int, a: int, b: int, ox: int, oa: int, ob: int, sign: int, r: int, r': int, p: int)
    requires p > 0 && Cong(r * r', 1, p) && Cong(x, a + sign * b, p)
    requires Cong(ox * r, x, p) && Cong(oa * r, a, p) && Cong(ob * r, b, p)
    ensures Cong(ox, oa + sign * ob, p)
  {
    CongMul(ob * r, b, sign, sign, p);
    CongAdd(oa * r, a, sign * (ob * r), sign * b, p);
    assert oa * r + sign * (ob * r) == (oa + sign * ob) * r && ob * r * sign == sign * (ob * r) && b * sign == sign * b;
    CongCancel(ox, oa + sign * ob, r, r', p);
  }

  lemma SubModMeans(a: int, b: int, p: int)
    requires p > 0
    ensures Cong(SubMod(a, b, p), a + -1 * b, p)
  {
    ModShift(a - b, 1, p);
    DivModUnique(SubMod(a, b, p), p, 0, SubMod(a, b, p));
  }

  lemma SubModUnique(x: int, a: int, b: int, p: int)
    requires 0 <= x < p && Cong(x, a + -1 * b, p)
    ensures x == SubMod(a, b, p)
  {
    ModShift(a - b, 1, p);
    DivModUnique(x, p, 0, x);
  }

  lemma DecodedSumIs(x: int, a: int, b: int, ox: int, oa: int, ob: int, r: int, r': int, p: int)
    requires p > 0 && Cong(r * r', 1, p) && 0 <= ox < p
    requires Cong(ox * r, x, p) && Cong(oa * r, a, p) && Cong(ob * r, b, p)
    ensures x == AddMod(a, b, p) ==> ox == AddMod(oa, ob, p)
    ensures x == SubMod(a, b, p) ==> ox == SubMod(oa, ob, p)
  {
    DivModUnique(ox, p, 0, ox);
    if x == AddMod(a, b, p) {
      DivModUnique(x, p, 0, x);
      DecodedSum(x, a, b, ox, oa, ob, 1, r, r', p);
    }
    if x == SubMod(a, b, p) {
      SubModMeans(a, b, p);
      DecodedSum(x, a, b, ox, oa, ob, -1, r, r', p);
      SubModUnique(ox, oa, ob, p);
    }
  }

  lemma OutOfSums(a: Fe, b: Fe)
    ensures OutOfMontgomeryForm(MontAdd(a, b)) == FpAdd(OutOfMontgomeryForm(a), OutOfMontgomeryForm(b))
    ensures OutOfMontgomeryForm(MontSub(a, b)) == FpSub(OutOfMontgomeryForm(a), OutOfMontgomeryForm(b))
  {
    AltBn128Setting();
    var oa, ob := OutOfMontgomeryForm(a), OutOfMontgomeryForm(b);
    MontSumValues(a, b);
    FpValues(oa, ob);
    OutMeans(a); OutMeans(b); OutMeans(MontAdd(a, b)); OutMeans(MontSub(a, b));
    DecodedSumIs(MontAdd(a, b), a, b, OutOfMontgomeryForm(MontAdd(a, b)), oa, ob, R, R_PRIME, P);
    DecodedSumIs(MontSub(a, b), a, b, OutOfMontgomeryForm(MontSub(a, b)), oa, ob, R, R_PRIME, P);
  }

  /** Leaving Montgomery form undoes entering it, for every 256-bit word. */
  lemma OutOfInto(a: Word)
    ensures OutOfMontgomeryForm(IntoMontgomeryForm(a)) == a % P
  {
    AltBn128Setting();
    var m := IntoMontgomeryForm(a);
    var o := OutOfMontgomeryForm(m);
    IntoMeans(a);
    OutMeans(m);
    CongMul(o * R, m, R, R, P);
    CongMul(R2_MOD_P, R * R, a, a, P);
    assert (o * R) * R == o * R * R && R * R * a == (a * R) * R && R2_MOD_P * a == a * R2_MOD_P;
    CongCancel(o * R, a * R, R, R_PRIME, P);
    CongCancel(o, a, R, R_PRIME, P);
    DivModUnique(o, P, 0, o);
  }

  lemma OutIsInjective(a: Fe, b: Fe)
    requires OutOfMontgomeryForm(a) == OutOfMontgomeryForm(b)
    ensures a == b
  {
    OutMeans(a);
    OutMeans(b);
    DivModUnique(a, P, 0, a);
    DivModUnique(b, P, 0, b);
  }

  /** Entering Montgomery form undoes leaving it. */
  lemma IntoOutOf(m: Fe)
    ensures IntoMontgomeryForm(OutOfMontgomeryForm(m)) == m
  {
    var o := OutOfMontgomeryForm(m);
    OutOfInto(o);
    DivModUnique(o, P, 0, o);
    OutIsInjective(IntoMontgomeryForm(o), m);
  }

  lemma OutIs(m: Fe, v: Fe)
    requires Cong(v * R, m, P)
    ensures OutOfMontgomeryForm(m) == v
  {
    AltBn128Setting();
    OutMeans(m);
    ResidueUnique(OutOfMontgomeryForm(m), v, R, R_PRIME, P);
  }

  /** Decoding is an isomorphism from the Montgomery arithmetic of the precompiles to arithmetic modulo P. */
  lemma OutIsHom()
    ensures IsHom(Mont(), Fp(), OutOfMontgomeryForm) && Injective(OutOfMontgomeryForm)
  {
    OutIs(0, 0);
    OutIs(MONTGOMERY_ONE, 1);
    forall a: Fe, b: Fe ensures HomLaws(Mont(), Fp(), OutOfMontgomeryForm, a, b) {
      OutOfSums(a, b);
      OutOfProduct(a, b);
    }
    forall a: Fe, b: Fe | OutOfMontgomeryForm(a) == OutOfMontgomeryForm(b) ensures a == b {
      OutIsInjective(a, b);
    }
  }

  lemma MontIsRing()
    ensures IsRing(Mont())
  {
    FpIsRing();
    OutIsHom();
    PulledBack(Mont(), Fp(), OutOfMontgomeryForm);
  }
}
