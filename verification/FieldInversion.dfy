/** Inverses of Montgomery residues by the two algorithms of the repository, which agree. */
module FieldInversion {
  import opened Arithmetic
  import opened Reduction
  import opened Rings
  import opened Powers
  import opened FieldLaws
  import opened BaseField
  import opened Inversion
  import opened ResidueIntegers

  const R3_MOD_P: int := 14921786541159648185948152738563080959093619838510245177710943249661917737183

  // Any residue b with b a = R^2 is the Montgomery inverse of a.
  lemma InverseMeans(a: Fe, b: Fe)
    ensures Cong(b * a, R2_MOD_P, P) <==> MontMul(a, b) == MONTGOMERY_ONE
  {
    AltBn128Setting();
    MontMulMeans(a, b);
    var x := MontMul(a, b);
    DivModUnique(x, P, 0, x);
    OneMeans();
    if Cong(b * a, R2_MOD_P, P) {
      CancelR(x, MONTGOMERY_ONE, a * b, R2_MOD_P);
    }
  }

  lemma OneMeans()
    ensures Cong(MONTGOMERY_ONE * R, R2_MOD_P, P)
  {
  }

  lemma CancelR(x: int, y: int, u: int, v: int)
    requires 0 <= x < P && 0 <= y < P && Cong(x * R, u, P) && Cong(y * R, v, P) && Cong(u, v, P)
    ensures x == y
  {
    AltBn128Setting();
    ResidueUnique(x, y, R, R_PRIME, P);
  }

  // ---- which residues have an inverse --------------------------------------------------------------------

  /** a has an inverse among the Montgomery residues. */
  ghost predicate Invertible(a: Fe) { HasInverse(Mont(), a) }

  lemma ResidueOfProduct(a: int, x: int, y: int, w: int, p: int)
    requires p > 0 && Combination(a, p, x, y) == 1
    ensures Cong(Residue(x * w, p) * a, w, p)
  {
    ModMul(x * w, a, p);
    ModShift(w, -(y * w), p);
    assert x * w * a == w * (1 - y * p);
    assert w * (1 - y * p) == w + p * (-(y * w));
  }

  // With b a = R^2 modulo p and R R' = 1, a is coprime to p.
  lemma CoprimeOfInverse(a: int, b: int, r: int, r': int, r2: int, p: int)
    requires p > 1 && Cong(b * a, r2, p) && Cong(r2, r * r, p) && Cong(r * r', 1, p)
    ensures Coprime(a, p)
  {
    var w := b * (r' * r');
    CongMul(b * a, r * r, r' * r', r' * r', p);
    CongMul(r * r', 1, r * r', r * r', p);
    assert b * a * (r' * r') == w * a && r * r * (r' * r') == r * r' * (r * r');
    DivModUnique(1, p, 0, 1);
    var k := w * a / p;
    assert w * a == p * k + 1;
    assert Combination(a, p, w, -k) == 1;
  }

  /** The residues that have an inverse are those coprime to the modulus. */
  lemma InvertibleMeansCoprime(p: nat, a: Fe)
    requires p == P
    ensures Invertible(a) <==> Coprime(a, p)
  {
    AltBn128Setting();
    if Coprime(a, p) {
      var x, y :| Combination(a, p, x, y) == 1;
      var b: Fe := Residue(x * R2_MOD_P, p);
      ResidueOfProduct(a, x, y, R2_MOD_P, p);
      InverseMeans(a, b);
      assert Inverses(Mont(), a, b);
    }
    if Invertible(a) {
      var b: Fe :| Inverses(Mont(), a, b);
      InverseMeans(a, b);
      CoprimeOfInverse(a, b, R, R_PRIME, R2_MOD_P, p);
    }
  }

  /** For a prime modulus, every residue other than zero has an inverse. */
  lemma PrimeInvertible(a: Fe)
    requires IsPrime(P) && a != 0
    ensures Invertible(a)
  {
    PrimeCoprime(a, P);
    InvertibleMeansCoprime(P, a);
  }

  lemma CoprimeResidue(p: nat, a: Fe)
    requires p == P && Invertible(a)
    ensures 0 < a < p && Coprime(a, p)
  {
    InvertibleMeansCoprime(p, a);
    NothingCoprime(p);
  }

  /** The Montgomery inverse of the precompiles. */
  method MontgomeryModularInverse(a: Fe) returns (inv: Fe)
    requires Invertible(a)
    ensures MontMul(a, inv) == MONTGOMERY_ONE
  {
    AltBn128Setting();
    CoprimeResidue(P, a);
    inv := BinaryExtendedEuclideanAlgorithm(a, P, R2_MOD_P, R);
    InverseMeans(a, inv);
  }

  // b a = 1 and x R = b R^3 make x the inverse that also the other algorithm returns.
  lemma ReducedInverse(a: int, b: int, x: int, r: int, r': int, r2: int, r3: int, p: int)
    requires p > 0 && Cong(r * r', 1, p) && Cong(b * a, 1, p) && Cong(x * r, b * r3, p)
    requires Cong(r2, r * r, p) && Cong(r3, r * r * r, p)
    ensures Cong(x * a, r2, p)
  {
    CongMul(r3, r * r * r, b, b, p);
    CongMul(x * r, b * r3, a, a, p);
    CongMul(r3 * b, r * r * r * b, a, a, p);
    CongMul(b * a, 1, r * r * r, r * r * r, p);
    assert b * r3 * a == r3 * b * a && r * r * r * b * a == b * a * (r * r * r) && x * r * a == x * a * r;
    CongCancel(x * a, r * r, r, r', p);
  }

  /** Classical extended Euclid, a multiplication by R^3 and a reduction return the same residue as binary Euclid. */
  method MontgomeryModularInverseByDivision(a: Fe) returns (inv: Fe)
    requires Invertible(a)
    ensures MontMul(a, inv) == MONTGOMERY_ONE
    ensures forall other: Fe :: MontMul(a, other) == MONTGOMERY_ONE ==> other == inv
  {
    CoprimeResidue(P, a);
    var inverse := PrimeFieldInv(a, P);
    DivModUnique(a, P, 0, a);
    AltBn128Setting();
    MontMulCorrect(inverse, R3_MOD_P, P, N_PRIME, R);
    inv := RedcInt(inverse * R3_MOD_P, P, N_PRIME, R);
    CubeMeans();
    ReducedInverse(a, inverse, inv, R, R_PRIME, R2_MOD_P, R3_MOD_P, P);
    InverseMeans(a, inv);
    MontIsRing();
    forall other: Fe | MontMul(a, other) == MONTGOMERY_ONE
        ensures other == inv { InverseUnique(Mont(), a, inv, other); }
  }

  lemma CubeMeans()
    ensures Cong(R3_MOD_P, R * R * R, P)
  {
  }
}
