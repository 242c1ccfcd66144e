# Elliptic-curve precompiles of zkSync Era: a verified model

This Dafny project models the mathematics of the alt_bn128 precompiles: word-level Montgomery arithmetic, the curve
operations ecAdd, ecMul and their G2 counterpart, the pairing tower with its final exponentiation, and the Miller loop.
Each layer computes with a fast algorithm, and the project proves that it equals a simple one. `dafny verify
dfyconfig.toml` checks everything.

**How it is organised.**

- *Words and residues.* `Redc.dfy` states REDC over words of any base r for any modulus p with 2 p < r, with the carry
  and wrap-around explicit; `EuclidSteps.dfy` and `Inversion.dfy` have both Euclid loops; `Fields.dfy` instantiates
  them with the alt_bn128 constants and shows that leaving Montgomery form is an injective ring homomorphism.
  `FieldInversion.dfy` and `ModularExponentiation.dfy` build on that.
- *Rings.* Everything above the words is generic in a commutative ring, a record of its operations (`Rings.dfy`).
  `Solver.dfy` is a proved normaliser for polynomial identities: an identity is data, `Valid` evaluates its
  coefficients, and `Apply` carries it to every commutative ring. The longer formulas are proved with it.
- *The tower.* `Extensions.dfy`, `Tower.dfy`, `Frobenius.dfy`, `TowerFrobenius.dfy`, `TowerInverses.dfy`,
  `TowerNorms.dfy`, `TowerFields.dfy`; `PrimeCharacteristic.dfy` supplies the binomial theorem, so that the Frobenius
  map of the code is shown to be the p-th power and not only a map with the right algebra.
- *Final exponentiation.* `Cyclotomic.dfy`, `CyclotomicExponentiation.dfy`, `BnParameter.dfy`, `PairingExponent.dfy`.
- *Curves.* `AffineCurve.dfy` is the reference law of double_and_add.py; `ProjectiveCurve.dfy`, `JacobianCurve.dfy` and
  `MillerSteps.dfy` refine it step by step; `EcMul.dfy`, `EcAdd.dfy`, `EcAddG2.dfy`, `MillerRuns.dfy` and
  `AltBn128Pairing.dfy` are the programs. A curve may be moved along an injective homomorphism of fields
  (`CurveTransfer.dfy`), which is how a result in Montgomery form becomes a result about plain residues.
  `PlainPoints.dfy` restates curve and law in integers modulo p, and `PrecompileLaws.dfy` says how ecAdd and ecMul fit
  together.
- *The pairing.* `MillerValue.dfy` gives the value of the loop in closed form. `Untwisting.dfy` and
  `TowerUntwisting.dfy` carry points, slopes and lines from the twist to the curve over Fp12, so that `pair` is stated
  there: it returns a fixed power of the product of the values at P of the tangents and chords at multiples of Q and at
  its two Frobenius images. `PairingSubgroup.dfy` shows that the points meant for it meet no vertical chord.
- *Signatures.* `Ecdsa.dfy`, over an abstract commutative group.

**What is assumed.** The one hypothesis about numbers is that the modulus is prime, written `IsPrime(P)` in the
contracts that need it. Proved from it are that no point of the curve or the twist has y = 0 (`Torsion.dfy`), that Fp2,
Fp6 and Fp12 are fields (`TowerFields.dfy`), and that the first Frobenius constant is the (p - 1)/6-th power of 9 + u
(`PairingInstance.dfy`). Relations among the numeric constants are proved by computation. Refinement is step by step,
so it needs no associativity of the curve law; the lemmas that read double-and-add as a k-fold sum or speak of the order
of a point have it as a hypothesis (`PointMultiples.dfy`).

In `Fields.dfy` the six operations on residues are reached through three recursive steps, more than the solver unfolds
by itself. This keeps 254-bit arithmetic out of proofs that argue with rings; `FpValues`, `MontSumValues`,
`MontgomeryProductValue` and `DecodedValue` give the values. In the same way `IsModulus(p)` says that p is the modulus
(`ModulusIs`), and `Congruent` in `PlainPoints.dfy` that two integers leave the same remainder (`CongruentIs`).

**Where code, comments and constants disagree.**

- `scripts/montgomery.py:11-17` holds the order of the P-256 group, while lines 19-28 hold alt_bn128 values. The model
  uses the consistent set of `scripts/montgomery_reduction.py:13-17`, which is that of `precompiles/EcAdd.yul:19-39`.
- The comment at `precompiles/EcAddG2.yul:40` gives the twist coefficient as 3 / (3 + u). The constants in the code are
  3 / (9 + u), which `AltBn128Pairing.CoefficientTimesXi` shows.
- `scripts/secp256r1_ecdsa.py:36` passes three arguments to a function of two parameters, so the script raises an
  error whenever it adds two equal points. The model keeps that as the outcome `AdditionFailed`; `Ecdsa.RoundTrip`
  states exactly when a signature is accepted in spite of it, `Ecdsa.VerdictMeans` what verify answers on any input, and
  `Ecdsa.FailingRun` is a run that fails.
- The fast inverse does not end on arguments that share a factor with the modulus, zero among them
  (`EuclidSteps.EndsExactlyOnCoprime`). So `inv` of the tower and `final_exponentiation` do not end on zero, and when
  the modulus is prime they end on everything else (`AltBn128Pairing.NormIsInvertible`). Callers in the model are shown
  to pass no zero.
- In `miller_loop`, an addition of two points with the same abscissa makes Z zero for the rest of the run
  (`MillerSteps.MixedAdditionRefines`, `MillerSteps.StepsKeepInfinity`); for equal points it returns zeros only.

In the names below, p is the modulus, r the word base (or, for pairings, the group order), x the BN parameter.
`Proper` means infinity or on the curve, `Represents` and `Denotes` relate projective and Jacobian triples to the affine
point they stand for, and `Burned` is the outcome of a call that burns its gas.

## Model

| member | source | states |
|---|---|---|
| Reduction.OverflowIsCarry | precompiles/EcAdd.yul:81-84 | For all words, the wrapped sum and the "less than the augend" flag together are the exact sum: no bit is lost. |
| Reduction.CarryPathIsExact | precompiles/EcAdd.yul:199-205 | For every T = lo + hi r below p r, the high word plus the carry, times r, is exactly T + m p; it stays below 2 p, so neither addition to the high word wraps. |
| Reduction.RedcCorrect | precompiles/EcAdd.yul:199-210 | For every modulus with p p' = -1 mod r and 2 p < r and every T < p r, the result is below p and times r congruent to T. |
| Reduction.MontgomeryReduce | precompiles/EcAdd.yul:199-210 | The imperative body of REDC returns the residue S below p with S r congruent to T. |
| Reduction.WordRedcIsRedc | scripts/montgomery_reduction.py:77-82 | REDC on two words and REDC on one unbounded integer give the same residue, for every n below p r. |
| Reduction.MontMulCorrect | precompiles/EcAdd.yul:258-262 | For every word a and residue b the product is the residue with (result) r congruent to a b, and equals integer REDC of a b. |
| Reduction.MontAddIsModular | precompiles/EcAdd.yul:237-242 | Compare-and-subtract addition is addition modulo p, also when the addend is p itself (the case montgomerySub(x, 0) produces). |
| Reduction.MontSubIsModular | precompiles/EcAdd.yul:249-251 | Subtraction through montgomeryAdd is subtraction modulo p. |
| BaseField.AltBn128Setting | precompiles/EcAdd.yul:19-39 | The constants of alt_bn128 meet the hypotheses of the generic reduction: p odd, p p' = -1 mod 2^256, 2 p < 2^256, R2 = 2^512 mod p. |
| BaseField.OutOfInto | precompiles/EcAdd.yul:216-230 | Decoding the encoding of any word, in range or not, gives the word modulo p. |
| BaseField.IntoOutOf | precompiles/EcAdd.yul:216-230 | Encoding the decoding of any residue gives it back. |
| BaseField.OutIsHom | precompiles/EcAdd.yul:226-262 | Leaving Montgomery form turns montgomeryAdd, montgomerySub and montgomeryMul into addition, subtraction and multiplication modulo p, and is injective. |
| BaseField.MontIsRing | scripts/montgomery_reduction.py:77-94 | Montgomery residues with these operations are a commutative ring. |
| Inversion.BinaryExtendedEuclideanAlgorithm | precompiles/EcAdd.yul:135-192 | For odd modulus p > 1 with 2 p < r and every base in 1..p-1 coprime to p the nested loops terminate and return b < p with b base = R2 mod p, in wrapping words; the run is that of the steps of EuclidSteps. |
| EuclidSteps.EndsExactlyOnCoprime | precompiles/EcAdd.yul:143-183 | The nested loops, one step at a time in wrapping words, end if and only if the base is coprime to the odd modulus; on zero, or on a multiple of a factor of the modulus, they never do. |
| EuclidSteps.StepKeeps | precompiles/EcAdd.yul:143-183 | Every step keeps u and v coprime or not coprime, and one of them odd. |
| Inversion.HalvingKeeps | precompiles/EcAdd.yul:144-154 | Halving u, and b with p added first when odd, in wrapping words, keeps b base = u R2 mod p and b < p. |
| Inversion.SubtractionKeeps | precompiles/EcAdd.yul:168-182 | Subtracting v from u, and c from b with p added first when b < c, in wrapping words, keeps b base = u R2 mod p and b < p. |
| Inversion.PrimeFieldInv | scripts/montgomery_reduction.py:20-29 | For every a and modulus > 1 the loop terminates with a reduced result, 0 for a = 0, and the inverse of a whenever a is coprime to the modulus. |
| FieldInversion.MontgomeryModularInverse | precompiles/EcAdd.yul:269-271 | The result times the argument is Montgomery one, with no reduction step, for every residue that has an inverse. |
| FieldInversion.InvertibleMeansCoprime | precompiles/EcAdd.yul:264-271 | A Montgomery residue has an inverse if and only if it is coprime to p. |
| FieldInversion.MontgomeryModularInverseByDivision | scripts/montgomery_reduction.py:109-114 | REDC(prime_field_inv(a) R3) is the Montgomery inverse, and equals every other inverse: the two Euclid loops agree. |
| ModularExponentiation.ModularPow | scripts/modexp_reference.py:2-16 | For every integer base, exponent >= 0 and modulus > 0 the loop returns base^exponent modulo the modulus (0 when the modulus is 1). |
| ModularExponentiation.MontgomeryModularExponentiation | scripts/montgomery_reduction.py:100-107 | The loop returns the power of its base in the ring of Montgomery residues. |
| ModularExponentiation.ExponentiationsAgree | scripts/montgomery_reduction.py:85-107 | Encoding, raising to a power and decoding gives a^n mod p for every integer a and every n, the value of modular_pow. |
| ModularExponentiation.Fp2Exp | scripts/fp2.py:33-41 | The loop returns the power in Fp2. |
| Tower.Fp2MulIsProduct | scripts/fp2.py:18-21 | fp2.mul is multiplication modulo u^2 = -1. |
| Tower.Fp2IsRing | scripts/fp2.py:6-21 | Fp2 is a commutative ring over any commutative ring. |
| Tower.MulByXiIsProduct | scripts/fp2.py:44-50 | mul_by_xi multiplies by 9 + u. |
| Tower.Fp6MulIsProduct | scripts/fp6.py:22-29 | Karatsuba multiplication is schoolbook multiplication modulo v^3 = 9 + u. |
| Tower.Fp6SquareIsSquare | scripts/fp6.py:32-43 | The Chung-Hasan square is the schoolbook square. |
| Tower.AdjointGivesNorm | scripts/fp6.py:47-60 | The vector that inv builds, times a, is the norm that inv inverts, as an element of Fp2. |
| Tower.MulByGammaIsProduct | scripts/fp6.py:67-72 | mul_by_gamma multiplies by v. |
| Tower.Fp12MulIsProduct | scripts/fp12.py:22-32 | Karatsuba multiplication is schoolbook multiplication modulo w^2 = v. |
| Tower.Fp12SquareIsSquare | scripts/fp12.py:35-45 | The complex-method square is the schoolbook square. |
| TowerInverses.MontIsField | scripts/montgomery_reduction.py:109-114 | If p is prime the residues are a field. |
| TowerInverses.Fp2Inv | scripts/fp2.py:25-31 | The result is the inverse in Fp2 whenever the norm is invertible modulo p. |
| TowerInverses.Fp6Inv | scripts/fp6.py:47-65 | The result is the inverse in Fp6 whenever the norm is invertible modulo p. |
| TowerInverses.Fp12Inv | scripts/fp12.py:48-58 | The result is the inverse in Fp12 whenever the norm is invertible modulo p. |
| TowerInverses.Fp2NormVanishesAtZero | scripts/fp2.py:25-31 | Over a field of prime order p = 3 mod 4, the norm is zero exactly on zero, so that inv is defined on every nonzero element. |
| TowerInverses.Fp2IsField | scripts/fp2.py:25-31 | If p is prime, every nonzero element of Fp2 has invertible norm, and Fp2 is a field. |
| TowerNorms.UnitOfFp6 | scripts/fp6.py:47-65 | Every unit of Fp6 has nonzero norm: the norm test of inv excludes no invertible element. |
| TowerNorms.UnitOfFp12 | scripts/fp12.py:48-58 | Every unit of Fp12 has nonzero norm down to Fp2. |
| TowerFields.XiHasNoRoots | scripts/fp2.py:43-50 | 9 + u is neither a square nor a cube in Fp2. |
| TowerFields.Fp6IsField | scripts/fp6.py:47-65 | If p is prime, v^3 = 9 + u makes Fp6 a field. |
| TowerFields.Fp12IsField | scripts/fp12.py:48-58 | If p is prime, w^2 = v makes Fp12 a field, as v is not a square in Fp6. |
| AltBn128Pairing.Fp6NormIsInvertible | scripts/fp6.py:47-65 | If p is prime, the norm that inv inverts is invertible if and only if the element is not zero. |
| AltBn128Pairing.NormIsInvertible | scripts/fp12.py:48-58 | If p is prime, the norm that inv inverts is invertible if and only if the element is not zero. |
| PairingInstance.ConstantsAreGood | scripts/frobenius.py:58-132 | The fifteen constants of frobenius.py satisfy the relations the maps rest on: powers of the first of each row, g11^6 (9 + u) = 9 - u, g21 = the norm of g11, g31 = g11 g21, g21^2 - g21 + 1 = 0. |
| PairingInstance.GammaIsPower | scripts/frobenius.py:60-63 | If p is prime the first constant is (9 + u)^((p - 1) / 6). |
| FrobeniusMaps.FrobeniusIsHom | scripts/frobenius.py:4-53 | frobenius, frobenius_square and frobenius_cube are additive and multiplicative on Fp12 and fix one. |
| FrobeniusMaps.FrobeniusComposes | scripts/frobenius.py:4-53 | frobenius twice is frobenius_square, frobenius after frobenius_square is frobenius_cube, and frobenius_square three times is conjugate. |
| TowerFrobenius.ConjugationIsPower | scripts/fp2.py:55-56 | Conjugation of Fp2 is raising to the power p. |
| TowerFrobenius.FrobeniusIsPower | scripts/frobenius.py:4-21 | frobenius is raising to the power p, for every element of Fp12. |
| CyclotomicSubgroup.ProductByCoefficients | scripts/fp12.py:22-32 | Multiplication of Fp12 as six coefficient equations over powers of w with w^6 = 9 + u. |
| CyclotomicSubgroup.CyclotomicSquareIsSquare | scripts/fp12.py:63-117 | For every f with frobenius_square(frobenius_square(f)) f = frobenius_square(f), cyclotomic_square(f) = square(f) = mul(f, f). |
| CyclotomicExponentiation.EasyPartLands | scripts/alt_bn128_pairing.py:88-92 | Every invertible f is sent into the cyclotomic subgroup. |
| CyclotomicExponentiation.ConjugateInverts | scripts/fp12.py:60-61 | An invertible f for which cyclotomic squaring is valid has its conjugate as inverse. |
| CyclotomicExponentiation.ClosedUnderMul | scripts/fp12.py:22-32 | The subgroup is closed under mul. |
| CyclotomicExponentiation.ClosedUnderFrobenius | scripts/frobenius.py:4-53 | The subgroup is closed under the three Frobenius maps and conjugate. |
| CyclotomicExponentiation.NSquare | scripts/fp12.py:119-125 | n_square(f, n) = f^(2^n) for every n and every f of the subgroup. |
| CyclotomicExponentiation.Expt | scripts/fp12.py:127-158 | The addition chain computes f^4965661367192848881 for every f of the subgroup. |
| CyclotomicExponentiation.HardPart | scripts/alt_bn128_pairing.py:94-119 | For every f of the subgroup the result is f^(l0) frobenius(f)^(l1) frobenius_square(f)^(l2) frobenius_cube(f)^(l3) with the four lambdas of eprint 2015/192, negative exponents through conjugate. |
| CyclotomicExponentiation.Exponentiate | scripts/alt_bn128_pairing.py:84-119 | Both parts together, from f and its inverse. |
| CyclotomicExponentiation.FixedFactorsVanish | scripts/alt_bn128_pairing.py:84-119 | Multiplying f by an invertible element fixed by conjugate does not change the result of the final exponentiation. |
| TowerOperations.TowerIsSound | scripts/fp12.py:22-125 | The tower operations satisfy every law that the exponentiation methods assume of their operations. |
| TowerOperations.TowerRaises | scripts/frobenius.py:4-21 | In the tower, frobenius is the power p. |
| BnParameter.HardExponentIdentity | scripts/pairing_utils.py:4-7 | For every integer x: (l0 + l1 p + l2 p^2 + l3 p^3) r = 2 x (6 x^2 + 3 x + 1)(p^4 - p^2 + 1), with p(x), r(x) the BN polynomials. |
| PairingExponent.TotalExponentIdentity | scripts/alt_bn128_pairing.py:84-119 | For every integer x the whole exponent times r is (p^12 - 1) times 2 x (6 x^2 + 3 x + 1). |
| PairingExponent.TotalPower | scripts/alt_bn128_pairing.py:84-119 | For every x > 0 and operations where frobenius is the power p: the final exponentiation is one power of f, with the total exponent, and its r-th power is one. |
| AltBn128Pairing.FieldOrderIsP | scripts/pairing_utils.py:4-6 | The BN polynomial at the parameter x is the modulus. |
| AltBn128Pairing.FinalExponentiation | scripts/alt_bn128_pairing.py:84-119 | For prime p and every argument other than zero, the method on Montgomery residues computes the inverse itself and returns the product of Frobenius images of the easy part that HardPart states. |
| AltBn128Pairing.FinalExponentiationIsPower | scripts/alt_bn128_pairing.py:84-119 | If p is prime the result is f^(2 x (6 x^2 + 3 x + 1)(p^12 - 1) / r), and its r-th power is one. |
| PointMultiples.DoubleAndAddIsRepeated | scripts/double_and_add.py:52-64 | With an associative law on the points of the curve and infinity, stated as a hypothesis, the loop adds the k-fold sum p + (p + ...) to its accumulator. |
| AffineCurve.AddCommutes | scripts/double_and_add.py:22-37 | The affine law is commutative on points of the curve and infinity. |
| AffineCurve.AddProper | scripts/double_and_add.py:22-37 | Sums of points of the curve or infinity are points of the curve or infinity. |
| AffineCurve.DoubleProper | scripts/double_and_add.py:40-47 | Doubles of points of the curve are on the curve. |
| AffineCurve.DoubleIsTangent | scripts/double_and_add.py:40-47 | The double is the reflected third point of the tangent, and the slope satisfies 2 y m = 3 x^2. |
| AffineCurve.AddIsChord | scripts/double_and_add.py:34-37 | For different x the sum is the reflected third point of the chord, with its slope. |
| AffineCurve.SumByCases | scripts/double_and_add.py:22-47 | The law by cases on points of the curve and infinity: infinity is neutral, different points with one abscissa add up to infinity, and every other sum has coordinates m^2 - x1 - x2 and m (x1 - x3) - y1 for a slope m of the tangent or the chord. |
| AffineCurve.SameX | precompiles/EcAddG2.yul:536 | Points of the curve with equal x are equal or opposite. |
| AltBn128Curve.CurveIsSound | precompiles/EcAdd.yul:88-99 | If p is prime, y^2 = x^3 + 3 in plain and in Montgomery form is a curve without points of order two, and decoding carries one to the other. |
| AltBn128Curve.LoopWithPowers | scripts/double_and_add.py:7-64 | Double-and-add with inverses a^(p-2), as the script computes them, equals double-and-add with inverses. |
| Torsion.CurveHasNoTwoTorsion | precompiles/EcMul.yul:355-374 | If p is prime, -3 is not a cube: no point of y^2 = x^3 + 3 has y = 0. |
| Torsion.TwistHasNoTwoTorsion | precompiles/EcAddG2.yul:321-343 | If p is prime, minus the twist coefficient is not a cube in Fp2: no point of the twist has y = 0. |
| ProjectiveCurve.ProjectiveDouble | precompiles/EcMul.yul:355-374 | The in-place sequence of assignments computes the closed doubling formulas. |
| ProjectiveCurve.DoubleRefines | precompiles/EcMul.yul:355-374 | On a representative of a point of the curve with z nonzero the result represents the affine double, with z nonzero. |
| ProjectiveCurve.CrossedMeans | precompiles/EcMul.yul:452-460 | t = 0 exactly when the ordinates agree and u = 0 exactly when the abscissas agree, whatever the representatives. |
| ProjectiveCurve.AddRefines | precompiles/EcMul.yul:472-480 | The inlined addition represents the affine sum of different points, including infinity when u = 0. |
| EcMul.AddStep | precompiles/EcMul.yul:437-481 | The three inlined cases of one turn: R infinite, R = Q, and all others including R = -Q, each represent the affine sum. |
| EcMul.MultiplyLoop | precompiles/EcMul.yul:430-486 | For every point of the curve and every scalar, the loop represents affine double-and-add; the invariant keeps Q on the curve with nonzero z. |
| EcMul.ProjectiveIntoAffine | precompiles/EcMul.yul:337-343 | Returns the represented affine point, (0, 0) for z = 0. |
| EcMul.EcMul | precompiles/EcMul.yul:380-494 | For all words x, y and scalar: rejects exactly what is out of range or neither on the curve nor (0, 0), and else returns the affine multiple, through the shortcuts for 0, 1 and 2 or the loop. |
| EcMul.MultipleIsRepeated | precompiles/EcMul.yul:430-494 | With an associative law, what the precompile returns for a point of the curve is the scalar-fold sum of the point. |
| EcMul.MultipleBurns | precompiles/EcMul.yul:380-401 | In integers: the call burns if and only if x >= p, or y >= p, or (x, y) is not (0, 0) and y y is not x x x + 3 modulo p; a returned pair is in range and (0, 0) or a solution; (0, 0) gives (0, 0). |
| EcMul.SmallScalars | precompiles/EcMul.yul:403-428 | In integers: scalar 0 gives (0, 0), 1 the point, 2 the point given by the tangent. |
| PrecompileLaws.MultiplesAddUp | precompiles/EcMul.yul:380-494 | With an associative law, for every point that is not burned: ecAdd(ecMul(P, k), ecMul(P, l)) = ecMul(P, k + l) and ecMul(ecMul(P, k), l) = ecMul(P, k l). |
| EcAdd.MontgomeryDiv | precompiles/EcAdd.yul:278-280 | The quotient, for a divisor other than zero; every caller is shown to pass one. |
| EcAdd.PointIsInCurve | precompiles/EcAdd.yul:92-99 | The Montgomery-form test decides y^2 = x^3 + 3 modulo p of the encoded coordinates. |
| EcAdd.SpecialCases | precompiles/EcAdd.yul:358-391 | With equal x the tests on y separate opposite from equal points; testing one opposite point for membership is testing both; the sum is infinity or the double. |
| EcAdd.EcAdd | precompiles/EcAdd.yul:286-432 | For all four words: rejects exactly when a pair is neither (0, 0) nor in range and on the curve, and else returns the affine sum. |
| EcAdd.SumLaws | precompiles/EcAdd.yul:286-432 | The outcome does not depend on the order of the points; a returned pair is in range and on the curve or (0, 0). |
| EcAdd.SumBurns | precompiles/EcAdd.yul:295-420 | In integers: the call burns if and only if one of the pairs is out of range or neither (0, 0) nor a solution of y y = x x x + 3 modulo p. |
| EcAdd.SumWithInfinity | precompiles/EcAdd.yul:295-355 | (0, 0) is neutral on either side. |
| EcAdd.SumOfPoints | precompiles/EcAdd.yul:358-432 | In integers, for two points other than (0, 0): equal abscissas and different ordinates add up to p in y and give (0, 0); equal points give m m - 2 x and m (x - x3) - y with 2 y m = 3 x x modulo p; different abscissas give m m - x1 - x2 and m (x1 - x3) - y1 with m (x2 - x1) = y2 - y1; the result is in range and a solution or (0, 0). |
| JacobianCurve.DoubleRefinesAffine | scripts/jacobian_projective_point.py:27-47 | Both doublings of Jacobian triples denote the affine double. |
| JacobianCurve.AddRefinesAffine | scripts/jacobian_projective_point.py:49-81 | add denotes the affine sum for all points of the curve and infinity; the formulas of EcAddG2.yul do for different x. |
| JacobianCurve.SameAbscissa | scripts/jacobian_projective_point.py:64-68 | For equal x, add returns infinity or the double as the affine law does. |
| JacobianCurve.BothDouble | precompiles/EcAddG2.yul:321-343 | The doubling formulas of the precompile and of the script give the same triple. |
| JacobianCurve.RescalingInvariance | scripts/jacobian_projective_point.py:27-81 | Rescaling either argument by (l^2, l^3, l), l nonzero, does not change the affine point of add or double. |
| JacobianCurve.ConversionsRoundTrip | scripts/jacobian_projective_point.py:5-19 | from_affine denotes its argument, and into_affine gives the denoted point of any triple. |
| JacobianCurve.Multiply | scripts/jacobian_projective_point.py:86-95 | The loop denotes affine double-and-add for every point of the curve and infinity and every scalar. |
| EcAddG2.CoefficientsDecode | precompiles/EcAddG2.yul:44-47 | The Montgomery coefficients of the precompile decode to the plain twist coefficients. |
| EcAddG2.TwistIsSound | precompiles/EcAddG2.yul:44-47 | If p is prime the twist over Fp2, in plain and in Montgomery form, is a curve without points of order two over a field. |
| EcAddG2.G2OutOfJacobian | precompiles/EcAddG2.yul:351-358 | Returns the affine point denoted by any triple with nonzero z. |
| EcAddG2.SameXOnTwist | precompiles/EcAddG2.yul:499-556 | On the twist, equal x and different y leaves only opposite points. |
| EcAddG2.DoubleOnTwist | precompiles/EcAddG2.yul:516-534 | Jacobian double and conversion is the affine double. |
| EcAddG2.AddOnTwist | precompiles/EcAddG2.yul:586-599 | Jacobian addition and conversion is the affine chord sum. |
| EcAddG2.EcAddG2 | precompiles/EcAddG2.yul:424-600 | For all eight words: rejects exactly when a quadruple is neither zero nor in range and on the twist, and else returns the affine sum over Fp2. |
| EcAddG2.SumLaws | precompiles/EcAddG2.yul:424-600 | The outcome is symmetric in the two points, and stays on the twist or is infinity. |
| EcAddG2.SumBurns | precompiles/EcAddG2.yul:424-600 | In integers: the call burns if and only if a coordinate is out of range or a point is neither zero nor a solution of the two equations of the twist modulo p. |
| EcAddG2.SumOfPoints | precompiles/EcAddG2.yul:424-600 | What is returned: infinity is neutral, opposite points give infinity, equal points the point of the tangent over Fp2, different abscissas the point of the chord. |
| MillerSteps.DoubleStepIsHalved | scripts/alt_bn128_pairing.py:9-47 | double_step returns a quarter of the doubling of EcMul.yul, coordinate by coordinate. |
| MillerSteps.DoubleStepRefines | scripts/alt_bn128_pairing.py:9-47 | On a point of the twist the point represents the double, stays on the curve with nonzero z, and the coefficients are a nonzero multiple of the tangent line. |
| MillerSteps.MixedAdditionRefines | scripts/alt_bn128_pairing.py:49-81 | For all points T and Q of the twist: unless T = Q the point represents the sum and the coefficients are a nonzero multiple of the line through both, with Z = 0 exactly for equal abscissas; for T = Q everything returned is zero. |
| MillerSteps.StepsKeepInfinity | scripts/alt_bn128_pairing.py:9-81 | Both steps keep Z = 0. |
| MillerSteps.DoubleLineVanishes | scripts/alt_bn128_pairing.py:22-45 | The line of double_step vanishes at T and at -(2 T). |
| MillerSteps.AdditionLineVanishes | scripts/alt_bn128_pairing.py:50-78 | The line of mixed_addition_step vanishes at T and Q for all points of the twist, and for different abscissas at -(T + Q). |
| MillerSteps.LineVanishes | scripts/alt_bn128_pairing.py:74-78 | A nonzero multiple of a line vanishes at exactly the points of that line. |
| BnParameter.DigitsOfLoop | scripts/pairing_utils.py:7-10 | The 66 digits end in 1, are non-adjacent, and denote 6 x + 2. |
| MillerRuns.Loop | scripts/alt_bn128_pairing.py:121-186 | For any digits, sound operations and Q on the curve or infinity: T has Z other than zero at the end if and only if Q is on the curve and no chord of the run is vertical; and then T represents the point, and f is the value up to a nonzero factor from the field of the twist, of the run with affine points and lines, which MillerValue.ValueIsProduct gives in closed form. |
| MillerValue.RunInClosedForm | scripts/alt_bn128_pairing.py:127-155 | i turns from (f, T) give f^(2^i) times the product over j < i of v_j^(2^j), where v_j is the product of the tangent and chord values of turn j at the affine points reached. |
| MillerValue.ValueIsProduct | scripts/alt_bn128_pairing.py:121-186 | The value of the whole run is the product over all turns of v_j^(2^j), times the values of the chords to Q1 and from there to Q2; the point is Q1 and Q2 added to the one of the digits. |
| MillerValue.ReachedIsMultiple | scripts/alt_bn128_pairing.py:127-155 | With an associative law: before every turn and after the last one the point is the n-fold sum of Q, n the value of the digits used. |
| MillerValue.ValueUntwists | scripts/alt_bn128_pairing.py:121-186 | The closed form over the twist equals the closed form of the untwisted points on the curve over Fp12, with tangents, chords and slopes of that curve. |
| Untwisting.UntwistIsHom | scripts/alt_bn128_pairing.py:9-81 | (x, y) -> (x w^2, y w^3) carries negatives, doubles and sums of the twist to those of the curve over Fp12. |
| Untwisting.UntwistSlopes | scripts/alt_bn128_pairing.py:9-81 | A tangent or chord of slope m goes to the tangent or chord of slope m w. |
| TowerUntwisting.UntwistedCurve | scripts/pairing_utils.py:11 | A point is on the twist if and only if its image is on y^2 = x^3 + 3 over Fp12, as w^6 = 9 + u and the coefficient of the twist is 3 / (9 + u). |
| TowerUntwisting.LineThroughUntwisted | scripts/alt_bn128_pairing.py:130-135 | For every slope m and point (x, y) of the twist the element of Fp12 that the script builds is (yp - y w^3) - (m w) (xp - x w^2): the value at (xp, yp) of the line of slope m w through the untwisted point. |
| TowerUntwisting.ImagesAreFrobenius | scripts/alt_bn128_pairing.py:157-168 | Q1 untwists to the image under frobenius of the untwisted Q, and Q2 to the negative of its image under frobenius_square. |
| PairingSubgroup.AbscissasDiffer | scripts/alt_bn128_pairing.py:142-153 | With an associative law, multiples i Q and j Q with 0 < i < j and i + j below the order of Q have different abscissas. |
| PairingSubgroup.SecondImageIsTwice | scripts/alt_bn128_pairing.py:157-168 | Q2 is the negative of the first image of the first image. |
| PairingSubgroup.RunIsRegular | scripts/alt_bn128_pairing.py:127-184 | For Q of order above the sums of multiples that the run compares, with Q1 = k Q and Q2 = -(l Q), no chord is vertical. |
| MillerRuns.ValueIsNotZero | scripts/alt_bn128_pairing.py:127-184 | In a field, when the lines that are not vertical have nonzero values, so has the run. |
| MillerTower.ImagesOnTwist | scripts/alt_bn128_pairing.py:157-168 | The two Frobenius images of a point of the twist are on the twist. |
| MillerTower.ScaledLineValue | scripts/alt_bn128_pairing.py:130-135 | A multiple of a line has the multiple of its value in Fp12. |
| AltBn128Pairing.MillerLoop | scripts/alt_bn128_pairing.py:121-186 | On Montgomery residues, for Q on the twist or infinity: the last T, returned beside f, has Z other than zero if and only if the run is regular, and then it represents the affine point reached and f is the affine Miller value times a nonzero element of Fp2. |
| AltBn128Pairing.MillerValueIsNotZero | scripts/alt_bn128_pairing.py:127-184 | If p is prime and yp is not zero, the affine Miller value is not zero. |
| AltBn128Pairing.PointsOnBigCurve | scripts/pairing_utils.py:11-27 | Exactly the points of the curve and of the twist become points of y^2 = x^3 + 3 over Fp12. |
| AltBn128Pairing.MillerValueIsAte | scripts/alt_bn128_pairing.py:121-186 | The affine Miller value is the optimal ate value on the curve over Fp12: the closed form for the digits of 6 x + 2 at the untwisted Q, with the chords to frobenius(Q) and -frobenius_square(Q), all lines evaluated at P itself. |
| AltBn128Pairing.LoopReaches | scripts/alt_bn128_pairing.py:121-186 | With an associative law: the run leads to (6 x + 2) Q, and from there by Q1 and Q2. |
| AltBn128Pairing.SubgroupIsRegular | scripts/alt_bn128_pairing.py:121-186 | With an associative law: for every Q of order r on the twist with frobenius(Q) = p Q the run is regular, so that T never becomes infinity. |
| AltBn128Pairing.Pair | scripts/alt_bn128_pairing.py:188-191 | For yp other than zero and a regular run: pair returns the final exponentiation of the affine Miller value itself, and this is the optimal ate value of P and the untwisted Q to the power (p^12 - 1) / r times 2 x (6 x^2 + 3 x + 1), an element with r-th power one. |
| Ecdsa.ScalarMul | scripts/secp256r1_ecdsa.py:57-67 | scalar_mul is repeated addition in any commutative group, except that it raises an error if and only if some turn adds two equal points with sum other than infinity. |
| Ecdsa.NeverMeets | scripts/secp256r1_ecdsa.py:57-67 | For a point with n p = infinity, n prime, and a scalar below n, no turn adds equal points. |
| Ecdsa.Sign | scripts/secp256r1_ecdsa.py:76-87 | Which inputs raise an error in an addition, which fail an assertion, and the signature for all others. |
| Ecdsa.Verify | scripts/secp256r1_ecdsa.py:89-100 | Which inputs fail the assertion, which raise an error in an addition, and the verdict on all others as a statement about repeated addition. |
| Ecdsa.VerdictMeans | scripts/secp256r1_ecdsa.py:89-100 | For prime n, n G = n Q = infinity and all z, r, s: verify fails its assertion if and only if n divides s; it raises an error in the addition if and only if not, and z G = r Q with sum other than infinity; else some multiple R of z G + r Q has s R = z G + r Q, and for every such R the answer is whether x(R) = r modulo n. |
| Ecdsa.AcceptsExactlySignatures | scripts/secp256r1_ecdsa.py:76-100 | For the key Q = da G, prime n and 0 < r, s < n with z + r da not zero modulo n, outside the failing case: verify answers yes if and only if (r, s) is the signature of z for some nonce. |
| Ecdsa.RejectingRun | scripts/secp256r1_ecdsa.py:96-100 | A concrete run that rejects: in the group of five elements, key 1, z = 1 and (3, 1). |
| Ecdsa.PowerInverts | scripts/secp256r1_ecdsa.py:80-82 | For prime n the power n - 2 inverts every s that n does not divide, so the assertion in verify cannot fail there. |
| Ecdsa.SignatureVerifies | scripts/secp256r1_ecdsa.py:93-100 | If n G is infinity, the equation that verify tests holds in the group for every signature and any inverse of s modulo n; n need not be prime. |
| Ecdsa.RoundTrip | scripts/secp256r1_ecdsa.py:76-100 | For prime n > 2 and G other than infinity with n G = infinity, on every (r, s) that sign returns: verify accepts if and only if z is zero or not r da modulo n; otherwise its last addition meets two equal points and raises an error. |
| Ecdsa.FailsOnEqualPoints | scripts/secp256r1_ecdsa.py:35-36 | With z = r da, not zero modulo n, verify raises an error on what sign returned. |
| Ecdsa.FailingRun | scripts/secp256r1_ecdsa.py:35-36 | A concrete run that fails: in the group of five elements, key 1, nonce 2 and z = 2. |

## Left out

- Calldata, memory, return data and gas: a precompile is a method from words to `Burned` or a returned point; the
  `mul_high` instruction is the quotient of the product by the word base.
- Primality of the modulus is a hypothesis, not proved.
- Associativity and order of the curve groups, subgroup membership, bilinearity and non-degeneracy of the pairing: the
  code does not decide them. Where associativity is used it is a hypothesis of the lemma.
- AltBn128Pairing.Pair: only for runs without a vertical chord and yp other than zero. Points of the pairing subgroup
  have such runs when the law is associative (AltBn128Pairing.SubgroupIsRegular); what the exponentiation makes of the
  value that another run leaves is not stated.
- AltBn128Pairing.MillerLoop: of a run with a vertical chord it states that Z is zero at the end, not the value of f.
- Inversion.BinaryExtendedEuclideanAlgorithm: the carry bits that scripts/montgomery_reduction.py keeps for moduli
  without a spare top bit are not modelled; 2 p < r holds of alt_bn128.
- ModularExponentiation.ModularPow: zero and negative moduli and negative exponents are not modelled.
- Ecdsa.RoundTrip: the group is abstract; the slope formulas of P-256 in lines 38-41 and 43-52 of the script are not
  modelled.
- scripts/homogeneous_projective_point.py: its comparison of raw coordinates depends on the representative; the scaled
  comparison of EcMul.yul is the one modelled.
- `sub` of scripts/jacobian_projective_point.py returns nothing and is not modelled.
- scripts/secp256k1_ecdsa.py repeats the P-256 script with other constants; scripts/modexp_gas_cost.py is a gas formula.
- The precompiles EcMulG2, EcPairing, ModExp, P256VERIFY and secp256k1VERIFY are not part of this model.
