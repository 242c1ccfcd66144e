/** Montgomery reduction on machine words of base r (2^256 in the precompiles), for any odd modulus p with 2 p < r. */
module Reduction {
  import opened Arithmetic

  // ---- words of base r -------------------------------------------------------

  function AddW(a: int, b: int, r: int): int requires r > 0 { (a + b) % r }
  function SubW(a: int, b: int, r: int): int requires r > 0 { (a - b) % r }
  function MulW(a: int, b: int, r: int): int requires r > 0 { a * b % r }
  function MulHigh(a: int, b: int, r: int): int requires r > 0 { a * b / r }

  // The sum, and whether it overflowed
  function OverflowingAdd(augend: int, addend: int, r: int): (int, bool)
    requires r > 0
  {
    var sum := AddW(augend, addend, r);
    (sum, sum < augend)
  }

  /** Modulus p, p' with p p' = -1 modulo r, and the spare top bit that keeps sums below r. */
  ghost predicate Setting(p: int, np: int, r: int) {
    1 < p && 2 * p < r && p * np % r == r - 1
  }

  /** The Yul REDC, word by word. */
  function Redc(lo: int, hi: int, p: int, np: int, r: int): int
    requires r > 0
  {
    var m := MulW(lo, np, r);
    var h := AddW(hi, MulHigh(m, p, r), r);
    var (low, overflowed) := OverflowingAdd(lo, MulW(m, p, r), r);
    var h' := if overflowed then AddW(h, 1, r) else h;
    if h' < p then h' else SubW(h', p, r)
  }

  lemma OverflowIsCarry(a: int, b: int, r: int)
    requires 0 <= a < r && 0 <= b < r
    ensures a + b == OverflowingAdd(a, b, r).0 + (if OverflowingAdd(a, b, r).1 then r else 0)
  {
    if a + b < r { DivModUnique(a + b, r, 0, a + b); } else { DivModUnique(a + b, r, 1, a + b - r); }
  }

  // The low half of lo + m p is zero.
  lemma LowHalfVanishes(lo: int, p: int, np: int, r: int)
    requires r > 1 && p * np % r == r - 1
    ensures (lo + (lo * np % r) * p) % r == 0
  {
    ModMul(lo * np, p, r);
    assert lo * np * p == (p * np) * lo;
    ModMul(p * np, lo, r);
    assert (r - 1) * lo == -lo + r * lo;
    ModShift(-lo, lo, r);
    ModAdd(lo, (lo * np % r) * p, r);
    ModAdd(lo, -lo, r);
  }

  // The low words add up to 0 or to r, and the overflow flag says which.
  lemma LowWords(lo: int, p: int, np: int, r: int)
    requires Setting(p, np, r) && 0 <= lo < r
    ensures var low := MulW(MulW(lo, np, r), p, r);
            0 <= low < r && lo + low == if OverflowingAdd(lo, low, r).1 then r else 0
  {
    var prod := MulW(lo, np, r) * p;
    LowHalfVanishes(lo, p, np, r);
    ModReduce(prod, lo, r);
    OverflowIsCarry(lo, prod % r, r);
    DivModUnique(lo + prod % r, r, (lo + prod % r) / r, 0);
  }

  lemma ExactQuotient(lo: int, hi: int, m: int, low: int, high: int, carry: int, p: int, r: int)
    requires lo + hi * r < p * r && 0 <= m < r && p > 0
    requires m * p == high * r + low && lo + low == carry * r
    ensures (hi + high + carry) * r == lo + hi * r + m * p
    ensures hi + high + carry < 2 * p
  {
    var q := hi + high + carry;
    assert q * r == lo + hi * r + m * p;
    assert m * p < r * p;
    MulGap(r, q - 2 * p + 1);
    assert r * (q - 2 * p + 1) == q * r - 2 * (p * r) + r;
  }

  /** The high words of REDC add up, without wrapping, to the exact quotient. */
  ghost function HighSum(lo: int, hi: int, p: int, np: int, r: int): int
    requires r > 0
  {
    var m := MulW(lo, np, r);
    hi + MulHigh(m, p, r) + if OverflowingAdd(lo, MulW(m, p, r), r).1 then 1 else 0
  }

  /** The carry path loses no bit: the high words and the carry add up to the exact quotient
      (T + m p) / r of T = lo + r hi, which is below 2 p. */
  lemma CarryPathIsExact(lo: int, hi: int, p: int, np: int, r: int)
    requires Setting(p, np, r) && 0 <= lo < r && 0 <= hi && lo + hi * r < p * r
    ensures HighSum(lo, hi, p, np, r) * r == lo + hi * r + MulW(lo, np, r) * p
    ensures 0 <= hi + MulHigh(MulW(lo, np, r), p, r) <= HighSum(lo, hi, p, np, r) < 2 * p
  {
    var m := MulW(lo, np, r);
    LowWords(lo, p, np, r);
    WordsOfProduct(m, p, r);
    ExactQuotient(lo, hi, m, MulW(m, p, r), MulHigh(m, p, r),
                  if OverflowingAdd(lo, MulW(m, p, r), r).1 then 1 else 0, p, r);
  }

  // The two words of a product
  lemma WordsOfProduct(m: int, p: int, r: int)
    requires 0 <= m < r && 0 <= p < r
    ensures m * p == MulHigh(m, p, r) * r + MulW(m, p, r) && MulHigh(m, p, r) >= 0
  {
    ProductBound(m, p, r, r);
    DivBound(m * p, r, r);
  }

  lemma RedcReduces(lo: int, hi: int, p: int, np: int, r: int)
    requires Setting(p, np, r) && 0 <= lo < r && 0 <= hi && lo + hi * r < p * r
    ensures var q := HighSum(lo, hi, p, np, r); Redc(lo, hi, p, np, r) == if q < p then q else q - p
  {
    CarryPathIsExact(lo, hi, p, np, r);
    var m := MulW(lo, np, r);
    var h, q := hi + MulHigh(m, p, r), HighSum(lo, hi, p, np, r);
    DivModUnique(h, r, 0, h);
    DivModUnique(q, r, 0, q);
    if q >= p { DivModUnique(q - p, r, 0, q - p); }
  }

  lemma QuotientCongruent(q: int, t: int, m: int, p: int, r: int)
    requires p > 0 && q * r == t + m * p
    ensures Cong(q * r, t, p) && Cong((q - p) * r, t, p)
  {
    ModShift(t, m, p);
    ModShift(t, m - r, p);
    assert (q - p) * r == t + p * (m - r);
  }

  /** REDC returns T / r modulo p, fully reduced, for every T = lo + r hi below p r. */
  lemma RedcCorrect(lo: int, hi: int, p: int, np: int, r: int)
    requires Setting(p, np, r) && 0 <= lo < r && 0 <= hi && lo + hi * r < p * r
    ensures 0 <= Redc(lo, hi, p, np, r) < p
    ensures Cong(Redc(lo, hi, p, np, r) * r, lo + hi * r, p)
  {
    CarryPathIsExact(lo, hi, p, np, r);
    RedcReduces(lo, hi, p, np, r);
    QuotientCongruent(HighSum(lo, hi, p, np, r), lo + hi * r, MulW(lo, np, r), p, r);
  }

  /** REDC as the precompiles compute it, with an explicit carry between the two words: the residue of T / r below p. */
  method MontgomeryReduce(lowestHalfOfT: int, higherHalfOfT: int, p: int, np: int, r: int) returns (s: int)
    requires Setting(p, np, r) && 0 <= lowestHalfOfT < r && 0 <= higherHalfOfT
    requires lowestHalfOfT + higherHalfOfT * r < p * r
    ensures s == Redc(lowestHalfOfT, higherHalfOfT, p, np, r)
    ensures 0 <= s < p && Cong(s * r, lowestHalfOfT + higherHalfOfT * r, p)
  {
    var m := MulW(lowestHalfOfT, np, r);
    var hi := AddW(higherHalfOfT, MulHigh(m, p, r), r);
    var (lo, overflowed) := OverflowingAdd(lowestHalfOfT, MulW(m, p, r), r);
    if overflowed { hi := AddW(hi, 1, r); }
    s := hi;
    if !(hi < p) { s := SubW(hi, p, r); }
    RedcCorrect(lowestHalfOfT, higherHalfOfT, p, np, r);
  }

  // ---- Montgomery form -----------------------------------------------------------

  /** Python REDC, on an unbounded integer. */
  function RedcInt(n: int, p: int, np: int, r: int): int
    requires r > 0
  {
    var m := n % r * np % r;
    var t := (m * p + n) / r;
    if t >= p then t - p else t
  }

  /** The word-level REDC refines the integer one. */
  lemma WordRedcIsRedc(n: int, p: int, np: int, r: int)
    requires Setting(p, np, r) && 0 <= n < p * r
    ensures Redc(n % r, n / r, p, np, r) == RedcInt(n, p, np, r)
  {
    var lo, hi := n % r, n / r;
    var m := MulW(lo, np, r);
    DigitsOf(n, r);
    CarryPathIsExact(lo, hi, p, np, r);
    RedcReduces(lo, hi, p, np, r);
    QuotientIs(m * p + n, HighSum(lo, hi, p, np, r), r);
  }

  lemma DigitsOf(n: int, r: int)
    requires r > 0 && n >= 0
    ensures n == n % r + n / r * r && 0 <= n % r < r && n / r >= 0
  {
  }

  lemma QuotientIs(x: int, q: int, r: int)
    requires r > 0 && x == q * r
    ensures x / r == q
  {
    DivModUnique(x, r, q, 0);
  }

  /** Yul montgomeryAdd: a word addition and one conditional subtraction. */
  function MontAddW(a: int, b: int, p: int, r: int): int
    requires r > 0
  {
    var ret := AddW(a, b, r);
    if ret < p then ret else SubW(ret, p, r)
  }

  function MontSubW(a: int, b: int, p: int, r: int): int
    requires r > 0
  {
    MontAddW(a, SubW(p, b, r), p, r)
  }

  function MontMulW(a: int, b: int, p: int, np: int, r: int): int
    requires r > 0
  {
    Redc(MulW(a, b, r), MulHigh(a, b, r), p, np, r)
  }

  /** The conditional subtraction is enough: sums and differences come out as residues modulo p. */
  lemma MontAddIsModular(a: int, b: int, p: int, r: int)
    requires 1 < p && 2 * p < r && 0 <= a < p && 0 <= b <= p
    ensures MontAddW(a, b, p, r) == (a + b) % p
  {
    DivModUnique(a + b, r, 0, a + b);
    if a + b < p {
      DivModUnique(a + b, p, 0, a + b);
    } else {
      DivModUnique(a + b - p, r, 0, a + b - p);
      DivModUnique(a + b, p, 1, a + b - p);
    }
  }

  lemma MontSubIsModular(a: int, b: int, p: int, r: int)
    requires 1 < p && 2 * p < r && 0 <= a < p && 0 <= b < p
    ensures MontSubW(a, b, p, r) == (a + (p - b)) % p
  {
    DivModUnique(p - b, r, 0, p - b);
    MontAddIsModular(a, p - b, p, r);
  }

  /** The Montgomery product c of a and b is the residue with c r = a b modulo p, for every word a and residue b. */
  lemma MontMulCorrect(a: int, b: int, p: int, np: int, r: int)
    requires Setting(p, np, r) && 0 <= a < r && 0 <= b < p
    ensures 0 <= MontMulW(a, b, p, np, r) < p
    ensures Cong(MontMulW(a, b, p, np, r) * r, a * b, p)
    ensures MontMulW(a, b, p, np, r) == RedcInt(a * b, p, np, r)
  {
    ProductBound(a, b, r, p);
    DivBound(a * b, r, p);
    assert a * b % r + a * b / r * r == a * b;
    RedcCorrect(a * b % r, a * b / r, p, np, r);
    WordRedcIsRedc(a * b, p, np, r);
  }
}
