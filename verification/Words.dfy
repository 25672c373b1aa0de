/**
 64-bit machine words, as the numbers below 2^64, and the C conversions applied to them.
 */
module Words {

  const TWO_64: int := 0x1_0000_0000_0000_0000

  const TWO_63: int := 0x8000_0000_0000_0000

  const TWO_32: int := 0x1_0000_0000

  const TWO_16: int := 0x1_0000

  type Word = x: int | 0 <= x < 0x1_0000_0000_0000_0000

  /** `(uint64_t)x`. */
  function Wrap(x: int): Word {
    x % TWO_64
  }

  /** `(int64_t)x`. */
  function Signed(x: Word): int {
    if x >= TWO_63 then x - TWO_64 else x
  }

  /** `sign_extend` of the interpreter: flip the sign bit of weight `m`, then subtract it. */
  function SignExtend(val: Word, m: int): Word
    requires m > 0
  {
    Wrap((if (val / m) % 2 == 1 then val - m else val + m) - m)
  }

  /** `(uint64_t)(int64_t)(int8_t)x`, and the two wider casts. */
  function S8(x: Word): Word {
    SignExtend(x % 0x100, 0x80)
  }

  function S16(x: Word): Word {
    SignExtend(x % 0x1_0000, 0x8000)
  }

  function S32(x: Word): Word {
    SignExtend(x % TWO_32, 0x8000_0000)
  }

  /** `(uint32_t)x`. */
  function U32(x: Word): Word {
    x % TWO_32
  }

  predicate SignedLess(a: Word, b: Word) {
    Signed(a) < Signed(b)
  }

  function Plus(a: Word, b: Word): Word {
    Wrap(a + b)
  }

  function Minus(a: Word, b: Word): Word {
    Wrap(a - b)
  }

  function Times(a: int, b: int): Word {
    Wrap(a * b)
  }

  /** `x` reduced to a signed 32-bit number. */
  function ToS32(x: int): (y: int)
    ensures -0x8000_0000 <= y <= 0x7fff_ffff
    ensures -0x8000_0000 <= x <= 0x7fff_ffff ==> y == x
  {
    (x + 0x8000_0000) % TWO_32 - 0x8000_0000
  }

  function Pow2(n: nat): (p: nat)
    ensures p >= 1
  {
    if n == 0 then 1 else 2 * Pow2(n - 1)
  }

  lemma QuotientBounds(x: nat, p: nat)
    requires p >= 1
    ensures 0 <= x / p <= x
  {
    assert x == p * (x / p) + x % p;
  }

  /** Shifts on a target that masks its shift amounts. */
  function Shl(x: Word, k: Word): Word {
    Wrap(x * Pow2(k % 64))
  }

  function Shr(x: Word, k: Word): Word {
    QuotientBounds(x, Pow2(k % 64));
    x / Pow2(k % 64)
  }

  function Asr(x: Word, k: Word): Word {
    Wrap(Signed(x) / Pow2(k % 64))
  }

  // Bitwise operations, bit by bit

  datatype Bitwise = BitAnd | BitOr | BitXor

  function OnBit(op: Bitwise, a: int, b: int): (r: int)
    ensures 0 <= r <= 1
  {
    match op
    case BitAnd => if a % 2 == 1 && b % 2 == 1 then 1 else 0
    case BitOr => if a % 2 == 1 || b % 2 == 1 then 1 else 0
    case BitXor => if a % 2 != b % 2 then 1 else 0
  }

  function OnBits(op: Bitwise, a: int, b: int, n: nat): (r: nat)
    ensures r < Pow2(n)
    decreases n
  {
    if n == 0 then 0 else 2 * OnBits(op, a / 2, b / 2, n - 1) + OnBit(op, a, b)
  }

  lemma {:induction false} Pow2Sum(m: nat, n: nat)
    ensures Pow2(m + n) == Pow2(m) * Pow2(n)
  {
    if m > 0 {
      Pow2Sum(m - 1, n);
    }
  }

  lemma {:induction false} PowGrows(j: nat, k: nat)
    requires j <= k
    ensures Pow2(j) <= Pow2(k)
  {
    if j < k {
      PowGrows(j, k - 1);
    }
  }

  lemma Pow2Values()
    ensures Pow2(4) == 0x10 && Pow2(8) == 0x100 && Pow2(16) == 0x1_0000 && Pow2(32) == TWO_32 && Pow2(64) == TWO_64
  {
    assert Pow2(4) == 16;
    Pow2Sum(4, 4);
    Pow2Sum(8, 8);
    Pow2Sum(16, 16);
    Pow2Sum(32, 32);
  }

  function Bits(op: Bitwise, a: Word, b: Word): Word {
    Pow2Values();
    OnBits(op, a, b, 64)
  }

  /** The word a counter holds after `n` increments. */
  function ToWord(n: nat): Word {
    Wrap(n)
  }

  lemma CounterIncrement(n: nat)
    ensures Plus(ToWord(n), 1) == ToWord(n + 1)
  {
  }

  lemma LowPart(r: nat, q: nat)
    requires r < TWO_32
    ensures (r + q * TWO_32) % TWO_32 == r
  {
  }

  /** Sign extension from 32 bits looks at the low half only. */
  lemma SignExtensionIgnoresUpperHalf(x: Word, junk: Word)
    ensures U32(x) + U32(junk) * TWO_32 < TWO_64
    ensures S32(U32(x) + U32(junk) * TWO_32) == S32(x)
  {
    LowPart(U32(x), U32(junk));
  }

  lemma NarrowSignExtend(v: Word, m: int)
    requires 0 < m <= TWO_32 && v < 2 * m
    ensures SignExtend(v, m) == if v >= m then v - 2 * m + TWO_64 else v
  {
    if v >= m {
      assert v / m == 1 by { QuotientOne(v, m); }
    } else {
      assert v / m == 0;
    }
  }

  lemma QuotientOne(v: int, m: int)
    requires 0 < m <= v < 2 * m
    ensures v / m == 1
  {
    assert v == m * (v / m) + v % m;
  }

  /** Quotient and remainder are determined by the division equation. */
  lemma DivisionIs(x: int, m: int, q: int, r: int)
    requires m > 0 && 0 <= r < m && x == m * q + r
    ensures x / m == q && x % m == r
  {
    var d := x / m - q;
    assert m * d == r - x % m by {
      assert x == m * (x / m) + x % m;
      assert m * (x / m) - m * q == m * d;
    }
    assert d == 0;
  }

  lemma {:induction false} OrZero(a: nat, n: nat)
    requires a < Pow2(n)
    ensures OnBits(BitOr, a, 0, n) == a
  {
    if n > 0 {
      OrZero(a / 2, n - 1);
    }
  }

  /** `x` doubled `k` times. */
  function Doubled(x: nat, k: nat): nat {
    if k == 0 then x else 2 * Doubled(x, k - 1)
  }

  lemma {:induction false} DoubledIs(x: nat, k: nat)
    ensures Doubled(x, k) == x * Pow2(k)
  {
    if k > 0 {
      DoubledIs(x, k - 1);
    }
  }

  lemma {:induction false} OrSame(hi: nat, c: nat, m: nat, n: nat)
    requires c < Pow2(m) && Doubled(hi, m) + c < Pow2(n) && m <= n
    ensures OnBits(BitOr, Doubled(hi, m) + c, c, n) == Doubled(hi, m) + c
  {
    if m == 0 {
      OrZero(hi, n);
    } else {
      OrSame(hi, c / 2, m - 1, n - 1);
    }
  }

  lemma OrStep(q: nat, r: nat, d: nat, n: nat)
    requires n > 0
    ensures OnBits(BitOr, 2 * q, 2 * r + d, n) == 2 * OnBits(BitOr, q, r + d / 2, n - 1) + d % 2
  {
    assert (2 * r + d) / 2 == r + d / 2;
  }

  /** Or-ing an offset into an address some of whose bits it repeats: only the low `j` bits are new. */
  lemma {:induction false} OrAbsorbs(hi: nat, c: nat, d: nat, j: nat, m: nat, n: nat)
    requires c < Pow2(m) && d < Pow2(j) && j + m <= n && Doubled(Doubled(hi, m) + c, j) < Pow2(n)
    ensures OnBits(BitOr, Doubled(Doubled(hi, m) + c, j), Doubled(c, j) + d, n) == Doubled(Doubled(hi, m) + c, j) + d
  {
    if j == 0 {
      OrSame(hi, c, m, n);
    } else {
      OrAbsorbs(hi, c, d / 2, j - 1, m, n - 1);
      OrStep(Doubled(Doubled(hi, m) + c, j - 1), Doubled(c, j - 1), d, n);
    }
  }

  /** Or-ing two numbers without common bits adds them. */
  lemma OrDisjoint(hi: nat, d: nat, j: nat, n: nat)
    requires d < Pow2(j) && j <= n && Doubled(hi, j) < Pow2(n)
    ensures OnBits(BitOr, Doubled(hi, j), d, n) == Doubled(hi, j) + d
  {
    OrAbsorbs(hi, 0, d, j, 0, n);
    DoubledIs(0, j);
  }
}
