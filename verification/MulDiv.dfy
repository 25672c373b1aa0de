/**
 The M extension as the interpreter computes it in C. `None` stands for the one signed division that C
 leaves undefined, the most negative number by -1.
 */
module MulDiv {
  import opened Wrappers
  import opened Words

  function Abs(x: int): nat { if x < 0 then -x else x }

  /** C's division: towards zero. */
  function TruncDiv(x: int, y: int): int
    requires y != 0
  {
    var q := Abs(x) / Abs(y);
    if (x < 0) != (y < 0) then -q else q
  }

  function TruncRem(x: int, y: int): int
    requires y != 0
  {
    x - y * TruncDiv(x, y)
  }

  predicate Overflows(x: int, y: int, min: int) { x == min && y == -1 }

  /** Opcode 0x33 with funct7 1. */
  function MulDiv64(f3: Word, a: Word, b: Word): Option<Word> {
    var x, y := Signed(a), Signed(b);
    if f3 == 0 then Some(Times(a, b))
    else if f3 == 1 then Some(HighPart(x, y))
    else if f3 == 2 then Some(HighPart(x, b))
    else if f3 == 3 then Some(HighPart(a, b))
    else if f3 == 4 then
      if b == 0 then Some(TWO_64 - 1) else if Overflows(x, y, -TWO_63) then None else Some(Wrap(TruncDiv(x, y)))
    else if f3 == 5 then Some(if b == 0 then TWO_64 - 1 else Wrap(a / b))
    else if f3 == 6 then
      if b == 0 then Some(a) else if Overflows(x, y, -TWO_63) then None else Some(Wrap(TruncRem(x, y)))
    else Some(if b == 0 then a else Wrap(a % b))
  }

  /** Bits 64 to 127 of a product. */
  function HighPart(x: int, y: int): Word { Wrap(x * y / TWO_64) }

  /** `(int32_t)x`. */
  function Int32(x: Word): int { ToS32(x) }

  lemma Int32Zero(x: Word)
    ensures Int32(x) == 0 <==> U32(x) == 0
  {
  }

  datatype Narrow = Value(v: Word) | Illegal | Undefined

  /** Opcode 0x3B with funct7 1. */
  function MulDiv32(f3: Word, a: Word, b: Word): Narrow {
    Int32Zero(b);
    var u, v, x, y := U32(a), U32(b), Int32(a), Int32(b);
    if f3 == 0 then Value(S32(Times(u, v)))
    else if f3 == 4 then
      if v == 0 then Value(TWO_64 - 1) else if Overflows(x, y, -0x8000_0000) then Undefined
      else Value(Wrap(TruncDiv(x, y)))
    else if f3 == 5 then Value(if v == 0 then TWO_64 - 1 else S32(Wrap(u / v)))
    else if f3 == 6 then
      if v == 0 then Value(S32(a)) else if Overflows(x, y, -0x8000_0000) then Undefined
      else Value(Wrap(TruncRem(x, y)))
    else if f3 == 7 then Value(if v == 0 then S32(a) else S32(Wrap(u % v)))
    else Illegal
  }

  // Laws

  lemma ProductBounds(x: int, y: int)
    requires -TWO_63 <= x < TWO_63 && -TWO_63 <= y < TWO_63
    ensures -TWO_63 * TWO_63 <= x * y <= TWO_63 * TWO_63
  {
    MonotoneProduct(Abs(x), Abs(y), TWO_63);
    SignOfProduct(x, y);
  }

  lemma MonotoneProduct(m: nat, n: nat, k: nat)
    requires m <= k && n <= k
    ensures 0 <= m * n <= k * k
  {
    var d, e := k - m, k - n;
    assert k * k == m * n + m * e + d * k by {
      assert (m + d) * k == m * k + d * k;
      assert m * (n + e) == m * n + m * e;
    }
    assert 0 <= m * e && 0 <= d * k && 0 <= m * n;
  }

  lemma SignOfProduct(x: int, y: int)
    ensures x * y == if (x < 0) != (y < 0) then -(Abs(x) * Abs(y)) as int else Abs(x) * Abs(y)
  {
    Products(x, y);
    Products(y, x);
    Products(x, 0 - y);
  }

  /** The low half does not depend on how the factors are read. */
  lemma SameLowHalf(a: Word, b: Word)
    ensures Wrap(Signed(a) * Signed(b)) == Times(a, b)
  {
    var i, j := (a - Signed(a)) / TWO_64, (b - Signed(b)) / TWO_64;
    assert a == Signed(a) + i * TWO_64 && b == Signed(b) + j * TWO_64;
    var t := Signed(a) * j + i * Signed(b) + i * j * TWO_64;
    Expand(Signed(a), Signed(b), i, j);
    assert a * b == Signed(a) * Signed(b) + TWO_64 * t;
    DivisionIs(a * b, TWO_64, Signed(a) * Signed(b) / TWO_64 + t, Wrap(Signed(a) * Signed(b)));
  }

  lemma Expand(x: int, y: int, i: int, j: int)
    ensures (x + i * TWO_64) * (y + j * TWO_64) == x * y + TWO_64 * (x * j + i * y + i * j * TWO_64)
  {
    assert (x + i * TWO_64) * (y + j * TWO_64) == x * (y + j * TWO_64) + i * TWO_64 * (y + j * TWO_64);
    assert x * (y + j * TWO_64) == x * y + TWO_64 * (x * j);
    assert i * TWO_64 * (y + j * TWO_64) == TWO_64 * (i * y + i * j * TWO_64);
  }

  /** MULH and MUL are the two halves of the signed product. */
  lemma SignedHalves(a: Word, b: Word)
    ensures Signed(a) * Signed(b) == Signed(MulDiv64(1, a, b).value) * TWO_64 + MulDiv64(0, a, b).value
  {
    var p := Signed(a) * Signed(b);
    ProductBounds(Signed(a), Signed(b));
    SameLowHalf(a, b);
    SignedQuotient(p);
    SignedOfWrap(p / TWO_64);
  }

  lemma SignedQuotient(p: int)
    requires -TWO_63 * TWO_63 <= p <= TWO_63 * TWO_63
    ensures -TWO_63 <= p / TWO_64 < TWO_63 && p == p / TWO_64 * TWO_64 + Wrap(p)
  {
  }

  /** MULHU and MUL are the two halves of the unsigned product. */
  lemma UnsignedHalves(a: Word, b: Word)
    ensures a * b == MulDiv64(3, a, b).value * TWO_64 + MulDiv64(0, a, b).value
  {
    UnsignedBound(a, b);
    var p := a * b;
    QuotientBelow(p);
    assert p == p / TWO_64 * TWO_64 + Wrap(p);
  }

  lemma UnsignedBound(a: Word, b: Word)
    ensures 0 <= a * b < TWO_64 * TWO_64
  {
    if b > 0 {
      assert (TWO_64 - a) * b > 0;
      assert (TWO_64 - a) * b == TWO_64 * b - a * b;
    }
  }

  lemma QuotientBelow(p: nat)
    requires p < TWO_64 * TWO_64
    ensures 0 <= p / TWO_64 < TWO_64
  {
  }

  /** DIV and REM of a defined division: quotient times divisor plus remainder, the remainder smaller than
      the divisor and with the sign of the dividend. */
  lemma DivRem(a: Word, b: Word)
    requires b != 0 && !Overflows(Signed(a), Signed(b), -TWO_63)
    ensures var q, r := Signed(MulDiv64(4, a, b).value), Signed(MulDiv64(6, a, b).value);
            && Signed(a) == Signed(b) * q + r && Abs(r) < Abs(Signed(b))
            && (r < 0 ==> Signed(a) < 0) && (r > 0 ==> Signed(a) > 0)
  {
    hide Signed;
    var x, y := Signed(a), Signed(b);
    SignedBounds(a);
    SignedBounds(b);
    QuotientBounds(Abs(x), Abs(y));
    TruncParts(x, y);
    SmallQuotient(x, y);
    SignedOfWrap(TruncDiv(x, y));
    SignedOfWrap(TruncRem(x, y));
  }

  lemma SignedBounds(a: Word)
    ensures -TWO_63 <= Signed(a) < TWO_63 && (Signed(a) == 0 <==> a == 0)
  {
  }

  lemma SignedOfWrap(x: int)
    requires -TWO_63 <= x < TWO_63
    ensures Signed(Wrap(x)) == x
  {
  }

  lemma TruncParts(x: int, y: int)
    requires y != 0
    ensures Abs(TruncRem(x, y)) < Abs(y)
    ensures (TruncRem(x, y) < 0 ==> x < 0) && (TruncRem(x, y) > 0 ==> x > 0)
  {
    hide TruncDiv;
    var q := TruncDivIs(x, y);
    var r := Abs(x) - Abs(y) * q;
    Remainder(x, y, q, r);
  }

  lemma TruncDivIs(x: int, y: int) returns (q: nat)
    requires y != 0
    ensures TruncDiv(x, y) == if (x < 0) != (y < 0) then 0 - q else q
    ensures 0 <= Abs(x) - Abs(y) * q < Abs(y)
  {
    hide Abs;
    assert Abs(y) > 0 by { AbsPositive(y); }
    q := DivisionParts(Abs(x), Abs(y));
  }

  lemma AbsPositive(y: int)
    requires y != 0
    ensures Abs(y) > 0
  {
  }

  lemma Remainder(x: int, y: int, q: nat, r: nat)
    requires y != 0 && Abs(x) == Abs(y) * q + r
    ensures x - y * (if (x < 0) != (y < 0) then 0 - q else q) == if x < 0 then 0 - r else r
  {
    Products(y, q);
  }

  lemma DivisionParts(x: nat, n: nat) returns (q: nat)
    requires n > 0
    ensures q == x / n && 0 <= x - n * q < n
  {
    QuotientBounds(x, n);
    q := x / n;
    assert x == n * q + x % n;
  }

  lemma Products(y: int, q: int)
    ensures y * (0 - q) == 0 - y * q && (0 - y) * q == 0 - y * q
  {
  }

  lemma SmallQuotient(x: int, y: int)
    requires -TWO_63 <= x < TWO_63 && y != 0 && !Overflows(x, y, -TWO_63)
    ensures -TWO_63 <= TruncDiv(x, y) < TWO_63
  {
    QuotientBounds(Abs(x), Abs(y));
    if x == -TWO_63 && y < 0 {
      HalfQuotient(Abs(x), Abs(y));
    }
  }

  lemma HalfQuotient(x: nat, n: nat)
    requires n >= 2
    ensures 2 * (x / n) <= x
  {
    assert x == n * (x / n) + x % n;
    assert n * (x / n) >= 2 * (x / n);
  }
}
