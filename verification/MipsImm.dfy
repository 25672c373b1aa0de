/**
 Constant synthesis of the MIPS 64 back end: `load_immediate`.
 Registers are 64-bit words; the emitter appends to the code of a `Compiler`.
 */
module MipsImm {
  import opened Words

  type Src = r: nat | r < 32

  type Reg = r: nat | 0 < r < 32 witness 1

  /** The emitted instructions, with their immediate fields as encoded. */
  datatype Instr =
    | Ori(rd: Reg, rs: Src, field: nat)
    | Addiu(rd: Reg, rs: Src, field: nat)
    | Lui(rd: Reg, field: nat)
    | Dsll(rd: Reg, rs: Src, shamt: nat)
    | Dsll32(rd: Reg, rs: Src, shamt: nat)

  type Regs = seq<Word>

  predicate IsRegs(x: Regs) { |x| == 32 && x[0] == 0 }

  function SignOf16(f: nat): int { if f >= 0x8000 then f - 0x1_0000 else f }

  function Value(i: Instr, x: Regs): Word
    requires IsRegs(x)
  {
    match i
    case Ori(_, rs, f) => Bits(BitOr, x[rs], Wrap(f))
    case Addiu(_, rs, f) => Wrap(ToS32(x[rs] + SignOf16(f)))
    case Lui(_, f) => Wrap(ToS32(f * 0x1_0000))
    case Dsll(_, rs, k) => Times(x[rs], Pow2(k))
    case Dsll32(_, rs, k) => Times(x[rs], Pow2(k + 32))
  }

  /** 16-bit immediates and 5-bit shift amounts. */
  predicate Encodable(i: Instr) {
    match i
    case Ori(_, _, f) => f < 0x1_0000
    case Addiu(_, _, f) => f < 0x1_0000
    case Lui(_, f) => f < 0x1_0000
    case Dsll(_, _, k) => k < 32
    case Dsll32(_, _, k) => k < 32
  }

  predicate AllEncodable(code: seq<Instr>) {
    forall i :: 0 <= i < |code| ==> Encodable(code[i])
  }

  function Run(code: seq<Instr>, x: Regs): (r: Regs)
    requires AllEncodable(code) && IsRegs(x)
    ensures IsRegs(r)
    decreases |code|
  {
    if code == [] then x
    else Run(code[..|code| - 1], x)[code[|code| - 1].rd := Value(code[|code| - 1], Run(code[..|code| - 1], x))]
  }

  /** The code puts `v` in `dst`, whatever the registers hold before, and changes no other register. */
  ghost predicate Loads(code: seq<Instr>, dst: Reg, v: Word) {
    AllEncodable(code) && forall x: Regs :: IsRegs(x) ==> Run(code, x) == x[dst := v]
  }

  /** One more instruction that works on `dst`. */
  lemma Next(code: seq<Instr>, i: Instr, dst: Reg, v: Word, w: Word)
    requires Loads(code, dst, v) && Encodable(i) && i.rd == dst
    requires forall x: Regs :: IsRegs(x) && x[dst] == v ==> Value(i, x) == w
    ensures Loads(code + [i], dst, w)
  {
    hide Value, Encodable, Run;
    forall x: Regs | IsRegs(x)
      ensures AllEncodable(code + [i]) && Run(code + [i], x) == x[dst := w]
    {
      RunNext(code, i, x);
      var y := x[dst := v];
      assert y[dst := w] == x[dst := w];
    }
    RunNext(code, i, seq(32, _ => 0));
  }

  lemma RunNext(code: seq<Instr>, i: Instr, x: Regs)
    requires AllEncodable(code) && Encodable(i) && IsRegs(x)
    ensures AllEncodable(code + [i]) && Run(code + [i], x) == Run(code, x)[i.rd := Value(i, Run(code, x))]
  {
    hide Value, Encodable;
    assert (code + [i])[..|code|] == code;
  }

  /** A first instruction whose value depends on no register but $0. */
  lemma First(i: Instr, dst: Reg, w: Word)
    requires Encodable(i) && i.rd == dst
    requires forall x: Regs :: IsRegs(x) ==> Value(i, x) == w
    ensures Loads([i], dst, w)
  {
    hide Value, Encodable;
    forall x: Regs | IsRegs(x)
      ensures Run([i], x) == x[dst := w]
    {
      assert [i][..0] == [];
    }
  }

  // Arithmetic of the pieces

  /** ORI into a word whose low `j` bits are zero. */
  lemma OrLow(a: int, j: nat, d: nat)
    requires j <= 64 && d < Pow2(j) && d < 0x1_0000
    ensures Bits(BitOr, Wrap(a * Pow2(j)), Wrap(d)) == Wrap(a * Pow2(j) + d)
  {
    hide OnBits, Pow2;
    var hi := Multiple(a, j);
    Pow2Values();
    DoubledIs(hi, j);
    OrDisjoint(hi, d, j, 64);
    AddLow(a * Pow2(j), hi, Pow2(j), d, Pow2(64 - j)) by {
      Pow2Sum(j, 64 - j);
    }
  }

  /** A multiple of 2^j stays one when reduced to 64 bits. */
  lemma Multiple(a: int, j: nat) returns (hi: nat)
    requires j <= 64
    ensures hi < Pow2(64 - j) && Wrap(a * Pow2(j)) == hi * Pow2(j)
  {
    hide Pow2;
    var p, n := Pow2(j), Pow2(64 - j);
    hi := a % n;
    Pow2Values();
    Pow2Sum(j, 64 - j);
    Scaled(a, n, p, TWO_64);
  }

  lemma Scaled(a: int, n: nat, p: nat, m: nat)
    requires n >= 1 && p >= 1 && n * p == m
    ensures a * p % m == a % n * p && 0 <= a % n < n
  {
    var q, r := a / n, a % n;
    assert a == n * q + r;
    Distribute(a, n, q, r, p);
    SmallerProduct(r, n, p);
    DivisionIs(a * p, m, q, r * p);
  }

  lemma SmallerProduct(r: nat, n: nat, p: nat)
    requires r < n && p >= 1
    ensures 0 <= r * p && r * p + p <= n * p
  {
    assert n * p == r * p + (n - r) * p;
    assert (n - r) * p == (n - r - 1) * p + p;
  }

  lemma AddLow(v: int, hi: nat, p: nat, d: nat, n: nat)
    requires p >= 1 && d < p && hi < n && n * p == TWO_64 && Wrap(v) == hi * p
    ensures Wrap(v + d) == hi * p + d
  {
    SmallerProduct(hi, n, p);
    DivisionIs(v + d, TWO_64, v / TWO_64, hi * p + d);
  }

  /** LUI and ORI of the two halves of a 32-bit number. */
  lemma UpperHalf(h: int)
    requires -0x8000_0000 <= h < 0x8000_0000
    ensures ToS32(h / 0x1_0000 % 0x1_0000 * 0x1_0000) == h / 0x1_0000 * 0x1_0000
  {
  }

  lemma ShiftWrapped(v: int, k: nat)
    ensures Times(Wrap(v), Pow2(k)) == Wrap(v * Pow2(k))
  {
    var q, p := v / TWO_64, Pow2(k);
    assert v == TWO_64 * q + Wrap(v);
    WrapMultiple(Wrap(v) * p, q * p);
    assert v * p == Wrap(v) * p + TWO_64 * (q * p);
  }

  lemma WrapMultiple(x: int, t: int)
    ensures Wrap(x + TWO_64 * t) == Wrap(x)
  {
    DivisionIs(x + TWO_64 * t, TWO_64, x / TWO_64 + t, x % TWO_64);
  }

  // Normalisation

  const TWO_48: int := 0x1_0000_0000_0000
  const TWO_56: int := 0x100_0000_0000_0000
  const TWO_60: int := 0x1000_0000_0000_0000
  const TWO_62: int := 0x4000_0000_0000_0000

  lemma {:induction false} DoubledSum(x: nat, j: nat, k: nat)
    ensures Doubled(x, j + k) == Doubled(Doubled(x, j), k)
  {
    if k > 0 {
      DoubledSum(x, j, k - 1);
    }
  }

  lemma DoubleMore(u0: nat, k: nat)
    ensures Doubled(u0, 0) == u0
    ensures Doubled(u0, k + 1) == 2 * Doubled(u0, k)
    ensures Doubled(u0, k + 2) == 4 * Doubled(u0, k)
    ensures Doubled(u0, k + 4) == 0x10 * Doubled(u0, k)
    ensures Doubled(u0, k + 8) == 0x100 * Doubled(u0, k)
  {
    DoubledSum(u0, k, 4);
    DoubledSum(u0, k, 8);
    DoubledIs(Doubled(u0, k), 4);
    DoubledIs(Doubled(u0, k), 8);
    Pow2Values();
  }

  lemma {:induction false} DoubledLarge(x: nat, j: nat, k: nat)
    requires j <= k
    ensures Doubled(x, j) <= Doubled(x, k)
  {
    if j < k {
      DoubledLarge(x, j, k - 1);
    }
  }

  /** The first normalisation: the result starts with the bits 01, and `shift` is within bounds. */
  method Normalise(u0: Word) returns (uimm: Word, shift: int)
    requires 0x8000_0000 <= u0 < TWO_63
    ensures 0 < shift <= 32 && TWO_62 <= uimm < TWO_63 && uimm == Doubled(u0, 32 - shift)
  {
    hide Doubled, Wrap;
    WrapFits();
    DoubleMore(u0, 0);
    uimm, shift := u0, 32;
    while uimm < TWO_56
      invariant shift <= 32 && 0 < uimm == Doubled(u0, 32 - shift)
      decreases TWO_64 - uimm
    {
      DoubleMore(u0, 32 - shift);
      uimm, shift := Wrap(uimm * 0x100), shift - 8;
    }
    if uimm < TWO_60 {
      DoubleMore(u0, 32 - shift);
      uimm, shift := Wrap(uimm * 0x10), shift - 4;
    }
    if uimm < TWO_62 {
      DoubleMore(u0, 32 - shift);
      uimm, shift := Wrap(uimm * 4), shift - 2;
    }
    if uimm >= TWO_63 {
      DoubleMore(u0, 32 - shift - 1);
      uimm, shift := uimm / 2, shift + 1;
    }
    NotAllTheWay(u0, 32 - shift);
  }

  lemma WrapFits()
    ensures forall x :: 0 <= x < TWO_64 ==> Wrap(x) == x
  {
  }

  lemma NotAllTheWay(u0: Word, k: nat)
    requires 0x8000_0000 <= u0 && Doubled(u0, k) < TWO_63
    ensures k < 32
  {
    hide Doubled, Pow2;
    if k >= 32 {
      DoubledLarge(u0, 32, k);
      DoubledIs(u0, 32);
      Pow2Values();
    }
  }

  /** The second normalisation: the result starts with a one. */
  method NormaliseLow(u0: Word, shift: int) returns (uimm: Word, shift2: int)
    requires u0 > 0
    ensures shift2 <= shift - 16 && uimm >= TWO_63 && uimm == Doubled(u0, shift - 16 - shift2)
  {
    hide Doubled, Wrap;
    WrapFits();
    DoubleMore(u0, 0);
    uimm, shift2 := u0, shift - 16;
    while uimm < TWO_60
      invariant shift2 <= shift - 16 && 0 < uimm == Doubled(u0, shift - 16 - shift2)
      decreases TWO_64 - uimm
    {
      DoubleMore(u0, shift - 16 - shift2);
      uimm, shift2 := Wrap(uimm * 0x10), shift2 - 4;
    }
    if uimm < TWO_62 {
      DoubleMore(u0, shift - 16 - shift2);
      uimm, shift2 := Wrap(uimm * 4), shift2 - 2;
    }
    if uimm < TWO_63 {
      DoubleMore(u0, shift - 16 - shift2);
      uimm, shift2 := Wrap(uimm * 2), shift2 - 1;
    }
  }

  /** The low bits that inverting a shifted negative constant back leaves. */
  function Filler(inv: bool, k: nat): (e: nat)
    ensures e < Pow2(k)
  {
    if inv then Pow2(k) - 1 else 0
  }

  /** The normalised constant: the bits above `shift` in the upper half, the bits below it at the top of
      the lower half, and the filler. */
  lemma Halves(imm: int, shift: nat, e: nat)
    requires shift <= 32 && e < Pow2(32 - shift)
    ensures var s := imm * Pow2(32 - shift) + e;
            s / TWO_32 == imm / Pow2(shift) && s % TWO_32 == imm % Pow2(shift) * Pow2(32 - shift) + e
  {
    hide Pow2;
    var p, n := Pow2(32 - shift), Pow2(shift);
    Pow2Values();
    Pow2Sum(shift, 32 - shift);
    var q, r := imm / n, imm % n;
    SmallerProduct(r, n, p);
    assert imm == n * q + r;
    assert imm * p + e == n * p * q + (r * p + e) by { Distribute(imm, n, q, r, p); }
    DivisionIs(imm * p + e, TWO_32, q, r * p + e);
  }

  lemma Distribute(x: int, n: int, q: int, r: int, p: int)
    requires x == n * q + r
    ensures x * p == n * p * q + r * p
  {
  }

  /** What `uimm` is after the inversion. */
  lemma Inverted(imm: int, u0: Word, uimm: Word, shift: int)
    requires 0 < shift <= 32 && uimm == Doubled(u0, 32 - shift) && TWO_62 <= uimm < TWO_63
    requires u0 == if imm < 0 then -imm - 1 else imm
    ensures var s := imm * Pow2(32 - shift) + Filler(imm < 0, 32 - shift);
            -TWO_63 <= s < TWO_63 && Wrap(s) == if imm < 0 then TWO_64 - 1 - uimm else uimm
  {
    hide Pow2;
    var p := Pow2(32 - shift);
    DoubledIs(u0, 32 - shift);
    if imm < 0 {
      assert (-imm - 1) * p == -(imm * p) - p;
    }
  }

  /** The halves of the 64-bit word in terms of the signed number it stands for. */
  lemma WordHalves(s: int)
    requires -TWO_63 <= s < TWO_63
    ensures Wrap(s) / TWO_32 == s / TWO_32 % TWO_32 && Wrap(s) % TWO_32 == s % TWO_32
  {
    var h, l := s / TWO_32, s % TWO_32;
    assert -0x8000_0000 <= h < 0x8000_0000;
    if s < 0 {
      DivisionIs(s + TWO_64, TWO_32, h + TWO_32, l);
    }
  }

  /** The sixteen bits inserted between the two shifts. */
  lemma Middle(low: nat, shift: int, shift2: int, e: nat, uimm: Word)
    requires 0x1_0000 <= low && 0 <= shift <= 32 && shift2 <= shift - 16 && e < Pow2(32 - shift)
    requires uimm == Doubled((low * Pow2(32 - shift) + e) * TWO_32, shift - 16 - shift2) && uimm >= TWO_63
    ensures 0 < shift2 <= 16 && uimm / TWO_48 == low / Pow2(shift2)
  {
    hide Pow2, Doubled;
    var k, j := 32 - shift, shift - 16 - shift2;
    var p, b := Pow2(k), Pow2(j);
    Pow2Values();
    DoubledIs((low * p + e) * TWO_32, j);
    Pow2Sum(k, j);
    var v := (low * p + e) * b;
    assert uimm == v * TWO_32 by { Rearrange(low * p + e, b); }
    assert low * (p * b) <= v by { Expand(low, p, e, b); }
    if shift2 <= 0 {
      PowGrows(16, k + j);
      assert false by { TooLarge(low, p * b); }
    }
    Pow2Sum(shift2, k + j);
    MiddleBits(low, Pow2(shift2), p, e, b);
    DivisionIs(uimm, TWO_48, v / 0x1_0000, v % 0x1_0000 * TWO_32) by {
      assert v == 0x1_0000 * (v / 0x1_0000) + v % 0x1_0000;
    }
  }

  lemma Rearrange(x: int, b: int)
    ensures x * TWO_32 * b == x * b * TWO_32
  {
  }

  lemma Expand(low: nat, p: nat, e: nat, b: nat)
    ensures (low * p + e) * b == low * (p * b) + e * b && low * (p * b) <= (low * p + e) * b
  {
  }

  lemma TooLarge(low: nat, m: nat)
    requires low >= 0x1_0000 && m >= 0x1_0000
    ensures low * m >= TWO_32
  {
  }

  lemma MiddleBits(low: nat, n: nat, p: nat, e: nat, b: nat)
    requires n >= 1 && e < p && b >= 1 && n * (p * b) == 0x1_0000
    ensures (low * p + e) * b / 0x1_0000 == low / n
  {
    var q, r := low / n, low % n;
    Expand(low, p, e, b);
    assert low == n * q + r;
    Distribute(low, n, q, r, p * b);
    SmallerProduct(r, n, p * b);
    SmallerProduct(e, p, b);
    DivisionIs((low * p + e) * b, 0x1_0000, q, r * (p * b) + e * b);
  }

  /** Dropping low bits in two steps. */
  lemma SplitTwice(imm: int, j: nat, k: nat)
    ensures imm / Pow2(j + k) * Pow2(j) + imm % Pow2(j + k) / Pow2(k) == imm / Pow2(k)
    ensures imm % Pow2(j + k) / Pow2(k) < Pow2(j)
    ensures imm % Pow2(j + k) % Pow2(k) == imm % Pow2(k)
  {
    hide Pow2;
    var a, b := Pow2(j), Pow2(k);
    Pow2Sum(j, k);
    var q, r := imm / (a * b), imm % (a * b);
    var s, t := r / b, r % b;
    assert r == b * s + t;
    assert s < a by { QuotientLess(r, a, b); }
    assert imm == b * (q * a + s) + t by {
      assert imm == a * b * q + r;
      assert a * b * q == b * (q * a);
      assert b * (q * a) + b * s == b * (q * a + s);
    }
    DivisionIs(imm, b, q * a + s, t);
  }

  lemma QuotientLess(r: nat, a: nat, b: nat)
    requires b >= 1 && r < a * b
    ensures r / b < a
  {
    assert r == b * (r / b) + r % b;
    if r / b >= a {
      LargerProduct(b, a, r / b);
    }
  }

  lemma LargerProduct(b: nat, a: nat, q: nat)
    requires a <= q
    ensures b * a <= b * q
  {
  }

  // The instructions, one at a time

  lemma OriFirst(dst: Reg, d: nat)
    requires d < 0x1_0000
    ensures Loads([Ori(dst, 0, d)], dst, Wrap(d))
  {
    hide Loads, Pow2, OnBits;
    Pow2Values();
    OrLow(0, 16, d);
    First(Ori(dst, 0, d), dst, Wrap(d));
  }

  lemma AddiuFirst(dst: Reg, imm: int)
    requires -0x8000 <= imm < 0
    ensures Loads([Addiu(dst, 0, imm % 0x1_0000)], dst, Wrap(imm))
  {
    hide Loads;
    First(Addiu(dst, 0, imm % 0x1_0000), dst, Wrap(imm));
  }

  lemma OriNext(code: seq<Instr>, dst: Reg, a: int, j: nat, d: nat)
    requires j <= 64 && d < Pow2(j) && d < 0x1_0000 && Loads(code, dst, Wrap(a * Pow2(j)))
    ensures Loads(code + [Ori(dst, dst, d)], dst, Wrap(a * Pow2(j) + d))
  {
    hide Loads, Pow2, OnBits;
    OrLow(a, j, d);
    Next(code, Ori(dst, dst, d), dst, Wrap(a * Pow2(j)), Wrap(a * Pow2(j) + d));
  }

  /** The shifts up to 32; DSLL32 adds 32 to its field. */
  function Shift(dst: Reg, k: nat): Instr {
    if k == 32 then Dsll32(dst, dst, 0) else Dsll(dst, dst, k)
  }

  lemma ShiftNext(code: seq<Instr>, dst: Reg, v: int, k: nat)
    requires 0 < k <= 32 && Loads(code, dst, Wrap(v))
    ensures Loads(code + [Shift(dst, k)], dst, Wrap(v * Pow2(k)))
  {
    hide Loads, Pow2;
    ShiftWrapped(v, k);
    Next(code, Shift(dst, k), dst, Wrap(v), Wrap(v * Pow2(k)));
  }

  /** LUI, and ORI unless its field is zero: a sign-extended 32-bit number. */
  lemma UpperLoaded(dst: Reg, h: int)
    requires -0x8000_0000 <= h < 0x8000_0000
    ensures Loads([Lui(dst, h / 0x1_0000 % 0x1_0000)], dst, Wrap(h - h % 0x1_0000))
    ensures Loads([Lui(dst, h / 0x1_0000 % 0x1_0000), Ori(dst, dst, h % 0x1_0000)], dst, Wrap(h))
  {
    hide Loads, Pow2;
    UpperHalf(h);
    var lui, ori := Lui(dst, h / 0x1_0000 % 0x1_0000), Ori(dst, dst, h % 0x1_0000);
    First(lui, dst, Wrap(h - h % 0x1_0000));
    Pow2Values();
    OriNext([lui], dst, h / 0x1_0000, 16, h % 0x1_0000);
    assert [lui] + [ori] == [lui, ori];
  }

  class Compiler {
    var code: seq<Instr>

    constructor ()
      ensures code == []
    {
      code := [];
    }

    method PushInst(i: Instr)
      modifies this
      ensures code == old(code) + [i]
    {
      code := code + [i];
    }

    /** `load_immediate`: at most six instructions that put `imm` in `dst`. */
    method LoadImmediate(dst: Reg, imm: int) returns (ghost emitted: seq<Instr>)
      requires -TWO_63 <= imm < TWO_63
      modifies this
      ensures code == old(code) + emitted && |emitted| <= 6 && Loads(emitted, dst, Wrap(imm))
    {
      hide Loads, Pow2, Doubled;
      if 0 <= imm < 0x1_0000 {
        OriFirst(dst, imm);
        PushInst(Ori(dst, 0, imm));
        return [Ori(dst, 0, imm)];
      }
      if -0x8000 <= imm < 0 {
        AddiuFirst(dst, imm);
        PushInst(Addiu(dst, 0, imm % 0x1_0000));
        return [Addiu(dst, 0, imm % 0x1_0000)];
      }
      if -0x8000_0000 <= imm <= 0x7fff_ffff {
        emitted := LoadUpper(dst, imm, imm / 0x1_0000 % 0x1_0000, imm % 0x1_0000);
      } else {
        emitted := LoadWide(dst, imm);
      }
    }

    method LoadUpper(dst: Reg, ghost h: int, upper: nat, lower: nat) returns (ghost emitted: seq<Instr>)
      requires -0x8000_0000 <= h < 0x8000_0000 && upper == h / 0x1_0000 % 0x1_0000 && lower == h % 0x1_0000
      modifies this
      ensures code == old(code) + emitted && |emitted| <= 2 && Loads(emitted, dst, Wrap(h))
    {
      hide Loads;
      UpperLoaded(dst, h);
      PushInst(Lui(dst, upper));
      emitted := [Lui(dst, upper)];
      if lower != 0 {
        PushInst(Ori(dst, dst, lower));
        emitted := [Lui(dst, upper), Ori(dst, dst, lower)];
      }
    }

    /** Constants of more than 32 bits. */
    method LoadWide(dst: Reg, imm: int) returns (ghost emitted: seq<Instr>)
      requires -TWO_63 <= imm < TWO_63 && !(-0x8000_0000 <= imm <= 0x7fff_ffff)
      modifies this
      ensures code == old(code) + emitted && |emitted| <= 6 && Loads(emitted, dst, Wrap(imm))
    {
      hide Loads, Pow2, Doubled, Filler;
      ghost var u0: Word := if imm < 0 then -imm - 1 else imm;
      var uimm, shift := Normalise(if imm < 0 then -imm - 1 else imm);
      ghost var e := Filler(imm < 0, 32 - shift);
      Inverted(imm, u0, uimm, shift);
      if imm < 0 {
        uimm := TWO_64 - 1 - uimm;
      }
      Halves(imm, shift, e);
      WordHalves(imm * Pow2(32 - shift) + e);
      ghost var h := imm / Pow2(shift);
      UpperFields(h, uimm);
      emitted := LoadUpper(dst, h, uimm / TWO_48, uimm / TWO_32 % 0x1_0000);
      var low := imm % Pow2(shift);
      DivisionEquation(imm, Pow2(shift));
      if low < 0x1_0000 {
        ShiftNext(emitted, dst, h, shift);
        PushInst(Shift(dst, shift));
        emitted := PushLow(dst, emitted + [Shift(dst, shift)], old(code), h, shift, low);
      } else {
        LowerHalf(uimm);
        emitted := LoadDouble(dst, imm, low, Wrap(uimm * TWO_32), shift, e, emitted, old(code));
      }
    }

    /** Two more shifts; sixteen bits are inserted in between. */
    method LoadDouble(dst: Reg, ghost imm: int, low: nat, u0: Word, shift: int, ghost e: nat, ghost done: seq<Instr>,
                      ghost base: seq<Instr>)
      returns (ghost emitted: seq<Instr>)
      requires 0 < shift <= 32 && e < Pow2(32 - shift) && low == imm % Pow2(shift) && low >= 0x1_0000
      requires u0 == (low * Pow2(32 - shift) + e) * TWO_32
      requires code == base + done && Loads(done, dst, Wrap(imm / Pow2(shift)))
      modifies this
      ensures code == base + emitted && |emitted| <= |done| + 4 && Loads(emitted, dst, Wrap(imm))
    {
      hide Loads, Pow2, Doubled;
      var uimm, shift2 := NormaliseLow(u0, shift);
      Middle(low, shift, shift2, e, uimm);
      ghost var j := shift - shift2;
      SplitTwice(imm, j, shift2);
      PowAtLeast16(shift - shift2);

      ShiftNext(done, dst, imm / Pow2(shift), j);
      PushInst(Dsll(dst, dst, shift - shift2));
      emitted := done + [Shift(dst, j)];

      OriNext(emitted, dst, imm / Pow2(shift), j, uimm / TWO_48);
      PushInst(Ori(dst, dst, uimm / TWO_48));
      emitted := emitted + [Ori(dst, dst, uimm / TWO_48)];

      ShiftNext(emitted, dst, imm / Pow2(shift2), shift2);
      PushInst(Dsll(dst, dst, shift2));
      emitted := emitted + [Shift(dst, shift2)];

      DivisionEquation(imm, Pow2(shift2));
      ShiftBelow(imm % Pow2(shift2), shift2);
      emitted := PushLow(dst, emitted, base, imm / Pow2(shift2), shift2, low % Pow2(shift2));
    }

    /** The ORI of the last bits, unless they are zero. */
    method PushLow(dst: Reg, ghost done: seq<Instr>, ghost base: seq<Instr>, ghost a: int, ghost j: nat, low: nat)
      returns (ghost emitted: seq<Instr>)
      requires j <= 64 && low < Pow2(j) && low < 0x1_0000
      requires code == base + done && Loads(done, dst, Wrap(a * Pow2(j)))
      modifies this
      ensures code == base + emitted && |emitted| <= |done| + 1 && Loads(emitted, dst, Wrap(a * Pow2(j) + low))
    {
      hide Loads, Pow2;
      emitted := done;
      if low != 0 {
        OriNext(done, dst, a, j, low);
        PushInst(Ori(dst, dst, low));
        emitted := done + [Ori(dst, dst, low)];
      }
    }
  }

  lemma DivisionEquation(x: int, n: nat)
    requires n >= 1
    ensures x == x / n * n + x % n
  {
  }

  lemma ShiftBelow(low: nat, k: nat)
    requires k <= 16 && low < Pow2(k)
    ensures low < 0x1_0000
  {
    hide Pow2;
    PowGrows(k, 16);
    Pow2Values();
  }

  lemma PowAtLeast16(j: nat)
    requires j >= 16
    ensures Pow2(j) >= 0x1_0000
  {
    hide Pow2;
    PowGrows(16, j);
    Pow2Values();
  }

  /** The upper half as LUI and ORI fields. */
  lemma UpperFields(h: int, uimm: Word)
    requires -0x8000_0000 <= h < 0x8000_0000 && uimm / TWO_32 == h % TWO_32
    ensures uimm / TWO_48 == h / 0x1_0000 % 0x1_0000 && uimm / TWO_32 % 0x1_0000 == h % 0x1_0000
  {
    var t := h % TWO_32;
    DivisionIs(uimm, TWO_48, t / 0x1_0000, t % 0x1_0000 * TWO_32 + uimm % TWO_32);
  }

  /** Shifting the lower half up drops the upper one. */
  lemma LowerHalf(uimm: Word)
    ensures Wrap(uimm * TWO_32) == uimm % TWO_32 * TWO_32
  {
    Scaled(uimm, TWO_32, TWO_32, TWO_64);
  }
}
