/**
 Constant synthesis of the RISC-V 64 back end: `load_immediate32` and `load_immediate`.
 Constants and register contents are signed 64-bit numbers.
 */
module RiscvImm {
  import opened Words
  import opened Xor

  type Src = r: nat | r < 32

  type Reg = r: nat | 0 < r < 32 witness 1

  /** The emitted instructions, with their immediate fields as encoded. */
  datatype Instr =
    | Lui(rd: Reg, field: nat)
    | Addi(rd: Reg, rs: Src, field: nat)
    | Xori(rd: Reg, rs: Src, field: nat)
    | Slli(rd: Reg, rs: Src, shamt: nat)
    | XorReg(rd: Reg, rs1: Reg, rs2: Reg)
    | CLi(rd: Reg, field: nat)
    | CLui(rd: Reg, field: nat)
    | CAddi(rd: Reg, field: nat)
    | CSlli(rd: Reg, shamt: nat)

  predicate IsS64(x: int) { -TWO_63 <= x < TWO_63 }

  function ToS64(x: int): (y: int)
    ensures IsS64(y)
    ensures IsS64(x) ==> y == x
  {
    (x + TWO_63) % TWO_64 - TWO_63
  }

  function SignOf12(f: nat): int { if f >= 0x800 then f - 0x1000 else f }

  function SignOf6(f: nat): int { if f >= 0x20 then f - 0x40 else f }

  /** Register contents; x0 is register 0 and reads as 0. */
  type Regs = seq<int>

  predicate IsRegs(x: Regs) {
    |x| == 32 && x[0] == 0 && forall i :: 0 <= i < 32 ==> IsS64(x[i])
  }

  function Value(i: Instr, x: Regs): int
    requires IsRegs(x)
  {
    match i
    case Lui(_, f) => ToS32(f * 0x1000)
    case Addi(_, rs, f) => ToS64(x[rs] + SignOf12(f))
    case Xori(_, rs, f) => ToS64(XorInt(x[rs], SignOf12(f)))
    case Slli(_, rs, k) => ToS64(Shifted(x[rs], k))
    case XorReg(_, a, b) => ToS64(XorInt(x[a], x[b]))
    case CLi(_, f) => SignOf6(f)
    case CLui(_, f) => ToS64(SignOf6(f) * 0x1000)
    case CAddi(rd, f) => ToS64(x[rd] + SignOf6(f))
    case CSlli(rd, k) => ToS64(Shifted(x[rd], k))
  }

  /** Fields in range. The compressed forms reserve zero immediates, and the encoding of C.LUI with x2 is
      C.ADDI16SP (section 16.5 of the RISC-V unprivileged specification 20191213). */
  predicate Encodable(i: Instr) {
    match i
    case Lui(_, f) => f < 0x10_0000
    case Addi(_, _, f) => f < 0x1000
    case Xori(_, _, f) => f < 0x1000
    case Slli(_, _, k) => k < 64
    case XorReg(_, _, _) => true
    case CLi(_, f) => f < 64
    case CLui(rd, f) => rd != 2 && 0 < f < 64
    case CAddi(_, f) => 0 < f < 64
    case CSlli(_, k) => 0 < k < 64
  }

  predicate AllEncodable(code: seq<Instr>) {
    forall i :: 0 <= i < |code| ==> Encodable(code[i])
  }

  function Run(code: seq<Instr>, x: Regs): (r: Regs)
    requires AllEncodable(code) && IsRegs(x)
    ensures IsRegs(r)
    decreases |code|
  {
    if code == [] then x
    else
      var v := ToS64(Value(code[0], x));
      Run(code[1..], x[code[0].rd := v])
  }

  lemma {:induction false} RunAppend(a: seq<Instr>, b: seq<Instr>, x: Regs)
    requires AllEncodable(a) && AllEncodable(b) && IsRegs(x)
    ensures AllEncodable(a + b) && Run(a + b, x) == Run(b, Run(a, x))
    decreases |a|
  {
    if a == [] {
      assert a + b == b;
    } else {
      assert (a + b)[1..] == a[1..] + b;
      RunAppend(a[1..], b, x[a[0].rd := ToS64(Value(a[0], x))]);
    }
  }

  lemma Run1(i: Instr, x: Regs)
    requires Encodable(i) && IsRegs(x)
    ensures Run([i], x) == x[i.rd := ToS64(Value(i, x))]
  {
    assert [i][1..] == [];
  }

  // Emission

  const S32_MIN: int := -0x8000_0000
  const S32_MAX: int := 0x7fff_f7ff
  const INT32_MAX: int := 0x7fff_ffff

  predicate IsSimm(imm: int) { -0x800 <= imm <= 0x7ff }

  predicate IsInt32(imm: int) { S32_MIN <= imm <= INT32_MAX }

  /** `imm & 0x800`. */
  predicate Bit11(imm: int) { imm / 0x800 % 2 == 1 }

  function Rounded(imm: int): int { if Bit11(imm) then imm + 0x1000 else imm }

  function F12(imm: int): nat { imm % 0x1000 }

  function F20(imm: int): nat { imm / 0x1000 % 0x10_0000 }

  function F6(imm: int): nat { imm % 64 }

  predicate IsShort(low: nat) { low <= 0x1f || low >= 0xfe0 }

  /** The ADDI of the low twelve bits. */
  function AddLow(rd: Reg, low: nat, compressed: bool): seq<Instr> {
    if low == 0 then [] else if compressed && IsShort(low) then [CAddi(rd, F6(low))] else [Addi(rd, rd, low)]
  }

  function Upper(rd: Reg, imm: int, compressed: bool): Instr {
    if compressed && -0x2_0000 <= imm <= 0x1_ffff then CLui(rd, imm / 0x1000 % 64) else Lui(rd, F20(imm))
  }

  /** `load_immediate32`. */
  function Load32(rd: Reg, imm: int, compressed: bool): seq<Instr> {
    if imm > S32_MAX then [Lui(rd, 0x8_0000), Xori(rd, rd, F12(imm))]
    else if compressed && -0x2_0000 <= imm <= 0x1_ffff then
      if imm > 0x1_f7ff then [CLui(rd, 0x20), Xori(rd, rd, F12(imm))]
      else [CLui(rd, Rounded(imm) / 0x1000 % 64)] + AddLow(rd, F12(Rounded(imm)), compressed)
    else [Lui(rd, F20(Rounded(imm)))] + AddLow(rd, F12(Rounded(imm)), compressed)
  }

  /** Constants loaded with C.LUI if compressed instructions are used. */
  predicate UsesCLui32(imm: int) { !IsSimm(imm) && -0x2_0000 <= imm <= 0x1_ffff }

  lemma AddLowAdds(rd: Reg, low: nat, compressed: bool, x: Regs)
    requires low < 0x1000 && IsRegs(x) && IsS64(x[rd] + SignOf12(low))
    ensures AllEncodable(AddLow(rd, low, compressed))
    ensures Run(AddLow(rd, low, compressed), x) == x[rd := x[rd] + SignOf12(low)]
  {
    var code := AddLow(rd, low, compressed);
    if low == 0 {
      assert x[rd := x[rd]] == x;
    } else {
      ShortField(low);
      Run1(code[0], x);
    }
  }

  lemma ShortField(low: nat)
    requires 0 < low < 0x1000
    ensures IsShort(low) ==> 0 < F6(low) < 64 && SignOf6(F6(low)) == SignOf12(low)
  {
  }

  /** LUI and XORI of a 12-bit field with its top bit set. */
  lemma LuiXori(hi: int, imm: int)
    requires F12(imm) >= 0x800
    ensures XorInt(hi * 0x1000, SignOf12(F12(imm))) == (-hi - 1) * 0x1000 + F12(imm)
  {
    TwelveBits();
    XorSplit(hi, 12, SignOf12(F12(imm)));
    ShiftedIs(hi, 12);
    ShiftedIs(-hi - 1, 12);
  }

  lemma TwelveBits()
    ensures Pow2(12) == 0x1000 && Pow2(32) == TWO_32
  {
    Pow2Values();
    Pow2Sum(8, 4);
  }

  lemma RoundedParts(imm: int)
    ensures Rounded(imm) / 0x1000 * 0x1000 + SignOf12(F12(Rounded(imm))) == imm
    ensures F12(Rounded(imm)) == F12(imm) && Bit11(imm) == (F12(imm) >= 0x800)
  {
    var h, l := imm / 0x1000, imm % 0x1000;
    DivisionIs(imm, 0x800, 2 * h + l / 0x800, l % 0x800);
    DivisionIs(2 * h + l / 0x800, 2, h, l / 0x800);
    DivisionIs(imm + 0x1000, 0x1000, h + 1, l);
  }

  /** LUI, then ADDI of the low bits. */
  lemma UpperThenLow(upper: Instr, rd: Reg, imm: int, compressed: bool, x: Regs)
    requires Encodable(upper) && upper.rd == rd && IsRegs(x) && IsInt32(imm)
    requires Value(upper, x) == Rounded(imm) / 0x1000 * 0x1000
    ensures AllEncodable([upper] + AddLow(rd, F12(Rounded(imm)), compressed))
    ensures Run([upper] + AddLow(rd, F12(Rounded(imm)), compressed), x) == x[rd := imm]
  {
    RoundedParts(imm);
    var low := F12(Rounded(imm));
    Run1(upper, x);
    var x' := x[rd := Value(upper, x)];
    AddLowAdds(rd, low, compressed, x');
    RunAppend([upper], AddLow(rd, low, compressed), x);
    assert x'[rd := imm] == x[rd := imm];
  }

  lemma UpperThenXori(upper: Instr, rd: Reg, hi: int, imm: int, x: Regs)
    requires Encodable(upper) && upper.rd == rd && IsRegs(x) && IsInt32(imm)
    requires Value(upper, x) == hi * 0x1000 && F12(imm) >= 0x800 && (-hi - 1) * 0x1000 + F12(imm) == imm
    ensures AllEncodable([upper, Xori(rd, rd, F12(imm))])
    ensures Run([upper, Xori(rd, rd, F12(imm))], x) == x[rd := imm]
  {
    var xori := Xori(rd, rd, F12(imm));
    LuiXori(hi, imm);
    Run1(upper, x);
    var x' := x[rd := Value(upper, x)];
    Run1(xori, x');
    RunAppend([upper], [xori], x);
    assert [upper] + [xori] == [upper, xori];
    assert x'[rd := imm] == x[rd := imm];
  }

  lemma LuiField(q: int)
    requires -0x8_0000 <= q < 0x8_0000
    ensures ToS32(q % 0x10_0000 * 0x1000) == q * 0x1000
  {
  }

  lemma CLuiField(q: int)
    requires -32 <= q < 32 && q != 0
    ensures 0 < q % 64 < 64 && SignOf6(q % 64) * 0x1000 == q * 0x1000
  {
  }

  /** `load_immediate32` leaves the constant in rd and touches nothing else. */
  lemma Load32Correct(rd: Reg, imm: int, compressed: bool, x: Regs)
    requires IsInt32(imm) && !IsSimm(imm) && IsRegs(x) && (compressed && rd == 2 ==> !UsesCLui32(imm))
    ensures AllEncodable(Load32(rd, imm, compressed)) && Run(Load32(rd, imm, compressed), x) == x[rd := imm]
  {
    var q := Rounded(imm) / 0x1000;
    RoundedParts(imm);
    if imm > S32_MAX {
      UpperThenXori(Lui(rd, 0x8_0000), rd, -0x8_0000, imm, x);
    } else if compressed && -0x2_0000 <= imm <= 0x1_ffff {
      if imm > 0x1_f7ff {
        UpperThenXori(CLui(rd, 0x20), rd, -32, imm, x);
      } else {
        CLuiField(q);
        UpperThenLow(CLui(rd, q % 64), rd, imm, compressed, x);
      }
    } else {
      LuiField(q);
      UpperThenLow(Lui(rd, F20(Rounded(imm))), rd, imm, compressed, x);
    }
  }

  // Stripping trailing zeros

  datatype Stripped = Stripped(high: int, shift: nat)

  /** The loop that strips whole zero bytes. */
  function StripBytes(high: int, shift: nat): Stripped
    requires high != 0
    decreases Magnitude(high)
  {
    if high % 0x100 == 0 then StripBytes(high / 0x100, shift + 8) else Stripped(high, shift)
  }

  /** One of the three tests that follow the loop. */
  function StripBits(s: Stripped, bits: nat): Stripped {
    if s.high % Pow2(bits) == 0 then Stripped(s.high / Pow2(bits), s.shift + bits) else s
  }

  function Strip(imm: int): Stripped
    requires imm != 0
  {
    StripBits(StripBits(StripBits(StripBytes(imm, 0), 4), 2), 1)
  }

  lemma {:induction false} StripBytesKeeps(high: int, shift: nat)
    requires high != 0
    ensures var s := StripBytes(high, shift);
            s.shift >= shift && s.high != 0 && s.high % 0x100 != 0 && Shifted(s.high, s.shift - shift) == high
    decreases Magnitude(high)
  {
    if high % 0x100 == 0 {
      StripBytesKeeps(high / 0x100, shift + 8);
      var s := StripBytes(high / 0x100, shift + 8);
      ShiftedSum(s.high, s.shift - shift - 8, 8);
      ShiftEight(high / 0x100);
    }
  }

  lemma ShiftEight(x: int)
    ensures Shifted(x, 8) == x * 0x100
  {
    Pow2Values();
    ShiftedIs(x, 8);
  }

  lemma StripBitsKeeps(s: Stripped, bits: nat, imm: int)
    requires bits in {1, 2, 4} && s.high != 0 && s.high % (Pow2(bits) * Pow2(bits)) != 0
             && Shifted(s.high, s.shift) == imm
    ensures var t := StripBits(s, bits);
            t.shift >= s.shift && t.high != 0 && t.high % Pow2(bits) != 0 && Shifted(t.high, t.shift) == imm
  {
    var p := Pow2(bits);
    assert Pow2(1) == 2 && Pow2(2) == 4 && Pow2(4) == 16;
    if s.high % p == 0 {
      var t := StripBits(s, bits);
      assert s.high == t.high * p;
      ShiftedIs(t.high, bits);
      ShiftedSum(t.high, bits, s.shift);
      if t.high % p == 0 {
        SquareDivides(s.high, p);
      }
    }
  }

  lemma SquareDivides(x: int, p: nat)
    requires p in {2, 4, 16} && x % p == 0 && x / p % p == 0
    ensures x % (p * p) == 0
  {
    DivisionIs(x, p * p, x / p / p, 0);
  }

  lemma {:induction false} ShiftedGrows(x: int, k: nat)
    requires x != 0
    ensures Shifted(x, k) >= Pow2(k) || Shifted(x, k) <= -(Pow2(k) as int)
  {
    if k > 0 {
      ShiftedGrows(x, k - 1);
    }
  }

  /** Stripping removes every trailing zero bit and records how many there were. */
  lemma StripKeeps(imm: int)
    requires imm != 0 && IsS64(imm)
    ensures var s := Strip(imm); s.high % 2 == 1 && s.shift < 64 && Shifted(s.high, s.shift) == imm
  {
    hide StripBits, StripBytes;
    var s1 := StripBytes(imm, 0);
    StripBytesKeeps(imm, 0);
    var s2, s3 := StripBits(s1, 4), StripBits(StripBits(s1, 4), 2);
    assert Pow2(1) == 2 && Pow2(2) == 4 && Pow2(4) == 16;
    StripBitsKeeps(s1, 4, imm);
    StripBitsKeeps(s2, 2, imm);
    StripBitsKeeps(s3, 1, imm);
    var s := Strip(imm);
    ShiftedGrows(s.high, s.shift);
    if s.shift >= 64 {
      PowGrows(64, s.shift);
      Pow2Values();
    }
  }

  // The full constant loader

  function ShiftLeft(rd: Reg, k: nat, compressed: bool): Instr {
    if compressed then CSlli(rd, k) else Slli(rd, rd, k)
  }

  function Small(rd: Reg, imm: int, compressed: bool): Instr {
    if compressed && -0x20 <= imm <= 0x1f then CLi(rd, F6(imm)) else Addi(rd, 0, F12(imm))
  }

  /** Constants of at most 44 bits: the upper part, shifted by 12, with the low bits xor-ed in. */
  function Load44(rd: Reg, imm: int, compressed: bool): seq<Instr> {
    var high := if Bit11(imm) then -(imm / 0x1000) - 1 else imm / 0x1000;
    Load32(rd, high, compressed) + [ShiftLeft(rd, 12, compressed), Xori(rd, rd, F12(imm))]
  }

  /** The upper half of a full constant goes to `tmp`; the shift that completes it comes last. */
  datatype HighPart = HighPart(lui: Instr, add: seq<Instr>, shift: nat)

  function LoadHigh(tmp: Reg, high: int, compressed: bool): HighPart {
    if -0x8_0000 <= high <= 0x7_ffff then HighPart(Lui(tmp, high % 0x10_0000), [], 20)
    else HighPart(Lui(tmp, F20(Rounded(high))), AddLow(tmp, F12(Rounded(high)), compressed), 32)
  }

  /** The lower half, a signed 32-bit number, goes to `rd` in one or two steps. */
  datatype LowPart = LowPart(first: Instr, second: seq<Instr>)

  function LoadLow(rd: Reg, low: int, compressed: bool): LowPart {
    if IsSimm(low) then LowPart(Small(rd, low, compressed), [])
    else if low > S32_MAX then LowPart(Lui(rd, 0x8_0000), [Xori(rd, rd, F12(low))])
    else LowPart(Upper(rd, Rounded(low), compressed), AddLow(rd, F12(Rounded(low)), compressed))
  }

  function Load64(rd: Reg, imm: int, tmp: Reg, compressed: bool): seq<Instr> {
    var low := ToS32(imm);
    var high := if low < 0 then -(imm / TWO_32) - 1 else imm / TWO_32;
    var h, l := LoadHigh(tmp, high, compressed), LoadLow(rd, low, compressed);
    [h.lui, l.first] + h.add + l.second + [ShiftLeft(tmp, h.shift, compressed), XorReg(rd, rd, tmp)]
  }

  /** `load_immediate`. */
  function Load(rd: Reg, imm: int, tmp: Reg, compressed: bool): seq<Instr>
    decreases if IsInt32(imm) then 0 else 1
  {
    if compressed && -0x20 <= imm <= 0x1f then [CLi(rd, F6(imm))]
    else if IsSimm(imm) then [Addi(rd, 0, F12(imm))]
    else if IsInt32(imm) then Load32(rd, imm, compressed)
    else
      var s := Strip(imm);
      if IsInt32(s.high) then Load(rd, s.high, tmp, compressed) + [ShiftLeft(rd, s.shift, compressed)]
      else if -0x800_0000_0000 <= imm <= 0x7ff_ffff_ffff then Load44(rd, imm, compressed)
      else Load64(rd, imm, tmp, compressed)
  }

  lemma SmallCorrect(rd: Reg, imm: int, compressed: bool, x: Regs)
    requires IsSimm(imm) && IsRegs(x)
    ensures Encodable(Small(rd, imm, compressed)) && Value(Small(rd, imm, compressed), x) == imm
  {
  }

  /** A shift at the end of the sequence. */
  lemma ThenShift(code: seq<Instr>, rd: Reg, v: int, k: nat, compressed: bool, x: Regs)
    requires AllEncodable(code) && IsRegs(x) && IsS64(v) && Run(code, x) == x[rd := v] && 0 < k < 64
             && IsS64(Shifted(v, k))
    ensures AllEncodable(code + [ShiftLeft(rd, k, compressed)])
    ensures Run(code + [ShiftLeft(rd, k, compressed)], x) == x[rd := Shifted(v, k)]
  {
    var i := ShiftLeft(rd, k, compressed);
    Run1(i, x[rd := v]);
    RunAppend(code, [i], x);
    assert x[rd := v][rd := Shifted(v, k)] == x[rd := Shifted(v, k)];
  }

  /** A register holding a multiple of 4096, and the XORI that completes it. */
  lemma XoriCompletes(rd: Reg, high: int, imm: int, x: Regs)
    requires IsRegs(x) && x[rd] == high * 0x1000 && IsS64(imm)
    requires high == if Bit11(imm) then -(imm / 0x1000) - 1 else imm / 0x1000
    ensures Encodable(Xori(rd, rd, F12(imm))) && Run([Xori(rd, rd, F12(imm))], x) == x[rd := imm]
  {
    var l := F12(imm);
    RoundedParts(imm);
    assert XorInt(high * 0x1000, SignOf12(l)) == imm by {
      hide Run, Value;
      TwelveBits();
      XorSplit(high, 12, SignOf12(l));
      ShiftTwelve(high);
      ShiftTwelve(-high - 1);
    }
    Run1(Xori(rd, rd, l), x);
  }

  /** 44-bit constants. */
  lemma Load44Correct(rd: Reg, imm: int, compressed: bool, x: Regs)
    requires IsRegs(x) && !IsInt32(imm) && -0x800_0000_0000 <= imm <= 0x7ff_ffff_ffff
    ensures AllEncodable(Load44(rd, imm, compressed)) && Run(Load44(rd, imm, compressed), x) == x[rd := imm]
  {
    hide Run, Load32, Encodable;
    var high := if Bit11(imm) then -(imm / 0x1000) - 1 else imm / 0x1000;
    Load32Correct(rd, high, compressed, x);
    var code := Load32(rd, high, compressed);
    ShiftTwelve(high);
    ThenShift(code, rd, high, 12, compressed, x);
    var x' := x[rd := high * 0x1000];
    var xori := Xori(rd, rd, F12(imm));
    XoriCompletes(rd, high, imm, x');
    RunAppend(code + [ShiftLeft(rd, 12, compressed)], [xori], x);
    assert code + [ShiftLeft(rd, 12, compressed)] + [xori] == Load44(rd, imm, compressed);
    assert x'[rd := imm] == x[rd := imm];
  }

  lemma ShiftTwelve(h: int)
    ensures Shifted(h, 12) == h * 0x1000
  {
    TwelveBits();
    ShiftedIs(h, 12);
  }

  /** On the 44-bit path the source asserts a nonzero low part: otherwise stripping would have
      shortened the constant to 32 bits. */
  lemma LowPartNonzero(imm: int)
    requires -0x800_0000_0000 <= imm <= 0x7ff_ffff_ffff && !IsInt32(imm) && !IsInt32(Strip(imm).high)
    ensures F12(imm) != 0
  {
    var s := Strip(imm);
    StripKeeps(imm);
    if imm % 0x1000 == 0 {
      TrailingZeros(s.high, s.shift, imm);
      ShiftedSum(s.high, s.shift - 12, 12);
      ShiftTwelve(Shifted(s.high, s.shift - 12));
      ShiftedSmaller(s.high, s.shift - 12);
    }
  }

  lemma ShiftedSmaller(x: int, k: nat)
    ensures Shifted(x, k) >= 0 ==> 0 <= x <= Shifted(x, k)
    ensures Shifted(x, k) < 0 ==> Shifted(x, k) <= x < 0
  {
  }

  /** An odd number shifted by fewer than twelve places is not a multiple of 4096. */
  lemma TrailingZeros(x: int, k: nat, v: int)
    requires x % 2 == 1 && v == Shifted(x, k) && v % 0x1000 == 0
    ensures k >= 12
  {
    if k < 12 {
      OddShift(x, k, 12);
      TwelveBits();
    }
  }

  lemma {:induction false} OddShift(x: int, k: nat, n: nat)
    requires x % 2 == 1 && k < n
    ensures Shifted(x, k) % Pow2(n) != 0
  {
    if k == 0 {
      OddRemainder(x, Pow2(n - 1));
    } else {
      OddShift(x, k - 1, n - 1);
      var v, p := Shifted(x, k - 1), Pow2(n - 1);
      DivisionIs(2 * v, 2 * p, v / p, 2 * (v % p)) by {
        assert v == p * (v / p) + v % p;
        assert 2 * p * (v / p) == 2 * (p * (v / p));
      }
    }
  }

  lemma OddRemainder(x: int, p: nat)
    requires x % 2 == 1 && p >= 1
    ensures x % (2 * p) == 2 * (x / 2 % p) + 1
  {
    var h := x / 2;
    assert h == p * (h / p) + h % p;
    assert 2 * p * (h / p) == 2 * (p * (h / p));
    DivisionIs(x, 2 * p, h / p, 2 * (h % p) + 1);
  }

  // Full 64-bit constants

  /** What the first instruction for the upper half leaves in `tmp`. */
  function HighBase(high: int): int {
    if -0x8_0000 <= high <= 0x7_ffff then high * 0x1000 else ToS32(F20(Rounded(high)) * 0x1000)
  }

  /** `tmp` before its final shift. */
  function HighValue(high: int): int {
    if -0x8_0000 <= high <= 0x7_ffff then high * 0x1000 else HighBase(high) + SignOf12(F12(high))
  }

  lemma HighFirst(tmp: Reg, high: int, compressed: bool, x: Regs)
    requires IsRegs(x)
    ensures var i := LoadHigh(tmp, high, compressed).lui;
            Encodable(i) && i.rd == tmp && Value(i, x) == HighBase(high)
  {
    if -0x8_0000 <= high <= 0x7_ffff {
      LuiField(high);
    }
  }

  lemma HighSecond(tmp: Reg, high: int, compressed: bool, x: Regs)
    requires IsRegs(x) && x[tmp] == HighBase(high)
    ensures var code := LoadHigh(tmp, high, compressed).add;
            AllEncodable(code) && Run(code, x) == x[tmp := HighValue(high)]
  {
    if -0x8_0000 <= high <= 0x7_ffff {
      assert x[tmp := x[tmp]] == x;
    } else {
      RoundedParts(high);
      AddLowAdds(tmp, F12(Rounded(high)), compressed, x);
    }
  }

  /** The shift drops whatever the 32-bit LUI got wrong in the upper half. */
  lemma HighShifted(tmp: Reg, high: int, compressed: bool)
    requires -0x8000_0000 <= high <= INT32_MAX
    ensures var k := LoadHigh(tmp, high, compressed).shift;
            0 < k < 64 && ToS64(Shifted(HighValue(high), k)) == high * TWO_32
  {
    hide Shifted, ToS64, HighBase, Rounded;
    if -0x8_0000 <= high <= 0x7_ffff {
      ShiftShort(high);
    } else {
      var t := HighIsCongruent(high);
      ShiftLong(HighValue(high), high, t);
    }
  }

  lemma ShiftShort(high: int)
    requires -0x8_0000 <= high <= 0x7_ffff
    ensures ToS64(Shifted(high * 0x1000, 20)) == high * TWO_32
  {
    hide Shifted, Pow2;
    ShiftedIs(high * 0x1000, 20);
    Pow2Values();
    Pow2Sum(16, 4);
  }

  lemma ShiftLong(v: int, high: int, t: int)
    requires -0x8000_0000 <= high <= INT32_MAX && v == high + t * TWO_32
    ensures ToS64(Shifted(v, 32)) == high * TWO_32
  {
    hide Shifted, Pow2;
    Pow2Values();
    ShiftedIs(v, 32);
    DivisionIs(v * TWO_32 + TWO_63, TWO_64, t, high * TWO_32 + TWO_63);
  }

  lemma HighIsCongruent(high: int) returns (t: int)
    requires !(-0x8_0000 <= high <= 0x7_ffff)
    ensures HighValue(high) == high + t * TWO_32
  {
    RoundedParts(high);
    var q := Rounded(high) / 0x1000;
    t := (q % 0x10_0000 * 0x1000 + 0x8000_0000) / TWO_32;
    t := -t - q / 0x10_0000;
  }

  predicate LowUsesCLui(low: int) {
    !IsSimm(low) && low <= S32_MAX && -0x2_0000 <= Rounded(low) <= 0x1_ffff
  }

  lemma LowFirst(rd: Reg, low: int, compressed: bool, x: Regs)
    requires IsRegs(x) && -0x8000_0000 <= low <= INT32_MAX && (compressed && rd == 2 ==> !LowUsesCLui(low))
    ensures var i := LoadLow(rd, low, compressed).first;
            Encodable(i) && i.rd == rd && Value(i, x) == LowBase(low)
  {
    if IsSimm(low) {
      SmallCorrect(rd, low, compressed, x);
    } else if low <= S32_MAX {
      var q := Rounded(low) / 0x1000;
      RoundedParts(low);
      LuiField(q);
      if -0x2_0000 <= Rounded(low) <= 0x1_ffff {
        CLuiField(q);
      }
    }
  }

  function LowBase(low: int): int {
    if IsSimm(low) then low else if low > S32_MAX then -0x8000_0000 else Rounded(low) / 0x1000 * 0x1000
  }

  lemma LowSecond(rd: Reg, low: int, compressed: bool, x: Regs)
    requires IsRegs(x) && -0x8000_0000 <= low <= INT32_MAX && x[rd] == LowBase(low)
    ensures var code := LoadLow(rd, low, compressed).second;
            AllEncodable(code) && Run(code, x) == x[rd := low]
  {
    if IsSimm(low) {
      assert x[rd := low] == x;
    } else if low > S32_MAX {
      LuiXori(-0x8_0000, low);
      Run1(Xori(rd, rd, F12(low)), x);
    } else {
      RoundedParts(low);
      AddLowAdds(rd, F12(Rounded(low)), compressed, x);
    }
  }

  /** XOR glues the halves together. */
  lemma Glue(imm: int)
    requires IsS64(imm)
    ensures var low := ToS32(imm);
            var high := if low < 0 then -(imm / TWO_32) - 1 else imm / TWO_32;
            -0x8000_0000 <= high <= INT32_MAX && XorInt(high * TWO_32, low) == imm
  {
    hide XorInt, ToS32;
    var low := ToS32(imm);
    var high := if low < 0 then -(imm / TWO_32) - 1 else imm / TWO_32;
    SplitHalves(imm);
    XorHalves(high, low);
  }

  lemma SplitHalves(imm: int)
    ensures imm == imm / TWO_32 * TWO_32 + imm % TWO_32
    ensures ToS32(imm) == if imm % TWO_32 < 0x8000_0000 then imm % TWO_32 else imm % TWO_32 - TWO_32
  {
    var q, r := imm / TWO_32, imm % TWO_32;
    if r < 0x8000_0000 {
      DivisionIs(imm + 0x8000_0000, TWO_32, q, r + 0x8000_0000);
    } else {
      DivisionIs(imm + 0x8000_0000, TWO_32, q + 1, r - 0x8000_0000);
    }
  }

  lemma XorHalves(high: int, low: int)
    requires -TWO_32 <= low < TWO_32
    ensures XorInt(high * TWO_32, low) == if low >= 0 then high * TWO_32 + low else (-high - 1) * TWO_32 + low + TWO_32
  {
    hide XorInt, Shifted, Pow2;
    Pow2Values();
    XorSplit(high, 32, low);
    ShiftedIs(high, 32);
    ShiftedIs(-high - 1, 32);
  }

  /** Two interleaved computations, one in `tmp` and one in `rd`. */
  lemma Interleaved(rd: Reg, tmp: Reg, high: int, low: int, compressed: bool, x: Regs)
    requires IsRegs(x) && rd != tmp && -0x8000_0000 <= low <= INT32_MAX && (compressed && rd == 2 ==> !LowUsesCLui(low))
    ensures var h, l := LoadHigh(tmp, high, compressed), LoadLow(rd, low, compressed);
            var code := [h.lui, l.first] + h.add + l.second;
            AllEncodable(code) && IsS64(HighValue(high)) && Run(code, x) == x[tmp := HighValue(high)][rd := low]
  {
    hide Run, LoadHigh, LoadLow, Encodable, Value, HighValue, HighBase, LowBase, ToS32, ToS64;
    var h, l := LoadHigh(tmp, high, compressed), LoadLow(rd, low, compressed);
    HighFirst(tmp, high, compressed, x);
    Run1(h.lui, x);
    BasesFit(high, low);
    var x1 := x[tmp := HighBase(high)];
    LowFirst(rd, low, compressed, x1);
    Run1(l.first, x1);
    var x2 := x1[rd := LowBase(low)];
    RunAppend([h.lui], [l.first], x);
    assert [h.lui] + [l.first] == [h.lui, l.first];
    HighSecond(tmp, high, compressed, x2);
    RunAppend([h.lui, l.first], h.add, x);
    var x3 := x2[tmp := HighValue(high)];
    LowSecond(rd, low, compressed, x3);
    RunAppend([h.lui, l.first] + h.add, l.second, x);
    assert x3[rd := low] == x[tmp := HighValue(high)][rd := low];
  }

  lemma BasesFit(high: int, low: int)
    requires -0x8000_0000 <= low <= INT32_MAX
    ensures ToS64(HighBase(high)) == HighBase(high) && IsS64(HighBase(high)) && IsS64(HighValue(high))
    ensures ToS64(LowBase(low)) == LowBase(low) && IsS64(LowBase(low))
  {
  }

  /** Full constants: `tmp` is clobbered, everything else is left alone. */
  lemma Load64Correct(rd: Reg, imm: int, tmp: Reg, compressed: bool, x: Regs)
    requires IsRegs(x) && IsS64(imm) && rd != tmp && (compressed && rd == 2 ==> !LowUsesCLui(ToS32(imm)))
    ensures AllEncodable(Load64(rd, imm, tmp, compressed))
    ensures Run(Load64(rd, imm, tmp, compressed), x)
            == x[tmp := Run(Load64(rd, imm, tmp, compressed), x)[tmp]][rd := imm]
  {
    hide Run, LoadHigh, LoadLow, HighValue, HighBase, LowBase, ToS32, ToS64, XorInt, Shifted;
    var low := ToS32(imm);
    var high := if low < 0 then -(imm / TWO_32) - 1 else imm / TWO_32;
    var h, l := LoadHigh(tmp, high, compressed), LoadLow(rd, low, compressed);
    var code := [h.lui, l.first] + h.add + l.second;
    Interleaved(rd, tmp, high, low, compressed, x);
    var x1 := x[tmp := HighValue(high)][rd := low];
    Glue(imm);
    HighShifted(tmp, high, compressed);
    var shift, xor := ShiftLeft(tmp, h.shift, compressed), XorReg(rd, rd, tmp);
    ShiftAndXor(rd, tmp, h.shift, compressed, x1, high * TWO_32, low, imm);
    RunAppend(code, [shift, xor], x);
    assert code + [shift, xor] == Load64(rd, imm, tmp, compressed);
    assert x1[tmp := high * TWO_32][rd := imm] == x[tmp := high * TWO_32][rd := imm];
  }

  lemma ShiftAndXor(rd: Reg, tmp: Reg, k: nat, compressed: bool, x: Regs, shifted: int, low: int, imm: int)
    requires IsRegs(x) && rd != tmp && 0 < k < 64 && ToS64(Shifted(x[tmp], k)) == shifted && x[rd] == low
    requires IsS64(imm) && XorInt(shifted, low) == imm
    ensures var code := [ShiftLeft(tmp, k, compressed), XorReg(rd, rd, tmp)];
            AllEncodable(code) && Run(code, x) == x[tmp := shifted][rd := imm]
  {
    hide Shifted;
    var shift, xor := ShiftLeft(tmp, k, compressed), XorReg(rd, rd, tmp);
    Run1(shift, x);
    var x1 := x[tmp := shifted];
    XorSymmetric(low, shifted);
    Run1(xor, x1);
    RunAppend([shift], [xor], x);
    assert [shift] + [xor] == [shift, xor];
  }

  lemma {:induction false} XorSymmetric(a: int, b: int)
    ensures XorInt(a, b) == XorInt(b, a)
    decreases Magnitude(a) + Magnitude(b)
  {
    if Magnitude(a) + Magnitude(b) > 0 {
      XorSymmetric(a / 2, b / 2);
    }
  }

  /** The same for the whole of `load_immediate`. */
  predicate UsesCLui(imm: int) {
    if IsInt32(imm) then UsesCLui32(imm)
    else if IsInt32(Strip(imm).high) then UsesCLui32(Strip(imm).high)
    else NeedsTemp(imm) && LowUsesCLui(ToS32(imm))
  }

  /** With compressed instructions, constants that use C.LUI cannot go to the stack pointer. */
  predicate Loadable(rd: Reg, imm: int, compressed: bool) { compressed && rd == 2 ==> !UsesCLui(imm) }

  /** That is exactly what the emitted code needs to be encodable. */
  lemma LoadEncodable(rd: Reg, imm: int, tmp: Reg, compressed: bool)
    requires IsS64(imm) && rd != tmp
    ensures AllEncodable(Load(rd, imm, tmp, compressed)) <==> Loadable(rd, imm, compressed)
  {
    hide Strip, ToS32, Encodable, Run, Value;
    if Loadable(rd, imm, compressed) {
      LoadCorrect(rd, imm, tmp, compressed, seq(32, _ => 0));
    } else if NeedsTemp(imm) {
      var code := Load(rd, imm, tmp, compressed);
      assert Load64(rd, imm, tmp, compressed)[1] == LoadLow(rd, ToS32(imm), compressed).first;
      SpIsNotLui(code[1]);
    } else {
      SpIsNotLui(Load(rd, imm, tmp, compressed)[0]);
    }
  }

  lemma SpIsNotLui(i: Instr)
    ensures i.CLui? && i.rd == 2 ==> !Encodable(i)
  {
  }

  /** `load_immediate` leaves the constant in rd, whatever it is; apart from rd it changes `tmp` at
      most, and `tmp` only for constants outside the two shifted forms. */
  lemma LoadCorrect(rd: Reg, imm: int, tmp: Reg, compressed: bool, x: Regs)
    requires IsRegs(x) && IsS64(imm) && rd != tmp && Loadable(rd, imm, compressed)
    ensures AllEncodable(Load(rd, imm, tmp, compressed))
    ensures Run(Load(rd, imm, tmp, compressed), x)[rd] == imm
    ensures forall i :: 0 <= i < 32 && i != rd && i != tmp ==> Run(Load(rd, imm, tmp, compressed), x)[i] == x[i]
    ensures !NeedsTemp(imm) ==> Run(Load(rd, imm, tmp, compressed), x) == x[rd := imm]
  {
    hide Run, Load32, Load44, Load64, Strip, Encodable, Value;
    if IsInt32(imm) {
      Load32OrLess(rd, imm, tmp, compressed, x);
    } else if !IsInt32(Strip(imm).high) {
      if -0x800_0000_0000 <= imm <= 0x7ff_ffff_ffff {
        Load44Correct(rd, imm, compressed, x);
      } else {
        Load64Correct(rd, imm, tmp, compressed, x);
      }
    } else {
      LoadShifted(rd, imm, tmp, compressed, x);
    }
  }

  predicate NeedsTemp(imm: int) {
    !IsInt32(imm) && !IsInt32(Strip(imm).high) && !(-0x800_0000_0000 <= imm <= 0x7ff_ffff_ffff)
  }

  lemma Load32OrLess(rd: Reg, imm: int, tmp: Reg, compressed: bool, x: Regs)
    requires IsRegs(x) && IsInt32(imm) && (compressed && rd == 2 ==> !UsesCLui32(imm))
    ensures AllEncodable(Load(rd, imm, tmp, compressed)) && Run(Load(rd, imm, tmp, compressed), x) == x[rd := imm]
  {
    hide Run, Load32, Encodable, Value;
    if IsSimm(imm) {
      SmallCorrect(rd, imm, compressed, x);
      Run1(Small(rd, imm, compressed), x);
      assert Load(rd, imm, tmp, compressed) == [Small(rd, imm, compressed)];
    } else {
      Load32Correct(rd, imm, compressed, x);
    }
  }

  lemma LoadShifted(rd: Reg, imm: int, tmp: Reg, compressed: bool, x: Regs)
    requires IsRegs(x) && IsS64(imm) && !IsInt32(imm) && IsInt32(Strip(imm).high)
    requires compressed && rd == 2 ==> !UsesCLui32(Strip(imm).high)
    ensures AllEncodable(Load(rd, imm, tmp, compressed)) && Run(Load(rd, imm, tmp, compressed), x) == x[rd := imm]
  {
    hide Run, Load32, Strip, Encodable, Value;
    var s := Strip(imm);
    StripKeeps(imm);
    Load32OrLess(rd, s.high, tmp, compressed, x);
    ThenShift(Load(rd, s.high, tmp, compressed), rd, s.high, s.shift, compressed, x);
  }

  // The emitter itself

  class Compiler {
    var code: seq<Instr>
    const compressed: bool

    constructor (compressed: bool)
      ensures code == [] && this.compressed == compressed
    {
      code := [];
      this.compressed := compressed;
    }

    method PushInst(i: Instr)
      modifies this
      ensures code == old(code) + [i]
    {
      code := code + [i];
    }

    method LoadImmediate32(rd: Reg, imm: int)
      requires IsInt32(imm) && !IsSimm(imm)
      modifies this
      ensures code == old(code) + Load32(rd, imm, compressed)
    {
      var v := imm;
      if v > S32_MAX {
        PushInst(Lui(rd, 0x8_0000));
        PushInst(Xori(rd, rd, F12(v)));
        return;
      }
      if compressed && -0x2_0000 <= v <= 0x1_ffff {
        if v > 0x1_f7ff {
          PushInst(CLui(rd, 0x20));
          PushInst(Xori(rd, rd, F12(v)));
          return;
        }
        if Bit11(v) {
          v := v + 0x1000;
        }
        PushInst(CLui(rd, v / 0x1000 % 64));
      } else {
        if Bit11(v) {
          v := v + 0x1000;
        }
        PushInst(Lui(rd, F20(v)));
      }
      PushLow(rd, F12(v));
    }

    /** The ADDI that ends both loaders. */
    method PushLow(rd: Reg, low: nat)
      modifies this
      ensures code == old(code) + AddLow(rd, low, compressed)
    {
      if low == 0 {
        return;
      }
      if compressed && IsShort(low) {
        PushInst(CAddi(rd, F6(low)));
      } else {
        PushInst(Addi(rd, rd, low));
      }
    }

    method PushShift(rd: Reg, k: nat)
      modifies this
      ensures code == old(code) + [ShiftLeft(rd, k, compressed)]
    {
      if compressed {
        PushInst(CSlli(rd, k));
      } else {
        PushInst(Slli(rd, rd, k));
      }
    }

    /** The byte-stripping loop and the three tests after it. */
    method StripZeros(imm: int) returns (high: int, shift: nat)
      requires imm != 0
      ensures Stripped(high, shift) == Strip(imm)
    {
      high, shift := imm, 0;
      while high % 0x100 == 0
        invariant high != 0 && StripBytes(high, shift) == StripBytes(imm, 0)
        decreases Magnitude(high)
      {
        high, shift := high / 0x100, shift + 8;
      }
      assert Pow2(1) == 2 && Pow2(2) == 4 && Pow2(4) == 16;
      if high % 0x10 == 0 {
        high, shift := high / 0x10, shift + 4;
      }
      if high % 4 == 0 {
        high, shift := high / 4, shift + 2;
      }
      if high % 2 == 0 {
        high, shift := high / 2, shift + 1;
      }
    }

    /** The code that `load_immediate` appends; the lemmas above say that it computes `imm`. */
    method LoadImmediate(rd: Reg, imm: int, tmp: Reg)
      requires IsS64(imm)
      modifies this
      ensures code == old(code) + Load(rd, imm, tmp, compressed)
      decreases if IsInt32(imm) then 0 else 1
    {
      hide Strip, Load32, Load44, Load64;
      if compressed && -0x20 <= imm <= 0x1f {
        PushInst(CLi(rd, F6(imm)));
        return;
      }
      if IsSimm(imm) {
        PushInst(Addi(rd, 0, F12(imm)));
        return;
      }
      if IsInt32(imm) {
        LoadImmediate32(rd, imm);
        return;
      }
      var high, shift := StripZeros(imm);
      if IsInt32(high) {
        LoadImmediate(rd, high, tmp);
        PushShift(rd, shift);
        return;
      }
      if -0x800_0000_0000 <= imm <= 0x7ff_ffff_ffff {
        LoadImmediate44(rd, imm);
        return;
      }
      LoadImmediate64(rd, imm, tmp);
    }

    method LoadImmediate44(rd: Reg, imm: int)
      requires !IsInt32(imm) && -0x800_0000_0000 <= imm <= 0x7ff_ffff_ffff
      modifies this
      ensures code == old(code) + Load44(rd, imm, compressed)
    {
      hide Load32;
      var high := imm / 0x1000;
      if Bit11(imm) {
        high := -high - 1;
      }
      LoadImmediate32(rd, high);
      PushShift(rd, 12);
      PushInst(Xori(rd, rd, F12(imm)));
    }

    /** `high` and `low` are reused as flags for the later steps, as in the source: 0x1000 in `high`
        selects the short shift, 0x1000 in `low` selects XORI. */
    method LoadImmediate64(rd: Reg, imm: int, tmp: Reg)
      requires IsS64(imm)
      modifies this
      ensures code == old(code) + Load64(rd, imm, tmp, compressed)
    {
      hide LoadHigh, LoadLow, AddLow, ToS32, ShiftLeft, F12, Rounded;
      var high, low := imm / TWO_32, ToS32(imm);
      if low < 0 {
        high := -high - 1;
      }
      ghost var h, l := LoadHigh(tmp, high, compressed), LoadLow(rd, low, compressed);
      high := PushHigh(tmp, high);
      low := PushLowFirst(rd, low);
      PushSeconds(rd, tmp, high, low);
      assert code == old(code) + ([h.lui, l.first] + h.add + l.second
             + [ShiftLeft(tmp, h.shift, compressed), XorReg(rd, rd, tmp)]);
    }

    /** The second steps of both halves, the shift and the XOR. */
    method PushSeconds(rd: Reg, tmp: Reg, high: nat, low: nat)
      requires high <= 0x1000 && low < 0x2000
      modifies this
      ensures code == old(code)
                        + (if high == 0x1000 then [] else AddLow(tmp, high, compressed))
                        + (if low >= 0x1000 then [Xori(rd, rd, F12(low))] else AddLow(rd, low, compressed))
                        + [ShiftLeft(tmp, if high == 0x1000 then 20 else 32, compressed), XorReg(rd, rd, tmp)]
    {
      hide AddLow;
      NothingToAdd(tmp, compressed);
      NothingToAdd(rd, compressed);
      if high % 0x1000 != 0 {
        PushLow(tmp, high);
      }
      if low / 0x1000 % 2 == 1 {
        PushInst(Xori(rd, rd, F12(low)));
      } else if low != 0 {
        PushLow(rd, low);
      }
      PushShift(tmp, if high / 0x1000 % 2 == 1 then 20 else 32);
      PushInst(XorReg(rd, rd, tmp));
    }

    lemma NothingToAdd(rd: Reg, compressed: bool)
      ensures AddLow(rd, 0, compressed) == []
    {
    }

    method PushHigh(tmp: Reg, high0: int) returns (high: nat)
      modifies this
      ensures var h := LoadHigh(tmp, high0, compressed);
              && code == old(code) + [h.lui]
              && (h.shift == 20 ==> high == 0x1000 && h.add == [])
              && (h.shift != 20 ==> high < 0x1000 && h.shift == 32 && h.add == AddLow(tmp, high, compressed))
    {
      if -0x8_0000 <= high0 <= 0x7_ffff {
        PushInst(Lui(tmp, high0 % 0x10_0000));
        high := 0x1000;
      } else {
        var v := high0;
        if Bit11(v) {
          v := v + 0x1000;
        }
        PushInst(Lui(tmp, F20(v)));
        high := F12(v);
      }
    }

    method PushLowFirst(rd: Reg, low0: int) returns (low: nat)
      modifies this
      ensures var l := LoadLow(rd, low0, compressed);
              && code == old(code) + [l.first]
              && low < 0x2000
              && (low >= 0x1000 ==> l.second == [Xori(rd, rd, F12(low))])
              && (low < 0x1000 ==> l.second == AddLow(rd, low, compressed))
    {
      if IsSimm(low0) {
        PushInst(Small(rd, low0, compressed));
        low := 0;
      } else if low0 > S32_MAX {
        PushInst(Lui(rd, 0x8_0000));
        low := 0x1000 + F12(low0);
      } else {
        var v := low0;
        if Bit11(v) {
          v := v + 0x1000;
        }
        PushInst(Upper(rd, v, compressed));
        low := F12(v);
      }
    }
  }
}
