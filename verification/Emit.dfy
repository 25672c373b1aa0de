/**
 What the block compiler emits for one guest instruction, and the proof that running
 the emitted operations has the effect of one interpreter step.
 */
module Emit {
  import opened Wrappers
  import opened Words
  import opened MulDiv
  import opened Interp
  import opened Ir

  // The compiler's own decoding of immediates and sizes

  function JitImmI(w: InsnWord): Word { Wrap(Signed(S32(w)) / 0x10_0000) }

  function JitImmS(w: InsnWord): Word {
    var imm := w / 0x200_0000 * 32 + w / 0x80 % 32;
    if imm / 0x800 % 2 == 1 then Minus(imm, 0x1000) else imm
  }

  function JitImmU(w: InsnWord): Word { S32(w - w % 0x1000) }

  function JitOffsetJ(w: InsnWord): Word {
    w / 0x8000_0000 % 2 * 0x10_0000 + w / 0x20_0000 % 0x400 * 2 + w / 0x10_0000 % 2 * 0x800
    + w / 0x1000 % 0x100 * 0x1000
  }

  function JitExtend21(off: Word): Word { if off / 0x10_0000 % 2 == 1 then Minus(off, 0x20_0000) else off }

  function JitExtend13(off: Word): Word { if off / 0x1000 % 2 == 1 then Minus(off, 0x2000) else off }

  /** `1 << (funct3 & 3)`, in an `int`. */
  function JitSize(f3: Word): Word {
    SmallPowers(f3 % 4);
    Pow2(f3 % 4)
  }

  lemma SameImmI(w: InsnWord)
    ensures JitImmI(w) == ImmI(w)
  {
    NarrowSignExtend(w, 0x8000_0000);
    NarrowSignExtend(w / 0x10_0000, 0x800);
    if w >= 0x8000_0000 {
      assert Signed(S32(w)) == w - TWO_32;
    } else {
      assert Signed(S32(w)) == w;
    }
  }

  lemma SameImmS(w: InsnWord)
    ensures JitImmS(w) == ImmS(w)
  {
    NarrowSignExtend(w / 0x200_0000 * 32 + w / 0x80 % 32, 0x800);
  }

  lemma SameImmU(w: InsnWord)
    ensures JitImmU(w) == ImmU(w)
  {
  }

  lemma SameOffJ(w: InsnWord)
    ensures JitExtend21(JitOffsetJ(w)) == ImmJ(w)
  {
    NarrowSignExtend(OffsetJ(w), 0x10_0000);
  }

  lemma SameOffB(w: InsnWord)
    ensures JitExtend13(OffsetB(w)) == ImmB(w)
  {
    NarrowSignExtend(OffsetB(w), 0x1000);
  }

  lemma SmallPowers(k: Word)
    requires k < 4
    ensures Pow2(k) == if k == 0 then 1 else if k == 1 then 2 else if k == 2 then 4 else 8
  {
    assert Pow2(0) == 1 && Pow2(1) == 2 && Pow2(2) == 4 && Pow2(3) == 8;
  }

  lemma SameSize(w: InsnWord)
    ensures JitSize(Funct3(w)) == Size(Funct3(w))
  {
    SmallPowers(Funct3(w) % 4);
  }

  lemma SameShiftAmount(w: InsnWord)
    ensures JitImmI(w) % 0x40 == w / 0x10_0000 % 0x40
    ensures JitImmI(w) % 0x20 == w / 0x10_0000 % 0x20
  {
    SameImmI(w);
    NarrowSignExtend(w / 0x10_0000, 0x800);
  }

  // Emission

  /** The operations for one instruction. `exit` is the jump to be set to the epilogue,
      `links` the jumps set to labels inside the operations themselves. */
  datatype Emission = Emission(ops: seq<Op>, supported: bool, ended: bool, exit: Option<nat>, links: map<nat, nat>)

  function Plain(ops: seq<Op>): Emission { Emission(ops, true, false, None, map[]) }

  function Final(ops: seq<Op>, links: map<nat, nat>): Emission { Emission(ops, true, true, None, links) }

  function Memory(ops: seq<Op>, exit: nat): Emission { Emission(ops, true, false, Some(exit), map[]) }

  function Unsupported(ops: seq<Op>): Emission { Emission(ops, false, false, None, map[]) }

  function LoadGuest(dst: Reg, grs: RegIndex): Op {
    Mov(Full, R(dst), if grs == 0 then Imm(0) else GuestX(grs))
  }

  function StoreGuest(grs: RegIndex, src: Reg): seq<Op> {
    if grs == 0 then [] else [Mov(Full, GuestX(grs), R(src))]
  }

  function SetPc(pc: Word): Op { Mov(Full, GuestPc, Imm(pc)) }

  function AluBinary(f3: Word, sub: bool, arith: bool): Binary {
    if f3 == 0 then (if sub then Sub else Add)
    else if f3 == 1 then ShiftL
    else if f3 == 2 || f3 == 3 then Sub
    else if f3 == 4 then Xor
    else if f3 == 5 then (if arith then ShiftA else ShiftR)
    else if f3 == 6 then Or
    else And
  }

  function AluOps(f3: Word, b: Operand, sub: bool, arith: bool): seq<Op> {
    var op := Op2(AluBinary(f3, sub, arith), false, R0, R0, b);
    if f3 == 2 then [op, OpFlags(R0, SigLess)] else if f3 == 3 then [op, OpFlags(R0, Less)] else [op]
  }

  /** The 32-bit operation, or none where the compiler gives up. */
  function Alu32Op(w: InsnWord, b: Operand, shiftB: Operand, sub: bool): Option<Op> {
    var f3 := Funct3(w);
    if f3 == 0 then Some(Op2(if sub then Sub else Add, true, R0, R0, b))
    else if f3 == 1 then Some(Op2(ShiftL, true, R0, R0, shiftB))
    else if f3 == 5 then Some(Op2(if Funct7(w) == 0x20 then ShiftA else ShiftR, true, R0, R0, shiftB))
    else None
  }

  function EmitOp(w: InsnWord): Emission {
    var alt := Funct7(w) == 0x20;
    Plain([LoadGuest(R0, Rs1(w)), LoadGuest(R1, Rs2(w))] + AluOps(Funct3(w), R(R1), alt, alt) + StoreGuest(Rd(w), R0))
  }

  function EmitOpImm(w: InsnWord): Emission {
    var f3, imm := Funct3(w), JitImmI(w);
    var operand := Imm(if f3 == 1 || f3 == 5 then imm % 0x40 else imm);
    Plain([LoadGuest(R0, Rs1(w))] + AluOps(f3, operand, false, w / 0x400_0000 == 0x10) + StoreGuest(Rd(w), R0))
  }

  function Narrow(loads: seq<Op>, op: Option<Op>, w: InsnWord): Emission {
    match op
    case None => Unsupported(loads)
    case Some(o) => Plain(loads + [o, Mov(Signed32, R(R0), R(R0))] + StoreGuest(Rd(w), R0))
  }

  function EmitOp32(w: InsnWord): Emission {
    Narrow([LoadGuest(R0, Rs1(w)), LoadGuest(R1, Rs2(w))], Alu32Op(w, R(R1), R(R1), Funct7(w) == 0x20), w)
  }

  function EmitOpImm32(w: InsnWord): Emission {
    var imm := JitImmI(w);
    Narrow([LoadGuest(R0, Rs1(w))], Alu32Op(w, Imm(imm), Imm(imm % 0x20), false), w)
  }

  function EmitConstant(w: InsnWord, v: Word): Emission {
    Plain([Mov(Full, R(R0), Imm(v))] + StoreGuest(Rd(w), R0))
  }

  function EmitJal(w: InsnWord, pc: Word, next: Word): Emission {
    Final([Mov(Full, R(R0), Imm(next))] + StoreGuest(Rd(w), R0) + [SetPc(Plus(pc, JitExtend21(JitOffsetJ(w))))], map[])
  }

  function EmitJalr(w: InsnWord, next: Word): Emission {
    Final([LoadGuest(R1, Rs1(w)), Op2(Add, false, R1, R1, Imm(JitImmI(w))), Op2(And, false, R1, R1, Imm(TWO_64 - 2))]
          + ([Mov(Full, R(R0), Imm(next))] + StoreGuest(Rd(w), R0)) + [Mov(Full, GuestPc, R(R1))], map[])
  }

  function BranchCond(f3: Word): Option<Cond> {
    if f3 == 0 then Some(Equal) else if f3 == 1 then Some(NotEqual)
    else if f3 == 4 then Some(SigLess) else if f3 == 5 then Some(SigGreaterEqual)
    else if f3 == 6 then Some(Less) else if f3 == 7 then Some(GreaterEqual) else None
  }

  function EmitBranch(w: InsnWord, pc: Word, next: Word, j: nat, l: nat): Emission {
    var loads := [LoadGuest(R0, Rs1(w)), LoadGuest(R1, Rs2(w))];
    match BranchCond(Funct3(w))
    case None => Unsupported(loads)
    case Some(c) =>
      Final(loads + [Cmp(c, R0, R(R1), j), SetPc(next), Jump(j + 1)]
            + [Label(l), SetPc(Plus(pc, JitExtend13(OffsetB(w)))), Label(l + 1)],
            map[j := l, j + 1 := l + 1])
  }

  function Address(rs1: RegIndex, imm: Word): seq<Op> {
    if rs1 == 0 then [Mov(Full, R(R1), Imm(imm))]
    else [Mov(Full, R(R1), GuestX(rs1)), Op2(Add, false, R1, R1, Imm(imm))]
  }

  function LoadWidth(f3: Word): seq<Op> {
    if f3 == 0 then [Mov(Signed8, R(R0), R(R0))]
    else if f3 == 1 then [Mov(Signed16, R(R0), R(R0))]
    else if f3 == 2 then [Mov(Signed32, R(R0), R(R0))]
    else if f3 == 4 then [Mov(Unsigned8, R(R0), R(R0))]
    else if f3 == 5 then [Mov(Unsigned16, R(R0), R(R0))]
    else if f3 == 6 then [Mov(Unsigned32, R(R0), R(R0))]
    else []
  }

  function LoadAccess(w: InsnWord, pc: Word, j: nat): seq<Op> {
    ([SetPc(pc)] + Address(Rs1(w), JitImmI(w)))
    + [Mov(Full, R(R0), CpuPtr), Mov(Full, R(R2), Imm(JitSize(Funct3(w)))), LocalBase(R3)]
    + [CallLoad, Cmp(NotEqual, R0, Imm(0), j), Mov(Full, R(R0), Local)]
  }

  function EmitLoad(w: InsnWord, pc: Word, j: nat): Emission {
    Memory(LoadAccess(w, pc, j) + (LoadWidth(Funct3(w)) + StoreGuest(Rd(w), R0)), j)
  }

  function EmitStore(w: InsnWord, pc: Word, j: nat): Emission {
    Memory(([SetPc(pc)] + Address(Rs1(w), JitImmS(w)))
           + [Mov(Full, R(R0), CpuPtr), Mov(Full, R(R2), Imm(JitSize(Funct3(w)))), LoadGuest(R3, Rs2(w))]
           + [CallStore, Cmp(NotEqual, R0, Imm(0), j)], j)
  }

  function EmitFp(w: InsnWord, pc: Word, j: nat): Emission {
    Memory([SetPc(pc), Mov(Full, R(R0), CpuPtr), Mov(Full, R(R1), Imm(w))]
           + [CallFp, Cmp(NotEqual, R0, Imm(0), j)], j)
  }

  function EmitInsn(w: InsnWord, pc: Word, compressed: bool, j: nat, l: nat): Emission {
    var op, next := Opcode(w), Plus(pc, Length(compressed));
    if op == 0x33 then EmitOp(w)
    else if op == 0x13 then EmitOpImm(w)
    else if op == 0x3b then EmitOp32(w)
    else if op == 0x1b then EmitOpImm32(w)
    else if op == 0x37 then EmitConstant(w, JitImmU(w))
    else if op == 0x17 then EmitConstant(w, Plus(pc, JitImmU(w)))
    else if op == 0x6f then EmitJal(w, pc, next)
    else if op == 0x67 then EmitJalr(w, next)
    else if op == 0x63 then EmitBranch(w, pc, next, j, l)
    else if op == 0x03 then EmitLoad(w, pc, j)
    else if op == 0x23 then EmitStore(w, pc, j)
    else if IsFp(op) then EmitFp(w, pc, j)
    else Unsupported([])
  }

  // The instructions and accesses on which the two executors are meant to agree

  predicate Fits(f3: Word, val: Word) {
    (f3 == 4 ==> val <= 0xff) && (f3 == 5 ==> val <= 0xffff) && (f3 == 6 ==> val <= 0xffff_ffff)
  }

  /** A legal load that faults, or has no destination, or whose value fits its width. */
  predicate LoadInScope<M>(env: Env<M>, g: Guest<M>, w: InsnWord) {
    var a := env.load(g.mem, Plus(g.x[Rs1(w)], ImmI(w)), Size(Funct3(w)));
    Funct3(w) != 7 && (a.exc != 0 || Rd(w) == 0 || Fits(Funct3(w), a.val))
  }

  /** The translated register instruction has the interpreter's result. It ignores the M extension, so
      there the two agree where the product or quotient happens to be the other operation's result. */
  predicate OpAgrees(w: InsnWord, a: Word, b: Word) {
    var v := Op64(w, a, b);
    v.Some? && (Rd(w) == 0 || v.value == Translated64(w, a, b))
  }

  predicate Op32Agrees(w: InsnWord, a: Word, b: Word) {
    var op, v := Alu32Op(w, R(R1), R(R1), Funct7(w) == 0x20), Op32(w, a, b);
    op.Some? ==> v.Value? && (Rd(w) == 0 || v.v == S32(Low32(op.value.bin, a, b)))
  }

  /** The 64-bit result of the operation that is emitted. */
  function Translated64(w: InsnWord, a: Word, b: Word): Word {
    AluResult(Funct3(w), a, b, Funct7(w) == 0x20, Funct7(w) == 0x20)
  }

  /** Legal encodings, and floating-point helpers that leave x0 and the pc alone. */
  predicate Legal<M>(env: Env<M>, g: Guest<M>, w: InsnWord) {
    var op, f3 := Opcode(w), Funct3(w);
    && (op == 0x13 && f3 == 5 ==> w / 0x400_0000 == 0 || w / 0x400_0000 == 0x10)
    && (op == 0x03 ==> f3 != 7)
    && (op == 0x23 ==> f3 < 4)
    && (IsFp(op) ==> env.fp(g, w).g.x[0] == 0 && (env.fp(g, w).FpOk? ==> env.fp(g, w).g.pc == g.pc))
  }

  /** The legal instructions on which the two executors agree. */
  predicate InScope<M>(env: Env<M>, g: Guest<M>, w: InsnWord) {
    && Legal(env, g, w)
    && (Opcode(w) == 0x33 ==> OpAgrees(w, g.x[Rs1(w)], g.x[Rs2(w)]))
    && (Opcode(w) == 0x3b ==> Op32Agrees(w, g.x[Rs1(w)], g.x[Rs2(w)]))
    && (Opcode(w) == 0x03 ==> LoadInScope(env, g, w))
  }

  /** Running `e` from `s` does what the interpreter's attempt `a` does; a jump or
      branch also leaves the interpreter's pc, a memory instruction its own. */
  ghost predicate Simulates<M>(env: Env<M>, link: map<nat, nat>, e: Emission, s: State<M>, a: Attempt<M>) {
    var c := Exec(env, link, e.ops, Running(s));
    if a.Retire? then
      c.Running? && c.s.count == s.count && c.s.g.x == a.g.x && c.s.g.mem == a.g.mem
      && (e.ended ==> c.s.g == a.g) && (e.exit.Some? ==> c.s.g.pc == s.g.pc)
    else
      e.exit.Some? && c == Jumping(e.exit.value, c.s) && c.s.g == a.g && c.s.count == s.count
  }

  lemma {:induction false} ExecParts<M>(env: Env<M>, link: map<nat, nat>, a: seq<Op>, b: seq<Op>, t: seq<Op>,
                                        c: Control<M>)
    ensures Exec(env, link, a + b + t, c) == Exec(env, link, t, Exec(env, link, b, Exec(env, link, a, c)))
  {
    ExecAppend(env, link, a + b, t, c);
    ExecAppend(env, link, a, b, c);
  }

  /** Skipping the store to x0 is what the interpreter's reset of x0 amounts to. */
  lemma StoreGuestIsWrite<M>(env: Env<M>, link: map<nat, nat>, rd: RegIndex, s: State<M>)
    requires s.g.x[0] == 0
    ensures Exec(env, link, StoreGuest(rd, R0), Running(s)) == Running(s.(g := s.g.(x := Write(s.g.x, rd, s.r0))))
  {
    if rd == 0 {
      assert Write(s.g.x, rd, s.r0) == s.g.x;
    } else {
      Exec1(env, link, Mov(Full, GuestX(rd), R(R0)), Running(s));
      assert Write(s.g.x, rd, s.r0) == s.g.x[rd := s.r0];
    }
  }

  /** What one OP or OP-IMM operation computes, given the two choices its encoding makes. */
  function AluResult(f3: Word, a: Word, b: Word, sub: bool, arith: bool): Word {
    if f3 == 2 then Flag(SignedLess(a, b))
    else if f3 == 3 then Flag(a < b)
    else Full64(AluBinary(f3, sub, arith), a, b)
  }

  lemma AluOpsCompute<M>(env: Env<M>, link: map<nat, nat>, f3: Word, b: Operand, sub: bool, arith: bool, s: State<M>)
    ensures var c := Exec(env, link, AluOps(f3, b, sub, arith), Running(s));
            c.Running? && c.s.g == s.g && c.s.count == s.count && c.s.r0 == AluResult(f3, s.r0, Read(s, b), sub, arith)
  {
    var ops := AluOps(f3, b, sub, arith);
    if f3 == 2 || f3 == 3 {
      Exec2(env, link, ops[0], ops[1], Running(s));
    } else {
      Exec1(env, link, ops[0], Running(s));
    }
  }

  /** OP and OP-IMM: both decodings lead to the same value. */
  lemma SameAlu(w: InsnWord, a: Word, b: Word)
    ensures var alt := Funct7(w) == 0x20; AluResult(Funct3(w), a, b, alt, alt) == Alu(w, a, b)
  {
  }

  lemma AluImmOperand(w: InsnWord, a: Word, v: Word)
    requires Funct3(w) == 5 ==> w / 0x400_0000 == 0 || w / 0x400_0000 == 0x10
    requires v == if Funct3(w) == 1 || Funct3(w) == 5 then w / 0x10_0000 % 0x40 else ImmI(w)
    ensures AluResult(Funct3(w), a, v, false, w / 0x400_0000 == 0x10) == AluImm(w, a)
  {
    if Funct3(w) == 1 || Funct3(w) == 5 {
      assert v % 0x40 == v;
      assert Funct7(w) / 2 == w / 0x400_0000;
    }
  }

  lemma SameAluImm(w: InsnWord, a: Word)
    requires Funct3(w) == 5 ==> w / 0x400_0000 == 0 || w / 0x400_0000 == 0x10
    ensures var f3, imm := Funct3(w), JitImmI(w);
            var v := if f3 == 1 || f3 == 5 then imm % 0x40 else imm;
            AluResult(f3, a, v, false, w / 0x400_0000 == 0x10) == AluImm(w, a)
  {
    SameImmI(w);
    SameShiftAmount(w);
    AluImmOperand(w, a, if Funct3(w) == 1 || Funct3(w) == 5 then w / 0x10_0000 % 0x40 else ImmI(w));
  }

  lemma LoadGuestReads<M>(env: Env<M>, link: map<nat, nat>, dst: Reg, grs: RegIndex, s: State<M>)
    requires s.g.x[0] == 0
    ensures Next(env, link, LoadGuest(dst, grs), Running(s)) == Running(Set(s, dst, s.g.x[grs]))
  {
  }

  lemma TwoLoads<M>(env: Env<M>, link: map<nat, nat>, w: InsnWord, s: State<M>)
    requires s.g.x[0] == 0
    ensures Exec(env, link, [LoadGuest(R0, Rs1(w)), LoadGuest(R1, Rs2(w))], Running(s))
         == Running(s.(r0 := s.g.x[Rs1(w)], r1 := s.g.x[Rs2(w)]))
  {
    Exec2(env, link, LoadGuest(R0, Rs1(w)), LoadGuest(R1, Rs2(w)), Running(s));
    LoadGuestReads(env, link, R0, Rs1(w), s);
    LoadGuestReads(env, link, R1, Rs2(w), s.(r0 := s.g.x[Rs1(w)]));
  }

  lemma OneLoad<M>(env: Env<M>, link: map<nat, nat>, w: InsnWord, s: State<M>)
    requires s.g.x[0] == 0
    ensures Exec(env, link, [LoadGuest(R0, Rs1(w))], Running(s)) == Running(s.(r0 := s.g.x[Rs1(w)]))
  {
    Exec1(env, link, LoadGuest(R0, Rs1(w)), Running(s));
    LoadGuestReads(env, link, R0, Rs1(w), s);
  }

  /** The part shared by OP and OP-IMM. */
  lemma AluSimulates<M>(env: Env<M>, link: map<nat, nat>, loads: seq<Op>, w: InsnWord, b: Operand, sub: bool,
                        arith: bool, s: State<M>, s1: State<M>)
    requires s.g.x[0] == 0 && Exec(env, link, loads, Running(s)) == Running(s1) && s1.g == s.g && s1.count == s.count
    ensures var c := Exec(env, link, loads + AluOps(Funct3(w), b, sub, arith) + StoreGuest(Rd(w), R0), Running(s));
            c.Running? && c.s.count == s.count
            && c.s.g == s.g.(x := Write(s.g.x, Rd(w), AluResult(Funct3(w), s1.r0, Read(s1, b), sub, arith)))
  {
    var alu := AluOps(Funct3(w), b, sub, arith);
    ExecParts(env, link, loads, alu, StoreGuest(Rd(w), R0), Running(s));
    AluOpsCompute(env, link, Funct3(w), b, sub, arith, s1);
    StoreGuestIsWrite(env, link, Rd(w), Exec(env, link, alu, Running(s1)).s);
  }

  lemma SameWrite(x: Regs, rd: RegIndex, u: Word, v: Word)
    ensures Write(x, rd, u) == Write(x, rd, v) <==> rd == 0 || u == v
  {
    assert rd != 0 ==> Write(x, rd, u)[rd] == u && Write(x, rd, v)[rd] == v;
  }

  /** OP: the emitted code does the interpreter's step exactly on the operands on which the results agree,
      which is all of them outside the M extension. */
  lemma OpSimulates<M>(env: Env<M>, link: map<nat, nat>, w: InsnWord, s: State<M>, next: Word)
    requires s.g.x[0] == 0 && Opcode(w) == 0x33
    ensures Simulates(env, link, EmitOp(w), s, Execute(env, s.g, w, next))
            <==> OpAgrees(w, s.g.x[Rs1(w)], s.g.x[Rs2(w)])
    ensures Funct7(w) != 1 ==> OpAgrees(w, s.g.x[Rs1(w)], s.g.x[Rs2(w)])
  {
    hide AluResult, MulDiv64;
    var alt, a, b := Funct7(w) == 0x20, s.g.x[Rs1(w)], s.g.x[Rs2(w)];
    TwoLoads(env, link, w, s);
    SameAlu(w, a, b);
    if Op64(w, a, b).Some? {
      SameWrite(s.g.x, Rd(w), Op64(w, a, b).value, Translated64(w, a, b));
    }
    AluSimulates(env, link, [LoadGuest(R0, Rs1(w)), LoadGuest(R1, Rs2(w))], w, R(R1), alt, alt, s,
                 s.(r0 := a, r1 := b));
  }

  lemma OpImmSimulates<M>(env: Env<M>, link: map<nat, nat>, w: InsnWord, s: State<M>, next: Word)
    requires s.g.x[0] == 0 && Opcode(w) == 0x13
    requires Funct3(w) == 5 ==> w / 0x400_0000 == 0 || w / 0x400_0000 == 0x10
    ensures Simulates(env, link, EmitOpImm(w), s, Execute(env, s.g, w, next))
  {
    var f3, imm, a := Funct3(w), JitImmI(w), s.g.x[Rs1(w)];
    var operand := Imm(if f3 == 1 || f3 == 5 then imm % 0x40 else imm);
    OneLoad(env, link, w, s);
    SameAluImm(w, a);
    AluSimulates(env, link, [LoadGuest(R0, Rs1(w))], w, operand, false, w / 0x400_0000 == 0x10, s, s.(r0 := a));
  }

  lemma JunkIsHidden(v: Word, junk: Word)
    ensures S32(WithJunk(v, junk)) == S32(v)
  {
    SignExtensionIgnoresUpperHalf(v, junk);
  }

  /** A 32-bit operation followed by the sign extension hides whatever the upper half held. */
  lemma NarrowComputes<M>(env: Env<M>, link: map<nat, nat>, bin: Binary, b: Operand, s: State<M>)
    ensures var c := Exec(env, link, [Op2(bin, true, R0, R0, b), Mov(Signed32, R(R0), R(R0))], Running(s));
            c.Running? && c.s.g == s.g && c.s.count == s.count && c.s.r0 == S32(Low32(bin, s.r0, Read(s, b)))
  {
    var op := Op2(bin, true, R0, R0, b);
    Exec2(env, link, op, Mov(Signed32, R(R0), R(R0)), Running(s));
    JunkIsHidden(Low32(bin, s.r0, Read(s, b)), env.junk(s.tick));
  }

  lemma SameAlu32(w: InsnWord, a: Word, b: Word)
    requires Alu32Op(w, R(R1), R(R1), Funct7(w) == 0x20).Some?
    ensures Alu32(w, a, b) == Some(S32(Low32(Alu32Op(w, R(R1), R(R1), Funct7(w) == 0x20).value.bin, a, b)))
  {
  }

  lemma AluImm32Operand(w: InsnWord, a: Word, v: Word, op: Op)
    requires op.Op2? && Alu32Op(w, Imm(ImmI(w)), Imm(v), false) == Some(op)
    requires v == w / 0x10_0000 % 0x20
    ensures op.b.Imm? && AluImm32(w, a) == Some(S32(Low32(op.bin, a, op.b.v)))
  {
    assert U32(v) % 0x20 == v;
  }

  lemma SameAluImm32(w: InsnWord, a: Word)
    requires Alu32Op(w, Imm(JitImmI(w)), Imm(JitImmI(w) % 0x20), false).Some?
    ensures var op := Alu32Op(w, Imm(JitImmI(w)), Imm(JitImmI(w) % 0x20), false).value;
            op.b.Imm? && AluImm32(w, a) == Some(S32(Low32(op.bin, a, op.b.v)))
  {
    SameImmI(w);
    SameShiftAmount(w);
    AluImm32Operand(w, a, JitImmI(w) % 0x20, Alu32Op(w, Imm(JitImmI(w)), Imm(JitImmI(w) % 0x20), false).value);
  }

  /** The tail shared by OP-32 and OP-IMM-32. */
  lemma NarrowSimulates<M>(env: Env<M>, link: map<nat, nat>, loads: seq<Op>, op: Op, w: InsnWord, s: State<M>,
                           s1: State<M>)
    requires s.g.x[0] == 0 && op.Op2? && op == Op2(op.bin, true, R0, R0, op.b)
    requires Exec(env, link, loads, Running(s)) == Running(s1) && s1.g == s.g && s1.count == s.count
    ensures var c := Exec(env, link, Narrow(loads, Some(op), w).ops, Running(s));
            c.Running? && c.s.count == s.count
            && c.s.g == s.g.(x := Write(s.g.x, Rd(w), S32(Low32(op.bin, s1.r0, Read(s1, op.b)))))
  {
    var alu := [op, Mov(Signed32, R(R0), R(R0))];
    ExecParts(env, link, loads, alu, StoreGuest(Rd(w), R0), Running(s));
    NarrowComputes(env, link, op.bin, op.b, s1);
    StoreGuestIsWrite(env, link, Rd(w), Exec(env, link, alu, Running(s1)).s);
  }

  lemma Op32Simulates<M>(env: Env<M>, link: map<nat, nat>, w: InsnWord, s: State<M>, next: Word)
    requires s.g.x[0] == 0 && Opcode(w) == 0x3b && EmitOp32(w).supported
    ensures Simulates(env, link, EmitOp32(w), s, Execute(env, s.g, w, next))
            <==> Op32Agrees(w, s.g.x[Rs1(w)], s.g.x[Rs2(w)])
    ensures Funct7(w) != 1 ==> Op32Agrees(w, s.g.x[Rs1(w)], s.g.x[Rs2(w)])
  {
    hide MulDiv32, Alu32, Low32;
    var a, b := s.g.x[Rs1(w)], s.g.x[Rs2(w)];
    var op := Alu32Op(w, R(R1), R(R1), Funct7(w) == 0x20).value;
    TwoLoads(env, link, w, s);
    SameAlu32(w, a, b);
    NarrowSimulates(env, link, [LoadGuest(R0, Rs1(w)), LoadGuest(R1, Rs2(w))], op, w, s, s.(r0 := a, r1 := b));
    if Op32(w, a, b).Value? {
      SameWrite(s.g.x, Rd(w), Op32(w, a, b).v, S32(Low32(op.bin, a, b)));
    }
  }

  lemma OpImm32Simulates<M>(env: Env<M>, link: map<nat, nat>, w: InsnWord, s: State<M>, next: Word)
    requires s.g.x[0] == 0 && Opcode(w) == 0x1b && EmitOpImm32(w).supported
    ensures Simulates(env, link, EmitOpImm32(w), s, Execute(env, s.g, w, next))
  {
    var a := s.g.x[Rs1(w)];
    var op := Alu32Op(w, Imm(JitImmI(w)), Imm(JitImmI(w) % 0x20), false).value;
    OneLoad(env, link, w, s);
    SameAluImm32(w, a);
    NarrowSimulates(env, link, [LoadGuest(R0, Rs1(w))], op, w, s, s.(r0 := a));
  }

  lemma ConstantToGuest<M>(env: Env<M>, link: map<nat, nat>, rd: RegIndex, v: Word, s: State<M>)
    requires s.g.x[0] == 0
    ensures Exec(env, link, [Mov(Full, R(R0), Imm(v))] + StoreGuest(rd, R0), Running(s))
         == Running(s.(r0 := v, g := s.g.(x := Write(s.g.x, rd, v))))
  {
    ExecAppend(env, link, [Mov(Full, R(R0), Imm(v))], StoreGuest(rd, R0), Running(s));
    Exec1(env, link, Mov(Full, R(R0), Imm(v)), Running(s));
    StoreGuestIsWrite(env, link, rd, s.(r0 := v));
  }

  lemma ConstantSimulates<M>(env: Env<M>, link: map<nat, nat>, w: InsnWord, s: State<M>, next: Word)
    requires s.g.x[0] == 0
    ensures Opcode(w) == 0x37 ==> Simulates(env, link, EmitConstant(w, JitImmU(w)), s, Execute(env, s.g, w, next))
    ensures Opcode(w) == 0x17 ==>
      Simulates(env, link, EmitConstant(w, Plus(s.g.pc, JitImmU(w))), s, Execute(env, s.g, w, next))
  {
    SameImmU(w);
    ConstantToGuest(env, link, Rd(w), JitImmU(w), s);
    ConstantToGuest(env, link, Rd(w), Plus(s.g.pc, JitImmU(w)), s);
  }

  lemma JalSimulates<M>(env: Env<M>, link: map<nat, nat>, w: InsnWord, s: State<M>, next: Word)
    requires s.g.x[0] == 0 && Opcode(w) == 0x6f
    ensures Simulates(env, link, EmitJal(w, s.g.pc, next), s, Execute(env, s.g, w, next))
  {
    SameOffJ(w);
    var target := SetPc(Plus(s.g.pc, JitExtend21(JitOffsetJ(w))));
    var body := [Mov(Full, R(R0), Imm(next))] + StoreGuest(Rd(w), R0);
    ExecAppend(env, link, body, [target], Running(s));
    ConstantToGuest(env, link, Rd(w), next, s);
    Exec1(env, link, target, Exec(env, link, body, Running(s)));
  }

  lemma JalrTarget<M>(env: Env<M>, link: map<nat, nat>, w: InsnWord, s: State<M>)
    requires s.g.x[0] == 0
    ensures Exec(env, link, [LoadGuest(R1, Rs1(w)), Op2(Add, false, R1, R1, Imm(JitImmI(w))),
                             Op2(And, false, R1, R1, Imm(TWO_64 - 2))],
                 Running(s))
         == Running(s.(r1 := Bits(BitAnd, Plus(s.g.x[Rs1(w)], JitImmI(w)), TWO_64 - 2), tick := s.tick + 2))
  {
    hide Bits, JitImmI, Next, Set;
    var add, mask := Op2(Add, false, R1, R1, Imm(JitImmI(w))), Op2(And, false, R1, R1, Imm(TWO_64 - 2));
    Exec3(env, link, LoadGuest(R1, Rs1(w)), add, mask, Running(s));
    LoadGuestReads(env, link, R1, Rs1(w), s);
    var s1 := SetR1(s, s.g.x[Rs1(w)]);
    AddsToR1(env, link, JitImmI(w), s1);
    MasksR1(env, link, TWO_64 - 2, s1.(r1 := Plus(s1.r1, JitImmI(w)), tick := s1.tick + 1));
  }

  lemma SetR1<M>(s: State<M>, v: Word) returns (s1: State<M>)
    ensures s1 == Set(s, R1, v) == s.(r1 := v)
  {
    s1 := Set(s, R1, v);
  }

  lemma AddsToR1<M>(env: Env<M>, link: map<nat, nat>, v: Word, s: State<M>)
    ensures Next(env, link, Op2(Add, false, R1, R1, Imm(v)), Running(s))
         == Running(s.(r1 := Plus(s.r1, v), tick := s.tick + 1))
  {
  }

  lemma MasksR1<M>(env: Env<M>, link: map<nat, nat>, v: Word, s: State<M>)
    ensures Next(env, link, Op2(And, false, R1, R1, Imm(v)), Running(s))
         == Running(s.(r1 := Bits(BitAnd, s.r1, v), tick := s.tick + 1))
  {
    hide Bits;
  }

  lemma JalrSimulates<M>(env: Env<M>, link: map<nat, nat>, w: InsnWord, s: State<M>, next: Word)
    requires s.g.x[0] == 0 && Opcode(w) == 0x67
    ensures Simulates(env, link, EmitJalr(w, next), s, Execute(env, s.g, w, next))
  {
    SameImmI(w);
    var head := [LoadGuest(R1, Rs1(w)), Op2(Add, false, R1, R1, Imm(JitImmI(w))),
                 Op2(And, false, R1, R1, Imm(TWO_64 - 2))];
    var body := [Mov(Full, R(R0), Imm(next))] + StoreGuest(Rd(w), R0);
    var tail := [Mov(Full, GuestPc, R(R1))];
    ExecParts(env, link, head, body, tail, Running(s));
    JalrTarget(env, link, w, s);
    var s1 := Exec(env, link, head, Running(s)).s;
    ConstantToGuest(env, link, Rd(w), next, s1);
    Exec1(env, link, tail[0], Exec(env, link, body, Running(s1)));
  }

  /** A branch: the first jump is taken to the second label pair exactly when the interpreter takes it. */
  lemma BranchSimulates<M>(env: Env<M>, link: map<nat, nat>, w: InsnWord, s: State<M>, next: Word, j: nat, l: nat)
    requires s.g.x[0] == 0 && Opcode(w) == 0x63
    requires EmitBranch(w, s.g.pc, next, j, l).supported
    requires j in link && link[j] == l && j + 1 in link && link[j + 1] == l + 1
    ensures Simulates(env, link, EmitBranch(w, s.g.pc, next, j, l), s, Execute(env, s.g, w, next))
  {
    SameOffB(w);
    var c := BranchCond(Funct3(w)).value;
    var a, b := s.g.x[Rs1(w)], s.g.x[Rs2(w)];
    var loads := [LoadGuest(R0, Rs1(w)), LoadGuest(R1, Rs2(w))];
    var fall := [Cmp(c, R0, R(R1), j), SetPc(next), Jump(j + 1)];
    var taken := [Label(l), SetPc(Plus(s.g.pc, JitExtend13(OffsetB(w)))), Label(l + 1)];
    ExecParts(env, link, loads, fall, taken, Running(s));
    TwoLoads(env, link, w, s);
    var s1 := s.(r0 := a, r1 := b);
    Exec3(env, link, fall[0], fall[1], fall[2], Running(s1));
    Exec3(env, link, taken[0], taken[1], taken[2], Exec(env, link, fall, Running(s1)));
    SameCondition(Funct3(w), a, b);
  }

  lemma SameCondition(f3: Word, a: Word, b: Word)
    requires BranchCond(f3).Some?
    ensures Holds(BranchCond(f3).value, a, b) == Taken(f3, a, b)
  {
  }

  // Loads, stores and floating point: one call, and an exit that leaves the interpreter's fault state

  lemma AddressComputes<M>(env: Env<M>, link: map<nat, nat>, pc: Word, rs1: RegIndex, imm: Word, s: State<M>)
    requires s.g.x[0] == 0 && s.g.pc == pc
    ensures var c := Exec(env, link, [SetPc(pc)] + Address(rs1, imm), Running(s));
            c.Running? && c.s.g == s.g && c.s.count == s.count && c.s.r1 == Plus(s.g.x[rs1], imm)
  {
    ExecAppend(env, link, [SetPc(pc)], Address(rs1, imm), Running(s));
    Exec1(env, link, SetPc(pc), Running(s));
    if rs1 == 0 {
      Exec1(env, link, Mov(Full, R(R1), Imm(imm)), Running(s));
    } else {
      Exec2(env, link, Mov(Full, R(R1), GuestX(rs1)), Op2(Add, false, R1, R1, Imm(imm)), Running(s));
    }
  }

  /** What the emitted width conversion leaves of a loaded value. */
  function Converted(f3: Word, v: Word): Word {
    if f3 == 4 then v % 0x100 else if f3 == 5 then v % 0x1_0000 else if f3 == 6 then U32(v) else Loaded(f3, v)
  }

  lemma ConvertedFits(f3: Word, v: Word)
    ensures Converted(f3, v) == Loaded(f3, v) <==> Fits(f3, v)
  {
  }

  lemma LoadWidthComputes<M>(env: Env<M>, link: map<nat, nat>, f3: Word, s: State<M>)
    requires f3 != 7
    ensures Exec(env, link, LoadWidth(f3), Running(s)) == Running(s.(r0 := Converted(f3, s.r0)))
  {
    if LoadWidth(f3) != [] {
      Exec1(env, link, LoadWidth(f3)[0], Running(s));
    }
  }

  lemma LoadCall<M>(env: Env<M>, link: map<nat, nat>, j: nat, s: State<M>)
    requires s.r0 == CPU_ADDRESS && s.r3 == LOCAL_ADDRESS
    ensures var c := Exec(env, link, [CallLoad, Cmp(NotEqual, R0, Imm(0), j), Mov(Full, R(R0), Local)], Running(s));
            var a := env.load(s.g.mem, s.r1, s.r2);
            && c.s.g == s.g.(mem := a.mem) && c.s.count == s.count
            && (a.exc == 0 ==> c.Running? && c.s.r0 == a.val)
            && (a.exc != 0 ==> c == Jumping(j, c.s))
  {
    Exec3(env, link, CallLoad, Cmp(NotEqual, R0, Imm(0), j), Mov(Full, R(R0), Local), Running(s));
  }

  lemma LoadReaches<M>(env: Env<M>, link: map<nat, nat>, w: InsnWord, s: State<M>, j: nat)
    requires s.g.x[0] == 0
    ensures var c := Exec(env, link, LoadAccess(w, s.g.pc, j), Running(s));
            var a := env.load(s.g.mem, Plus(s.g.x[Rs1(w)], ImmI(w)), Size(Funct3(w)));
            && c.s.g == s.g.(mem := a.mem) && c.s.count == s.count
            && (a.exc == 0 ==> c.Running? && c.s.r0 == a.val)
            && (a.exc != 0 ==> c == Jumping(j, c.s))
  {
    SameImmI(w);
    SameSize(w);
    var pc, f3 := s.g.pc, Funct3(w);
    var head := [SetPc(pc)] + Address(Rs1(w), JitImmI(w));
    var args := [Mov(Full, R(R0), CpuPtr), Mov(Full, R(R2), Imm(JitSize(f3))), LocalBase(R3)];
    ExecParts(env, link, head, args, [CallLoad, Cmp(NotEqual, R0, Imm(0), j), Mov(Full, R(R0), Local)], Running(s));
    AddressComputes(env, link, pc, Rs1(w), JitImmI(w), s);
    var s1 := Exec(env, link, head, Running(s)).s;
    Exec3(env, link, args[0], args[1], args[2], Running(s1));
    LoadCall(env, link, j, Exec(env, link, args, Running(s1)).s);
  }

  /** Loads: the emitted code does the interpreter's step if and only if the load faults, has no
      destination, or answers with a value that fits its width. */
  lemma LoadSimulates<M>(env: Env<M>, link: map<nat, nat>, w: InsnWord, s: State<M>, next: Word, j: nat)
    requires s.g.x[0] == 0 && Opcode(w) == 0x03 && Funct3(w) != 7 && j !in link
    ensures Simulates(env, link, EmitLoad(w, s.g.pc, j), s, Execute(env, s.g, w, next)) <==> LoadInScope(env, s.g, w)
  {
    hide Loaded, Converted, Fits, LoadAccess, LoadWidth, StoreGuest, Write, Exec;
    var access, tail := LoadAccess(w, s.g.pc, j), LoadWidth(Funct3(w)) + StoreGuest(Rd(w), R0);
    ExecAppend(env, link, access, tail, Running(s));
    LoadReaches(env, link, w, s, j);
    LoadTail(env, link, Funct3(w), Rd(w), j, Exec(env, link, access, Running(s)));
    var a := env.load(s.g.mem, Plus(s.g.x[Rs1(w)], ImmI(w)), Size(Funct3(w)));
    ExecuteLoad(env, s.g, w, next);
    ConvertedFits(Funct3(w), a.val);
    SameWrite(s.g.x, Rd(w), Converted(Funct3(w), a.val), Loaded(Funct3(w), a.val));
  }

  lemma ExecuteLoad<M>(env: Env<M>, g: Guest<M>, w: InsnWord, next: Word)
    requires Opcode(w) == 0x03
    ensures Execute(env, g, w, next) == StepLoad(env, g, w, next)
  {
  }

  lemma LoadTail<M>(env: Env<M>, link: map<nat, nat>, f3: Word, rd: RegIndex, j: nat, c: Control<M>)
    requires c.Running? ==> c.s.g.x[0] == 0 && f3 != 7
    requires !c.Running? ==> c.Jumping? && c.j == j && j !in link
    ensures var d := Exec(env, link, LoadWidth(f3) + StoreGuest(rd, R0), c);
            if c.Running? then
              d == Running(d.s) && d.s.g == c.s.g.(x := Write(c.s.g.x, rd, Converted(f3, c.s.r0)))
              && d.s.count == c.s.count
            else d == c
  {
    if c.Running? {
      ExecAppend(env, link, LoadWidth(f3), StoreGuest(rd, R0), c);
      LoadWidthComputes(env, link, f3, c.s);
      StoreGuestIsWrite(env, link, rd, c.s.(r0 := Converted(f3, c.s.r0)));
    } else {
      JumpPassesThrough(env, link, LoadWidth(f3) + StoreGuest(rd, R0), j, c.s);
    }
  }

  lemma StoreSimulates<M>(env: Env<M>, link: map<nat, nat>, w: InsnWord, s: State<M>, next: Word, j: nat)
    requires s.g.x[0] == 0 && Opcode(w) == 0x23 && Funct3(w) < 4
    ensures Simulates(env, link, EmitStore(w, s.g.pc, j), s, Execute(env, s.g, w, next))
  {
    SameImmS(w);
    SameSize(w);
    var pc, f3 := s.g.pc, Funct3(w);
    var head := [SetPc(pc)] + Address(Rs1(w), JitImmS(w));
    var args := [Mov(Full, R(R0), CpuPtr), Mov(Full, R(R2), Imm(JitSize(f3))), LoadGuest(R3, Rs2(w))];
    var call := [CallStore, Cmp(NotEqual, R0, Imm(0), j)];
    ExecParts(env, link, head, args, call, Running(s));
    AddressComputes(env, link, pc, Rs1(w), JitImmS(w), s);
    var s1 := Exec(env, link, head, Running(s)).s;
    Exec3(env, link, args[0], args[1], args[2], Running(s1));
    LoadGuestReads(env, link, R3, Rs2(w), s1.(r0 := CPU_ADDRESS, r2 := JitSize(f3)));
    Exec2(env, link, call[0], call[1], Exec(env, link, args, Running(s1)));
  }

  lemma FpCall<M>(env: Env<M>, link: map<nat, nat>, j: nat, s: State<M>)
    requires s.r0 == CPU_ADDRESS && s.r1 < TWO_32
    ensures var c := Exec(env, link, [CallFp, Cmp(NotEqual, R0, Imm(0), j)], Running(s));
            var f := env.fp(s.g, s.r1);
            c.s.g == f.g && c.s.count == s.count && c == if f.FpOk? then Running(c.s) else Jumping(j, c.s)
  {
    Exec2(env, link, CallFp, Cmp(NotEqual, R0, Imm(0), j), Running(s));
  }

  lemma ExecuteFp<M>(env: Env<M>, g: Guest<M>, w: InsnWord, next: Word)
    requires IsFp(Opcode(w))
    ensures Execute(env, g, w, next) == StepFp(env, g, w, next)
  {
  }

  lemma FpSimulates<M>(env: Env<M>, link: map<nat, nat>, w: InsnWord, s: State<M>, next: Word, j: nat)
    requires IsFp(Opcode(w)) && Legal(env, s.g, w)
    ensures Simulates(env, link, EmitFp(w, s.g.pc, j), s, Execute(env, s.g, w, next))
  {
    var args := [SetPc(s.g.pc), Mov(Full, R(R0), CpuPtr), Mov(Full, R(R1), Imm(w))];
    var call := [CallFp, Cmp(NotEqual, R0, Imm(0), j)];
    ExecAppend(env, link, args, call, Running(s));
    Exec3(env, link, args[0], args[1], args[2], Running(s));
    ExecuteFp(env, s.g, w, next);
    FpCall(env, link, j, s.(r0 := CPU_ADDRESS, r1 := w));
  }

  /** For every supported legal instruction the emitted operations perform the interpreter's step exactly
      when the instruction is in scope. */
  lemma InsnSimulatesExactly<M>(env: Env<M>, link: map<nat, nat>, w: InsnWord, compressed: bool, s: State<M>, j: nat,
                                l: nat)
    requires s.g.x[0] == 0 && Legal(env, s.g, w)
    requires EmitInsn(w, s.g.pc, compressed, j, l).supported
    requires forall i :: i in EmitInsn(w, s.g.pc, compressed, j, l).links ==>
      i in link && link[i] == EmitInsn(w, s.g.pc, compressed, j, l).links[i]
    requires EmitInsn(w, s.g.pc, compressed, j, l).exit.Some? ==> j !in link
    ensures Simulates(env, link, EmitInsn(w, s.g.pc, compressed, j, l), s,
                      Execute(env, s.g, w, Plus(s.g.pc, Length(compressed))))
            <==> InScope(env, s.g, w)
  {
    hide Simulates, Execute, OpAgrees, Op32Agrees, LoadInScope;
    var op, next := Opcode(w), Plus(s.g.pc, Length(compressed));
    if op == 0x33 {
      OpSimulates(env, link, w, s, next);
    } else if op == 0x13 {
      OpImmSimulates(env, link, w, s, next);
    } else if op == 0x3b {
      Op32Simulates(env, link, w, s, next);
    } else if op == 0x1b {
      OpImm32Simulates(env, link, w, s, next);
    } else if op == 0x37 || op == 0x17 {
      ConstantSimulates(env, link, w, s, next);
    } else if op == 0x6f {
      JalSimulates(env, link, w, s, next);
    } else if op == 0x67 {
      JalrSimulates(env, link, w, s, next);
    } else if op == 0x63 {
      BranchSimulates(env, link, w, s, next, j, l);
    } else if op == 0x03 {
      LoadSimulates(env, link, w, s, next, j);
    } else if op == 0x23 {
      StoreSimulates(env, link, w, s, next, j);
    } else {
      FpSimulates(env, link, w, s, next, j);
    }
  }

  /** Every supported instruction in scope: the emitted operations perform the interpreter's step. */
  lemma InsnSimulates<M>(env: Env<M>, link: map<nat, nat>, w: InsnWord, compressed: bool, s: State<M>, j: nat, l: nat)
    requires s.g.x[0] == 0 && InScope(env, s.g, w)
    requires EmitInsn(w, s.g.pc, compressed, j, l).supported
    requires forall i :: i in EmitInsn(w, s.g.pc, compressed, j, l).links ==>
      i in link && link[i] == EmitInsn(w, s.g.pc, compressed, j, l).links[i]
    requires EmitInsn(w, s.g.pc, compressed, j, l).exit.Some? ==> j !in link
    ensures Simulates(env, link, EmitInsn(w, s.g.pc, compressed, j, l), s,
                      Execute(env, s.g, w, Plus(s.g.pc, Length(compressed))))
  {
    hide EmitInsn, Execute, Simulates;
    InsnSimulatesExactly(env, link, w, compressed, s, j, l);
  }

  // M-extension words that are translated correctly whatever the registers hold

  /** On every register file for which C defines the result. */
  ghost predicate AlwaysAgrees(w: InsnWord) {
    forall x: Regs :: x[0] == 0 && Op64(w, x[Rs1(w)], x[Rs2(w)]).Some? ==> OpAgrees(w, x[Rs1(w)], x[Rs2(w)])
  }

  ghost predicate AlwaysAgrees32(w: InsnWord) {
    forall x: Regs :: x[0] == 0 && Op32(w, x[Rs1(w)], x[Rs2(w)]) != Undefined ==> Op32Agrees(w, x[Rs1(w)], x[Rs2(w)])
  }

  /** MUL and MULHSU read x0 twice; MULH and REMU read x0 first, MULHU and REM second; divisions never. */
  predicate HarmlessWord(w: InsnWord) {
    var f3, z1, z2 := Funct3(w), Rs1(w) == 0, Rs2(w) == 0;
    Rd(w) == 0
    || ((f3 == 0 || f3 == 2) && z1 && z2)
    || ((f3 == 1 || f3 == 7) && z1)
    || ((f3 == 3 || f3 == 6) && z2)
  }

  /** All registers but x0 hold `v`. */
  function Filled(v: Word): Regs { seq(32, i => if i == 0 then 0 else v) }

  lemma SmallBits(op: Bitwise, a: Word, b: Word)
    requires a < 2 && b < 2
    ensures Bits(op, a, b) == OnBit(op, a, b)
  {
    hide Pow2;
    ZeroBits(op, 63);
    assert a / 2 == 0 && b / 2 == 0;
    assert OnBits(op, a, b, 64) == 2 * OnBits(op, a / 2, b / 2, 63) + OnBit(op, a, b);
  }

  lemma {:induction false} ZeroBits(op: Bitwise, n: nat)
    ensures OnBits(op, 0, 0, n) == 0
  {
    if n > 0 {
      ZeroBits(op, n - 1);
    }
  }

  lemma {:induction false} AndZero(b: int, n: nat)
    ensures OnBits(BitAnd, 0, b, n) == 0
    decreases n
  {
    if n > 0 {
      AndZero(b / 2, n - 1);
    }
  }

  lemma HarmlessAgrees(w: InsnWord, a: Word, b: Word)
    requires Funct7(w) == 1 && HarmlessWord(w) && (Rs1(w) == 0 ==> a == 0) && (Rs2(w) == 0 ==> b == 0)
    requires Op64(w, a, b).Some?
    ensures OpAgrees(w, a, b)
  {
    var f3 := Funct3(w);
    if Rd(w) != 0 {
      if f3 == 6 {
        Pow2Values();
        OrZero(a, 64);
      } else if f3 == 7 {
        AndZero(b, 64);
      }
    }
  }

  /** The registers' contents on which a word that is not harmless goes wrong. */
  function Witness(w: InsnWord): Word {
    var f3 := Funct3(w);
    if f3 == 4 || f3 == 5 then 0 else if (f3 == 2 || f3 == 3) && Rs1(w) != 0 then TWO_64 - 1 else 1
  }

  lemma OthersDisagree(w: InsnWord)
    requires Funct7(w) == 1 && !HarmlessWord(w)
    ensures var x := Filled(Witness(w));
            Op64(w, x[Rs1(w)], x[Rs2(w)]).Some? && !OpAgrees(w, x[Rs1(w)], x[Rs2(w)])
  {
    hide Bits, Pow2;
    var v, x := Witness(w), Filled(Witness(w));
    var a, b := x[Rs1(w)], x[Rs2(w)];
    assert (a == 0 || a == v) && (b == 0 || b == v);
    DisagreeOn(w, a, b);
  }

  lemma DisagreeOn(w: InsnWord, a: Word, b: Word)
    requires Funct7(w) == 1 && !HarmlessWord(w)
    requires a == (if Rs1(w) == 0 then 0 else Witness(w)) && b == (if Rs2(w) == 0 then 0 else Witness(w))
    ensures var v := MulDiv64(Funct3(w), a, b); v.Some? && v.value != Translated64(w, a, b)
  {
    hide Bits, Pow2, Rd, Rs1, Rs2, Funct7;
    var f3 := Funct3(w);
    assert f3 < 8;
    hide Funct3;
    assert Pow2(0) == 1 && Pow2(1) == 2 by { PowerOne(); }
    if f3 == 4 {
      SmallBits(BitXor, a, b);
    } else if f3 == 6 {
      SmallBits(BitOr, a, b);
    } else if f3 == 7 {
      SmallBits(BitAnd, a, b);
    }
  }

  lemma PowerOne()
    ensures Pow2(0) == 1 && Pow2(1) == 2
  {
  }

  /** OP words of the M extension: translated correctly for all registers if and only if harmless. */
  lemma WordsThatAgree(w: InsnWord)
    requires Funct7(w) == 1
    ensures AlwaysAgrees(w) <==> HarmlessWord(w)
  {
    hide OpAgrees, HarmlessWord, Op64, Witness;
    if HarmlessWord(w) {
      forall x: Regs | x[0] == 0 && Op64(w, x[Rs1(w)], x[Rs2(w)]).Some?
        ensures OpAgrees(w, x[Rs1(w)], x[Rs2(w)])
      {
        HarmlessAgrees(w, x[Rs1(w)], x[Rs2(w)]);
      }
    } else {
      OthersDisagree(w);
      var x := Filled(Witness(w));
      assert x[0] == 0;
    }
  }

  /** OP-32 words that are translated: MULW reads x0 twice; DIVUW has no destination; the rest never agree. */
  lemma WordsThatAgree32(w: InsnWord)
    requires Funct7(w) == 1 && EmitOp32(w).supported
    ensures AlwaysAgrees32(w) <==>
            (Funct3(w) == 0 && (Rd(w) == 0 || (Rs1(w) == 0 && Rs2(w) == 0))) || (Funct3(w) == 5 && Rd(w) == 0)
  {
    hide Rd, Rs1, Rs2, Funct3, Funct7, Pow2;
    var v: Word := if Funct3(w) == 0 then 1 else 0;
    var x := Filled(v);
    assert x[0] == 0;
    var a, b := x[Rs1(w)], x[Rs2(w)];
    assert (a == 0 || a == v) && (b == 0 || b == v) && (Rs1(w) != 0 ==> a == v) && (Rs2(w) != 0 ==> b == v);
    SmallNarrow();
    assert Op32(w, a, b) != Undefined;
  }

  lemma SmallNarrow()
    ensures S32(0) == 0 && S32(1) == 1 && S32(2) == 2
  {
  }
}
