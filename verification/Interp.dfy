/**
 The interpreter: the part of `rv64_step` that a translated block can contain.
 Memory is a value of an arbitrary type `M`; a load, a store and a floating-point
 instruction are the operations that the interpreter and translated code share.
 */
module Interp {
  import opened Wrappers
  import opened Words
  import opened MulDiv

  type RegIndex = n: nat | n < 32

  type Regs = x: seq<Word> | |x| == 32 witness seq(32, _ => 0)

  type InsnWord = w: int | 0 <= w < 0x1_0000_0000

  /** What the fetch at one pc yields. `word` is the 32-bit encoding, expanded when
      `compressed`; `whole` is false if only the first two bytes are readable. */
  datatype Fetched =
    | FetchFault(exc: Word)
    | BadCompressed(half: Word)
    | Insn(word: InsnWord, compressed: bool, whole: bool)

  datatype Guest<M> = Guest(x: Regs, pc: Word, mem: M)

  datatype Access<M> = Access(exc: Word, val: Word, mem: M)

  datatype FpResult<M> = FpOk(g: Guest<M>) | FpIllegal(g: Guest<M>) | FpTrapped(g: Guest<M>)

  /** Everything outside the instruction stream. `junk` supplies the bits the
      translated code's target leaves unspecified; the interpreter never reads it. */
  datatype Env<!M> = Env(
    fetch: Word -> Fetched,
    load: (M, Word, Word) -> Access<M>,
    store: (M, Word, Word, Word) -> Access<M>,
    fp: (Guest<M>, InsnWord) -> FpResult<M>,
    junk: nat -> Word)

  // Fields of an encoded instruction

  function Opcode(w: InsnWord): Word { w % 0x80 }

  function Funct3(w: InsnWord): Word { w / 0x1000 % 8 }

  function Funct7(w: InsnWord): Word { w / 0x200_0000 }

  function Rd(w: InsnWord): RegIndex { w / 0x80 % 32 }

  function Rs1(w: InsnWord): RegIndex { w / 0x8000 % 32 }

  function Rs2(w: InsnWord): RegIndex { w / 0x10_0000 % 32 }

  function ImmI(w: InsnWord): Word { SignExtend(w / 0x10_0000, 0x800) }

  function ImmS(w: InsnWord): Word { SignExtend(w / 0x200_0000 * 32 + w / 0x80 % 32, 0x800) }

  function OffsetB(w: InsnWord): (off: Word)
    ensures off < 0x2000
  {
    w / 0x8000_0000 % 2 * 0x1000 + w / 0x80 % 2 * 0x800 + w / 0x200_0000 % 0x40 * 0x20 + w / 0x100 % 0x10 * 2
  }

  function ImmB(w: InsnWord): Word { SignExtend(OffsetB(w), 0x1000) }

  function ImmU(w: InsnWord): Word { SignExtend(w - w % 0x1000, 0x8000_0000) }

  function OffsetJ(w: InsnWord): (off: Word)
    ensures off < 0x20_0000
  {
    w / 0x8000_0000 % 2 * 0x10_0000 + w / 0x1000 % 0x100 * 0x1000 + w / 0x10_0000 % 2 * 0x800
    + w / 0x20_0000 % 0x400 * 2
  }

  function ImmJ(w: InsnWord): Word { SignExtend(OffsetJ(w), 0x10_0000) }

  predicate IsFp(op: Word) {
    op == 0x07 || op == 0x27 || op == 0x43 || op == 0x47 || op == 0x4b || op == 0x4f || op == 0x53
  }

  /** `WR`: x0 is put back to zero after every register write. */
  function Write(x: Regs, rd: RegIndex, v: Word): Regs {
    x[rd := v][0 := 0]
  }

  // The outcome of one `rv64_step`

  datatype Attempt<M> =
    | Retire(g: Guest<M>)                                 // reached the pc update at the end
    | Raise(g: Guest<M>, cause: Word, tval: Word)         // calls `trap` in state `g`
    | Delivered(g: Guest<M>)                              // the floating-point helper has trapped
    | Elsewhere(g: Guest<M>)                              // not executed here: other opcodes, undefined divisions

  const ILLEGAL: Word := 2

  function Size(f3: Word): Word {
    if f3 % 4 == 0 then 1 else if f3 % 4 == 1 then 2 else if f3 % 4 == 2 then 4 else 8
  }

  function Taken(f3: Word, a: Word, b: Word): bool {
    if f3 == 0 then a == b
    else if f3 == 1 then a != b
    else if f3 == 4 then SignedLess(a, b)
    else if f3 == 5 then !SignedLess(a, b)
    else if f3 == 6 then a < b
    else a >= b
  }

  function Flag(b: bool): Word { if b then 1 else 0 }

  function AluImm(w: InsnWord, a: Word): Word {
    var f3 := Funct3(w);
    if f3 == 0 then Plus(a, ImmI(w))
    else if f3 == 1 then Shl(a, w / 0x10_0000 % 0x40)
    else if f3 == 2 then Flag(SignedLess(a, ImmI(w)))
    else if f3 == 3 then Flag(a < ImmI(w))
    else if f3 == 4 then Bits(BitXor, a, ImmI(w))
    else if f3 == 5 then
      (if Funct7(w) / 2 != 0 then Asr(a, w / 0x10_0000 % 0x40) else Shr(a, w / 0x10_0000 % 0x40))
    else if f3 == 6 then Bits(BitOr, a, ImmI(w))
    else Bits(BitAnd, a, ImmI(w))
  }

  function Alu(w: InsnWord, a: Word, b: Word): Word {
    var f3, f7 := Funct3(w), Funct7(w);
    if f3 == 0 then (if f7 == 0x20 then Minus(a, b) else Plus(a, b))
    else if f3 == 1 then Shl(a, b % 0x40)
    else if f3 == 2 then Flag(SignedLess(a, b))
    else if f3 == 3 then Flag(a < b)
    else if f3 == 4 then Bits(BitXor, a, b)
    else if f3 == 5 then (if f7 == 0x20 then Asr(a, b % 0x40) else Shr(a, b % 0x40))
    else if f3 == 6 then Bits(BitOr, a, b)
    else Bits(BitAnd, a, b)
  }

  /** The 32-bit forms; `None` is the interpreter's illegal-instruction trap. */
  function AluImm32(w: InsnWord, a: Word): Option<Word> {
    var f3 := Funct3(w);
    if f3 == 0 then Some(S32(Plus(U32(a), U32(ImmI(w)))))
    else if f3 == 1 then Some(S32(Shl(U32(a), w / 0x10_0000 % 0x20)))
    else if f3 == 5 then
      Some(S32(if Funct7(w) == 0x20 then Asr(S32(a), w / 0x10_0000 % 0x20) else Shr(U32(a), w / 0x10_0000 % 0x20)))
    else None
  }

  function Alu32(w: InsnWord, a: Word, b: Word): Option<Word> {
    var f3, f7 := Funct3(w), Funct7(w);
    if f3 == 0 then Some(S32(if f7 == 0x20 then Minus(U32(a), U32(b)) else Plus(U32(a), U32(b))))
    else if f3 == 1 then Some(S32(Shl(U32(a), U32(b) % 0x20)))
    else if f3 == 5 then Some(S32(if f7 == 0x20 then Asr(S32(a), U32(b) % 0x20) else Shr(U32(a), U32(b) % 0x20)))
    else None
  }

  /** Register-register instructions, M extension included. */
  function Op64(w: InsnWord, a: Word, b: Word): Option<Word> {
    if Funct7(w) != 1 then Some(Alu(w, a, b)) else MulDiv64(Funct3(w), a, b)
  }

  function Op32(w: InsnWord, a: Word, b: Word): Narrow {
    if Funct7(w) != 1 then (match Alu32(w, a, b) case Some(v) => Value(v) case None => Illegal)
    else MulDiv32(Funct3(w), a, b)
  }

  /** The value a load instruction leaves in rd: only the signed forms look at the width. */
  function Loaded(f3: Word, val: Word): Word {
    if f3 == 0 then S8(val) else if f3 == 1 then S16(val) else if f3 == 2 then S32(val) else val
  }

  function RetireWith<M>(g: Guest<M>, rd: RegIndex, v: Word, nextPc: Word): Attempt<M> {
    Retire(Guest(Write(g.x, rd, v), nextPc, g.mem))
  }

  function StepLoad<M>(env: Env<M>, g: Guest<M>, w: InsnWord, nextPc: Word): Attempt<M> {
    if Funct3(w) == 7 then Raise(g, ILLEGAL, w) else
    var addr := Plus(g.x[Rs1(w)], ImmI(w));
    var a := env.load(g.mem, addr, Size(Funct3(w)));
    if a.exc != 0 then Raise(g.(mem := a.mem), a.exc, addr)
    else RetireWith(g.(mem := a.mem), Rd(w), Loaded(Funct3(w), a.val), nextPc)
  }

  function StepStore<M>(env: Env<M>, g: Guest<M>, w: InsnWord, nextPc: Word): Attempt<M> {
    if Funct3(w) >= 4 then Raise(g, ILLEGAL, w) else
    var addr := Plus(g.x[Rs1(w)], ImmS(w));
    var a := env.store(g.mem, addr, Size(Funct3(w)), g.x[Rs2(w)]);
    if a.exc != 0 then Raise(g.(mem := a.mem), a.exc, addr)
    else Retire(Guest(g.x, nextPc, a.mem))
  }

  function StepFp<M>(env: Env<M>, g: Guest<M>, w: InsnWord, nextPc: Word): Attempt<M> {
    match env.fp(g, w)
    case FpOk(g') => Retire(g'.(pc := nextPc))
    case FpIllegal(g') => Raise(g', ILLEGAL, w)
    case FpTrapped(g') => Delivered(g')
  }

  function Execute<M>(env: Env<M>, g: Guest<M>, w: InsnWord, nextPc: Word): Attempt<M> {
    var op, f3, rd := Opcode(w), Funct3(w), Rd(w);
    var a, b := g.x[Rs1(w)], g.x[Rs2(w)];
    if op == 0x37 then RetireWith(g, rd, ImmU(w), nextPc)
    else if op == 0x17 then RetireWith(g, rd, Plus(g.pc, ImmU(w)), nextPc)
    else if op == 0x6f then RetireWith(g, rd, nextPc, Plus(g.pc, ImmJ(w)))
    else if op == 0x67 then RetireWith(g, rd, nextPc, Bits(BitAnd, Plus(a, ImmI(w)), TWO_64 - 2))
    else if op == 0x63 then
      if f3 == 2 || f3 == 3 then Raise(g, ILLEGAL, w)
      else Retire(g.(pc := if Taken(f3, a, b) then Plus(g.pc, ImmB(w)) else nextPc))
    else if op == 0x03 then StepLoad(env, g, w, nextPc)
    else if op == 0x23 then StepStore(env, g, w, nextPc)
    else if op == 0x13 then RetireWith(g, rd, AluImm(w, a), nextPc)
    else if op == 0x33 then
      match Op64(w, a, b) case Some(v) => RetireWith(g, rd, v, nextPc) case None => Elsewhere(g)
    else if op == 0x1b then
      match AluImm32(w, a) case Some(v) => RetireWith(g, rd, v, nextPc) case None => Raise(g, ILLEGAL, w)
    else if op == 0x3b then
      match Op32(w, a, b)
      case Value(v) => RetireWith(g, rd, v, nextPc)
      case Illegal => Raise(g, ILLEGAL, w)
      case Undefined => Elsewhere(g)
    else if IsFp(op) then StepFp(env, g, w, nextPc)
    else Elsewhere(g)
  }

  function Length(compressed: bool): Word {
    if compressed then 2 else 4
  }

  /** One `rv64_step` of a hart that is not halted. */
  function Step<M>(env: Env<M>, g: Guest<M>): Attempt<M> {
    match env.fetch(g.pc)
    case FetchFault(exc) => Raise(g, exc, g.pc)
    case BadCompressed(half) => Raise(g, ILLEGAL, half)
    case Insn(w, compressed, _) => Execute(env, g, w, Plus(g.pc, Length(compressed)))
  }

  /** Up to `n` steps, stopping at the first that does not retire. */
  datatype Progress<M> = Progress(count: nat, g: Guest<M>, stop: Option<Attempt<M>>)

  function Run<M>(env: Env<M>, g: Guest<M>, n: nat): (p: Progress<M>)
    ensures p.count <= n
    ensures p.stop.None? ==> p.count == n
  {
    if n == 0 then Progress(0, g, None) else
    var p := Run(env, g, n - 1);
    if p.stop.Some? then p else
    var a := Step(env, p.g);
    if a.Retire? then Progress(n, a.g, None) else Progress(n - 1, a.g, Some(a))
  }
}
