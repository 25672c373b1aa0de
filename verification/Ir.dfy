/**
 The SLJIT intermediate code a translated block is made of, as a machine over the
 guest's registers, four scratch registers, the completion counter and one local slot.
 Jumps and labels are objects: `link` says which label each jump was set to, and
 control only ever moves forward to it.
 */
module Ir {
  import opened Words
  import opened Interp

  datatype Reg = R0 | R1 | R2 | R3 | Count

  datatype Operand = R(r: Reg) | Imm(v: Word) | GuestX(i: RegIndex) | GuestPc | Local | CpuPtr

  datatype Width = Full | Signed8 | Signed16 | Signed32 | Unsigned8 | Unsigned16 | Unsigned32

  datatype Binary = Add | Sub | And | Or | Xor | ShiftL | ShiftR | ShiftA

  datatype Cond = Equal | NotEqual | SigLess | SigGreaterEqual | Less | GreaterEqual

  datatype Op =
    | Mov(width: Width, dst: Operand, src: Operand)
    | Op2(bin: Binary, narrow: bool, dst2: Reg, a: Reg, b: Operand)   // SUB also sets the flags
    | OpFlags(dstf: Reg, flag: Cond)
    | LocalBase(dstl: Reg)
    | CallLoad
    | CallStore
    | CallFp
    | Cmp(cond: Cond, left: Reg, right: Operand, jump: nat)
    | Jump(target: nat)
    | Label(id: nat)
    | Return

  datatype State<M> = State(g: Guest<M>, r0: Word, r1: Word, r2: Word, r3: Word, count: Word,
                            local: Word, less: bool, sigLess: bool, tick: nat)

  /** Running, or skipping forward to the label of a taken jump, or returned. */
  datatype Control<M> =
    | Running(s: State<M>)
    | Jumping(j: nat, s: State<M>)
    | Returned(v: Word, s: State<M>)

  /** The host address of the CPU structure, and of the local slot; opaque numbers. */
  const CPU_ADDRESS: Word := 0x1000
  const LOCAL_ADDRESS: Word := 0x2000

  function Get<M>(s: State<M>, r: Reg): Word {
    match r case R0 => s.r0 case R1 => s.r1 case R2 => s.r2 case R3 => s.r3 case Count => s.count
  }

  function Set<M>(s: State<M>, r: Reg, v: Word): State<M> {
    match r
    case R0 => s.(r0 := v)
    case R1 => s.(r1 := v)
    case R2 => s.(r2 := v)
    case R3 => s.(r3 := v)
    case Count => s.(count := v)
  }

  function Read<M>(s: State<M>, o: Operand): Word {
    match o
    case R(r) => Get(s, r)
    case Imm(v) => v
    case GuestX(i) => s.g.x[i]
    case GuestPc => s.g.pc
    case Local => s.local
    case CpuPtr => CPU_ADDRESS
  }

  function Assign<M>(s: State<M>, o: Operand, v: Word): State<M> {
    match o
    case R(r) => Set(s, r, v)
    case Imm(_) => s
    case GuestX(i) => s.(g := s.g.(x := s.g.x[i := v]))
    case GuestPc => s.(g := s.g.(pc := v))
    case Local => s.(local := v)
    case CpuPtr => s
  }

  function Convert(w: Width, v: Word): Word {
    match w
    case Full => v
    case Signed8 => S8(v)
    case Signed16 => S16(v)
    case Signed32 => S32(v)
    case Unsigned8 => v % 0x100
    case Unsigned16 => v % 0x1_0000
    case Unsigned32 => U32(v)
  }

  function Full64(bin: Binary, a: Word, b: Word): Word {
    match bin
    case Add => Plus(a, b)
    case Sub => Minus(a, b)
    case And => Bits(BitAnd, a, b)
    case Or => Bits(BitOr, a, b)
    case Xor => Bits(BitXor, a, b)
    case ShiftL => Shl(a, b % 0x40)
    case ShiftR => Shr(a, b % 0x40)
    case ShiftA => Asr(a, b % 0x40)
  }

  /** A 32-bit operation reads the low halves; only the low half of its result counts. */
  function Low32(bin: Binary, a: Word, b: Word): Word {
    match bin
    case Add => Plus(U32(a), U32(b))
    case Sub => Minus(U32(a), U32(b))
    case And => Bits(BitAnd, a, b)
    case Or => Bits(BitOr, a, b)
    case Xor => Bits(BitXor, a, b)
    case ShiftL => Shl(U32(a), U32(b) % 0x20)
    case ShiftR => Shr(U32(a), U32(b) % 0x20)
    case ShiftA => Asr(S32(a), U32(b) % 0x20)
  }

  predicate Holds(c: Cond, a: Word, b: Word) {
    match c
    case Equal => a == b
    case NotEqual => a != b
    case SigLess => SignedLess(a, b)
    case SigGreaterEqual => !SignedLess(a, b)
    case Less => a < b
    case GreaterEqual => a >= b
  }

  predicate FlagHolds<M>(s: State<M>, c: Cond) {
    match c
    case SigLess => s.sigLess
    case SigGreaterEqual => !s.sigLess
    case Less => s.less
    case GreaterEqual => !s.less
    case Equal => false
    case NotEqual => true
  }

  /** Scratch registers do not survive a call: R1 to R3 hold anything afterwards. */
  function AfterCall<M>(env: Env<M>, s: State<M>, result: Word): State<M> {
    s.(r0 := result, r1 := env.junk(s.tick), r2 := env.junk(s.tick + 1), r3 := env.junk(s.tick + 2),
       less := env.junk(s.tick + 3) == 0, sigLess := env.junk(s.tick + 4) == 0, tick := s.tick + 5)
  }

  function WithJunk(v: Word, junk: Word): Word {
    U32(v) + U32(junk) * TWO_32
  }

  function DoBinary<M>(env: Env<M>, s: State<M>, op: Op): State<M>
    requires op.Op2?
  {
    var a, b := Get(s, op.a), Read(s, op.b);
    var v := if op.narrow then WithJunk(Low32(op.bin, a, b), env.junk(s.tick)) else Full64(op.bin, a, b);
    var s' := Set(s, op.dst2, v).(tick := s.tick + 1);
    if op.bin == Sub && !op.narrow then s'.(less := a < b, sigLess := SignedLess(a, b)) else s'
  }

  /** The helpers act on the CPU whose address is in R0; the load helper stores through R3. */
  function DoCallLoad<M>(env: Env<M>, s: State<M>): State<M> {
    if s.r0 != CPU_ADDRESS then AfterCall(env, s, env.junk(s.tick + 5)) else
    var a := env.load(s.g.mem, s.r1, s.r2);
    AfterCall(env, s, a.exc).(
      g := s.g.(mem := a.mem),
      local := if a.exc == 0 && s.r3 == LOCAL_ADDRESS then a.val else s.local)
  }

  function DoCallStore<M>(env: Env<M>, s: State<M>): State<M> {
    if s.r0 != CPU_ADDRESS then AfterCall(env, s, env.junk(s.tick + 5)) else
    var a := env.store(s.g.mem, s.r1, s.r2, s.r3);
    AfterCall(env, s, a.exc).(g := s.g.(mem := a.mem))
  }

  function DoCallFp<M>(env: Env<M>, s: State<M>): State<M> {
    if s.r0 != CPU_ADDRESS then AfterCall(env, s, env.junk(s.tick + 5)) else
    var f := env.fp(s.g, U32(s.r1));
    AfterCall(env, s, if f.FpOk? then 0 else if f.FpTrapped? then 1 else TWO_64 - 1).(g := f.g)
  }

  /** One IR operation of a running block. */
  function Do<M>(env: Env<M>, op: Op, s: State<M>): Control<M> {
    match op
    case Mov(w, dst, src) => Running(Assign(s, dst, Convert(w, Read(s, src))))
    case Op2(_, _, _, _, _) => Running(DoBinary(env, s, op))
    case OpFlags(dst, c) => Running(Set(s, dst, Flag(FlagHolds(s, c))))
    case LocalBase(dst) => Running(Set(s, dst, LOCAL_ADDRESS))
    case CallLoad => Running(DoCallLoad(env, s))
    case CallStore => Running(DoCallStore(env, s))
    case CallFp => Running(DoCallFp(env, s))
    case Cmp(c, a, b, j) => if Holds(c, Get(s, a), Read(s, b)) then Jumping(j, s) else Running(s)
    case Jump(j) => Jumping(j, s)
    case Label(_) => Running(s)
    case Return => Returned(s.r0, s)
  }

  function Next<M>(env: Env<M>, link: map<nat, nat>, op: Op, c: Control<M>): Control<M> {
    match c
    case Running(s) => Do(env, op, s)
    case Jumping(j, s) => if op.Label? && j in link && link[j] == op.id then Running(s) else c
    case Returned(_, _) => c
  }

  function Exec<M>(env: Env<M>, link: map<nat, nat>, code: seq<Op>, c: Control<M>): Control<M> {
    if code == [] then c else Exec(env, link, code[1..], Next(env, link, code[0], c))
  }

  lemma {:induction false} ExecAppend<M>(env: Env<M>, link: map<nat, nat>, a: seq<Op>, b: seq<Op>, c: Control<M>)
    ensures Exec(env, link, a + b, c) == Exec(env, link, b, Exec(env, link, a, c))
  {
    if a == [] {
      assert a + b == b;
    } else {
      assert (a + b)[1..] == a[1..] + b;
      ExecAppend(env, link, a[1..], b, Next(env, link, a[0], c));
    }
  }

  lemma Exec1<M>(env: Env<M>, link: map<nat, nat>, p: Op, c: Control<M>)
    ensures Exec(env, link, [p], c) == Next(env, link, p, c)
  {
    assert [p][1..] == [];
  }

  lemma Exec2<M>(env: Env<M>, link: map<nat, nat>, p: Op, q: Op, c: Control<M>)
    ensures Exec(env, link, [p, q], c) == Next(env, link, q, Next(env, link, p, c))
  {
    assert [p, q][1..] == [q];
    Exec1(env, link, q, Next(env, link, p, c));
  }

  lemma Exec3<M>(env: Env<M>, link: map<nat, nat>, p: Op, q: Op, r: Op, c: Control<M>)
    ensures Exec(env, link, [p, q, r], c) == Next(env, link, r, Next(env, link, q, Next(env, link, p, c)))
  {
    assert [p, q, r][1..] == [q, r];
    Exec2(env, link, q, r, Next(env, link, p, c));
  }

  /** Code in which no label can catch the jump `j` lets it through. */
  lemma {:induction false} JumpPassesThrough<M>(env: Env<M>, link: map<nat, nat>, code: seq<Op>, j: nat, s: State<M>)
    requires forall i :: 0 <= i < |code| && code[i].Label? ==> !(j in link && link[j] == code[i].id)
    ensures Exec(env, link, code, Jumping(j, s)) == Jumping(j, s)
  {
    if code != [] {
      JumpPassesThrough(env, link, code[1..], j, s);
    }
  }

  /** Setting jumps to labels that do not occur in the code changes nothing about it. */
  lemma {:induction false} LinkingElsewhere<M>(env: Env<M>, link: map<nat, nat>, link': map<nat, nat>, code: seq<Op>,
                                               c: Control<M>)
    requires forall i :: 0 <= i < |code| && code[i].Label? ==>
      forall j :: (j in link && link[j] == code[i].id) <==> (j in link' && link'[j] == code[i].id)
    ensures Exec(env, link, code, c) == Exec(env, link', code, c)
  {
    if code != [] {
      assert Next(env, link, code[0], c) == Next(env, link', code[0], c);
      LinkingElsewhere(env, link, link', code[1..], Next(env, link, code[0], c));
    }
  }
}
