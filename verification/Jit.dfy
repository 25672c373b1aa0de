/**
 The block compiler `jit_compile_block`: it translates guest instructions one after the
 other until one ends the block, and its result agrees with the interpreter.
 */
module Jit {
  import opened Wrappers
  import opened Words
  import opened Interp
  import opened Ir
  import opened Emit

  /** A translated block: its code, its jumps, and how many instructions and exits it has. */
  datatype Block = Block(code: seq<Op>, link: map<nat, nat>, insns: nat, exits: nat)

  datatype Compiled = Uncompilable | Compiled(block: Block)

  /** Past this many recorded exits the compiler ends the block. */
  const EXIT_LIMIT: nat := 60

  /** `epilogue_jumps` has room for this many. */
  const EXIT_SLOTS: nat := 64

  // The scope of a run

  predicate StepInScope<M>(env: Env<M>, g: Guest<M>) {
    match env.fetch(g.pc)
    case Insn(w, _, _) => InScope(env, g, w)
    case _ => true
  }

  /** Every step the interpreter attempts within `n` is one on which the two are meant to agree. */
  predicate RunInScope<M>(env: Env<M>, g: Guest<M>, n: nat) {
    n == 0 || (RunInScope(env, g, n - 1) && (Run(env, g, n - 1).stop.None? ==> StepInScope(env, Run(env, g, n - 1).g)))
  }

  // What the code emitted so far does

  function PcAfter<M>(g: Guest<M>, lag: Option<Word>): Guest<M> {
    match lag case None => g case Some(pc) => g.(pc := pc)
  }

  /** The machine has done exactly what `p` says; stopped runs are on their way to the epilogue. */
  ghost predicate Matches<M>(c: Control<M>, p: Progress<M>, exits: set<nat>, lag: Option<Word>) {
    if p.stop.None? then c.Running? && c.s.count == ToWord(p.count) && c.s.g == PcAfter(p.g, lag)
    else c.Jumping? && c.j in exits && c.s.count == ToWord(p.count) && c.s.g == p.g
  }

  /** A guest about to enter the block; `s.count` and the scratch registers hold anything. */
  ghost predicate Enters<M>(fetch: Word -> Fetched, guestPc: Word, n: nat, env: Env<M>, s: State<M>) {
    env.fetch == fetch && s.g.pc == guestPc && s.g.x[0] == 0 && RunInScope(env, s.g, n)
  }

  ghost predicate Tracks<M(!new)>(fetch: Word -> Fetched, guestPc: Word, code: seq<Op>, link: map<nat, nat>,
                                  exits: set<nat>, n: nat, pc: Option<Word>, lag: Option<Word>)
  {
    forall env: Env<M>, s: State<M> :: Enters(fetch, guestPc, n, env, s) ==>
      TracksFrom(env, s, code, link, exits, n, pc, lag)
  }

  /** `pc` is the compiler's own pc, known as long as the block has not ended. */
  ghost predicate TracksFrom<M>(env: Env<M>, s: State<M>, code: seq<Op>, link: map<nat, nat>,
                                exits: set<nat>, n: nat, pc: Option<Word>, lag: Option<Word>)
  {
    var p := Run(env, s.g, n);
    && Matches(Exec(env, link, code, Running(s)), p, exits, lag)
    && (p.stop.None? ==> p.g.x[0] == 0 && (pc.Some? ==> p.g.pc == pc.value) && (lag.Some? ==> p.g.pc != lag.value))
  }

  // Bookkeeping of jump and label numbers

  ghost predicate Numbered(code: seq<Op>, link: map<nat, nat>, exits: set<nat>, jumps: nat, labels: nat) {
    && (forall j :: j in link ==> j < jumps && link[j] < labels)
    && (forall j :: j in exits ==> j < jumps && j !in link)
    && (forall i :: 0 <= i < |code| && code[i].Label? ==> code[i].id < labels)
  }

  const COUNT_ONE: Op := Op2(Add, false, Count, Count, Imm(1))

  /** The operations appended for one translated instruction. */
  function Chunk(e: Emission, cut: bool, next: Word): seq<Op> {
    e.ops + if e.ended || cut then [COUNT_ONE] else [COUNT_ONE, SetPc(next)]
  }

  function ExitsWith(exits: set<nat>, e: Emission): set<nat> {
    if e.exit.Some? then exits + {e.exit.value} else exits
  }

  /** Emission uses only numbers from `j` and `l` on, and exits through `j`. */
  predicate WellNumbered(e: Emission, j: nat, l: nat) {
    && (e.exit.Some? ==> e.exit.value == j && e.links == map[] && !e.ended)
    && (e.links != map[] ==> e.links == map[j := l, j + 1 := l + 1])
    && (forall i :: 0 <= i < |e.ops| && e.ops[i].Label? ==> l <= e.ops[i].id < l + 2 && e.links != map[])
    && (!e.supported ==> e.links == map[] && e.exit.None?)
  }

  lemma AluNumbers(w: InsnWord, j: nat, l: nat)
    ensures WellNumbered(EmitOp(w), j, l) && WellNumbered(EmitOpImm(w), j, l)
  {
  }

  lemma Alu32Numbers(w: InsnWord, j: nat, l: nat)
    ensures WellNumbered(EmitOp32(w), j, l) && WellNumbered(EmitOpImm32(w), j, l)
  {
  }

  lemma JumpNumbers(w: InsnWord, pc: Word, next: Word, v: Word, j: nat, l: nat)
    ensures WellNumbered(EmitConstant(w, v), j, l) && WellNumbered(EmitJal(w, pc, next), j, l)
    ensures WellNumbered(EmitJalr(w, next), j, l)
  {
  }

  lemma BranchNumbers(w: InsnWord, pc: Word, next: Word, j: nat, l: nat)
    ensures WellNumbered(EmitBranch(w, pc, next, j, l), j, l)
  {
    assert j in map[j := l, j + 1 := l + 1];
  }

  lemma LoadNumbers(w: InsnWord, pc: Word, j: nat, l: nat)
    ensures WellNumbered(EmitLoad(w, pc, j), j, l)
  {
  }

  lemma StoreNumbers(w: InsnWord, pc: Word, j: nat, l: nat)
    ensures WellNumbered(EmitStore(w, pc, j), j, l) && WellNumbered(EmitFp(w, pc, j), j, l)
  {
  }

  lemma EmissionNumbers(w: InsnWord, pc: Word, compressed: bool, j: nat, l: nat)
    ensures WellNumbered(EmitInsn(w, pc, compressed, j, l), j, l)
  {
    var next := Plus(pc, Length(compressed));
    AluNumbers(w, j, l);
    Alu32Numbers(w, j, l);
    JumpNumbers(w, pc, next, JitImmU(w), j, l);
    JumpNumbers(w, pc, next, Plus(pc, JitImmU(w)), j, l);
    BranchNumbers(w, pc, next, j, l);
    LoadNumbers(w, pc, j, l);
    StoreNumbers(w, pc, j, l);
  }

  /** The chunk of one instruction, from a running machine: one more interpreter step. */
  lemma ChunkRuns<M>(env: Env<M>, link: map<nat, nat>, w: InsnWord, compressed: bool, s: State<M>, n: nat,
                     j: nat, l: nat, cut: bool)
    requires s.g.x[0] == 0 && InScope(env, s.g, w) && s.count == ToWord(n)
    requires EmitInsn(w, s.g.pc, compressed, j, l).supported
    requires forall i :: i in EmitInsn(w, s.g.pc, compressed, j, l).links ==>
      i in link && link[i] == EmitInsn(w, s.g.pc, compressed, j, l).links[i]
    requires EmitInsn(w, s.g.pc, compressed, j, l).exit.Some? ==> j !in link
    requires cut ==> EmitInsn(w, s.g.pc, compressed, j, l).exit.Some?
    ensures var e := EmitInsn(w, s.g.pc, compressed, j, l);
            var next := Plus(s.g.pc, Length(compressed));
            var c := Exec(env, link, Chunk(e, cut, next), Running(s));
            var a := Execute(env, s.g, w, next);
            if a.Retire? then
              c.Running? && c.s.count == ToWord(n + 1) && c.s.g == if cut then a.g.(pc := s.g.pc) else a.g
            else e.exit.Some? && c == Jumping(j, c.s) && c.s.count == ToWord(n) && c.s.g == a.g
  {
    hide EmitInsn, Execute, InScope, Exec;
    var e := EmitInsn(w, s.g.pc, compressed, j, l);
    var next := Plus(s.g.pc, Length(compressed));
    var tail := if e.ended || cut then [COUNT_ONE] else [COUNT_ONE, SetPc(next)];
    InsnSimulates(env, link, w, compressed, s, j, l);
    EmissionNumbers(w, s.g.pc, compressed, j, l);
    ExecAppend(env, link, e.ops, tail, Running(s));
    var c := Exec(env, link, e.ops, Running(s));
    if c.Running? {
      CounterIncrement(n);
      ChunkTail(env, link, e.ended || cut, next, c.s);
      FallsThrough(env, s.g, w, next);
      JumpsEnd(w, s.g.pc, compressed, j, l);
    } else {
      JumpPassesThrough(env, link, tail, j, c.s);
    }
  }

  lemma ChunkTail<M>(env: Env<M>, link: map<nat, nat>, last: bool, next: Word, s: State<M>)
    ensures var c := Exec(env, link, if last then [COUNT_ONE] else [COUNT_ONE, SetPc(next)], Running(s));
            c.Running? && c.s.count == Plus(s.count, 1) && c.s.g == if last then s.g else s.g.(pc := next)
  {
    if last {
      Exec1(env, link, COUNT_ONE, Running(s));
    } else {
      Exec2(env, link, COUNT_ONE, SetPc(next), Running(s));
    }
  }

  /** Anything but a jump or a branch continues at the next instruction. */
  lemma FallsThrough<M>(env: Env<M>, g: Guest<M>, w: InsnWord, next: Word)
    ensures var a := Execute(env, g, w, next); var op := Opcode(w);
            a.Retire? && op != 0x6f && op != 0x67 && op != 0x63 ==> a.g.pc == next
  {
  }

  lemma JumpsEnd(w: InsnWord, pc: Word, compressed: bool, j: nat, l: nat)
    ensures var e, op := EmitInsn(w, pc, compressed, j, l), Opcode(w);
            e.supported && (op == 0x6f || op == 0x67 || op == 0x63) ==> e.ended && e.exit.None?
  {
  }

  // Growing the block

  lemma {:induction false} RunsStayInScope<M>(env: Env<M>, g: Guest<M>, w: InsnWord, next: Word)
    requires g.x[0] == 0 && InScope(env, g, w)
    ensures Execute(env, g, w, next).Retire? ==> Execute(env, g, w, next).g.x[0] == 0
  {
  }

  /** Links made for a later chunk do not affect the code so far, and leave the exits open. */
  lemma LaterLinks<M>(env: Env<M>, e: Emission, code: seq<Op>, link: map<nat, nat>, exits: set<nat>, j: nat, l: nat,
                      c: Control<M>)
    requires WellNumbered(e, j, l) && Numbered(code, link, exits, j, l)
    ensures Exec(env, link + e.links, code, c) == Exec(env, link, code, c)
    ensures forall i :: i in exits ==> i !in link + e.links
    ensures e.exit.Some? ==> j !in link + e.links
    ensures forall i :: i in e.links ==> (link + e.links)[i] == e.links[i]
  {
    LinkingElsewhere(env, link, link + e.links, code, c);
  }

  lemma StoppedStays<M>(env: Env<M>, s: State<M>, code: seq<Op>, link: map<nat, nat>, exits: set<nat>, more: set<nat>,
                        n: nat, chunk: seq<Op>, pc: Option<Word>, lag: Option<Word>)
    requires Run(env, s.g, n).stop.Some? && exits <= more && (forall i :: i in exits ==> i !in link)
    requires Matches(Exec(env, link, code, Running(s)), Run(env, s.g, n), exits, None)
    ensures TracksFrom(env, s, code + chunk, link, more, n + 1, pc, lag)
  {
    var c := Exec(env, link, code, Running(s));
    ExecAppend(env, link, code, chunk, Running(s));
    JumpPassesThrough(env, link, chunk, c.j, c.s);
  }

  /** The state in which the next instruction is translated, and the one it leads to. */
  lemma RunningGrows<M>(env: Env<M>, s: State<M>, code: seq<Op>, link: map<nat, nat>, exits: set<nat>, n: nat,
                        w: InsnWord, compressed: bool, j: nat, l: nat, cut: bool)
    requires var p := Run(env, s.g, n);
             && p.stop.None? && p.g.x[0] == 0 && InScope(env, p.g, w) && env.fetch(p.g.pc) == Insn(w, compressed, true)
             && Matches(Exec(env, link, code, Running(s)), p, exits, None)
             && var e := EmitInsn(w, p.g.pc, compressed, j, l);
             && e.supported && (cut ==> e.exit.Some?) && (e.exit.Some? ==> j !in link && e.exit.value == j && !e.ended)
             && (forall i :: i in e.links ==> i in link && link[i] == e.links[i])
    ensures var p := Run(env, s.g, n);
            var e, next := EmitInsn(w, p.g.pc, compressed, j, l), Plus(p.g.pc, Length(compressed));
            TracksFrom(env, s, code + Chunk(e, cut, next), link, ExitsWith(exits, e), n + 1,
                       if e.ended || cut then None else Some(next), if cut then Some(p.g.pc) else None)
  {
    hide Execute, EmitInsn;
    var p := Run(env, s.g, n);
    var e, next := EmitInsn(w, p.g.pc, compressed, j, l), Plus(p.g.pc, Length(compressed));
    ExecAppend(env, link, code, Chunk(e, cut, next), Running(s));
    RunsStayInScope(env, p.g, w, next);
    if !e.ended {
      ContinuesAt(env, p.g, w, p.g.pc, compressed, j, l);
    }
    ChunkRuns(env, link, w, compressed, Exec(env, link, code, Running(s)).s, n, j, l, cut);
  }

  /** One more translated instruction, for one guest. */
  lemma GrowsFrom<M>(env: Env<M>, s: State<M>, fetch: Word -> Fetched, guestPc: Word, code: seq<Op>,
                     link: map<nat, nat>,
                     exits: set<nat>, n: nat, pc: Word, w: InsnWord, compressed: bool, j: nat, l: nat, cut: bool)
    requires Enters(fetch, guestPc, n + 1, env, s) && fetch(pc) == Insn(w, compressed, true)
    requires TracksFrom(env, s, code, link, exits, n, Some(pc), None) && Numbered(code, link, exits, j, l)
    requires EmitInsn(w, pc, compressed, j, l).supported && (cut ==> EmitInsn(w, pc, compressed, j, l).exit.Some?)
    ensures var e := EmitInsn(w, pc, compressed, j, l);
            var next := Plus(pc, Length(compressed));
            TracksFrom(env, s, code + Chunk(e, cut, next), link + e.links, ExitsWith(exits, e), n + 1,
                       if e.ended || cut then None else Some(next), if cut then Some(pc) else None)
  {
    var e := EmitInsn(w, pc, compressed, j, l);
    EmissionNumbers(w, pc, compressed, j, l);
    LaterLinks(env, e, code, link, exits, j, l, Running(s));
    if Run(env, s.g, n).stop.None? {
      RunningGrows(env, s, code, link + e.links, exits, n, w, compressed, j, l, cut);
    } else {
      var next := Plus(pc, Length(compressed));
      StoppedStays(env, s, code, link + e.links, exits, ExitsWith(exits, e), n, Chunk(e, cut, next),
                   if e.ended || cut then None else Some(next), if cut then Some(pc) else None);
    }
  }

  lemma ContinuesAt<M>(env: Env<M>, g: Guest<M>, w: InsnWord, pc: Word, compressed: bool, j: nat, l: nat)
    requires g.pc == pc && EmitInsn(w, pc, compressed, j, l).supported && !EmitInsn(w, pc, compressed, j, l).ended
    ensures var next := Plus(pc, Length(compressed));
            var a := Execute(env, g, w, next);
            a.Retire? ==> a.g.pc == next
  {
    FallsThrough(env, g, w, Plus(pc, Length(compressed)));
  }

  lemma Grows<M(!new)>(fetch: Word -> Fetched, guestPc: Word, code: seq<Op>, link: map<nat, nat>, exits: set<nat>,
                       n: nat, pc: Word, w: InsnWord, compressed: bool, j: nat, l: nat, cut: bool)
    requires fetch(pc) == Insn(w, compressed, true) && Numbered(code, link, exits, j, l)
    requires Tracks<M>(fetch, guestPc, code, link, exits, n, Some(pc), None)
    requires EmitInsn(w, pc, compressed, j, l).supported && (cut ==> EmitInsn(w, pc, compressed, j, l).exit.Some?)
    ensures var e := EmitInsn(w, pc, compressed, j, l);
            var next := Plus(pc, Length(compressed));
            && Tracks<M>(fetch, guestPc, code + Chunk(e, cut, next), link + e.links, ExitsWith(exits, e), n + 1,
                         if e.ended || cut then None else Some(next), if cut then Some(pc) else None)
            && Numbered(code + Chunk(e, cut, next), link + e.links, ExitsWith(exits, e), j + 2, l + 2)
  {
    var e, m := EmitInsn(w, pc, compressed, j, l), n + 1;
    forall env: Env<M>, s: State<M> | Enters(fetch, guestPc, m, env, s)
      ensures TracksFrom(env, s, code + Chunk(e, cut, Plus(pc, Length(compressed))), link + e.links,
                         ExitsWith(exits, e), m, if e.ended || cut then None else Some(Plus(pc, Length(compressed))),
                         if cut then Some(pc) else None)
    {
      assert Enters(fetch, guestPc, n, env, s);
      GrowsFrom(env, s, fetch, guestPc, code, link, exits, n, pc, w, compressed, j, l, cut);
    }
    EmissionNumbers(w, pc, compressed, j, l);
  }

  /** What an untranslatable instruction may already have emitted: loads of scratch registers. */
  lemma LeftoversAreHarmless<M>(env: Env<M>, link: map<nat, nat>, w: InsnWord, pc: Word, compressed: bool, j: nat,
                                l: nat, c: Control<M>)
    requires !EmitInsn(w, pc, compressed, j, l).supported && (c.Jumping? ==> c.j !in link)
    ensures var d := Exec(env, link, EmitInsn(w, pc, compressed, j, l).ops, c);
            if c.Running? then d == Running(d.s) && d.s.g == c.s.g && d.s.count == c.s.count else d == c
  {
    var ops := EmitInsn(w, pc, compressed, j, l).ops;
    if |ops| == 1 {
      Exec1(env, link, ops[0], c);
    } else if |ops| == 2 {
      assert ops == [ops[0], ops[1]];
      Exec2(env, link, ops[0], ops[1], c);
    }
  }

  lemma Leftovers<M(!new)>(fetch: Word -> Fetched, guestPc: Word, code: seq<Op>, link: map<nat, nat>, exits: set<nat>,
                           n: nat, pc: Word, w: InsnWord, compressed: bool, j: nat, l: nat)
    requires Numbered(code, link, exits, j, l) && !EmitInsn(w, pc, compressed, j, l).supported
    requires Tracks<M>(fetch, guestPc, code, link, exits, n, Some(pc), None)
    ensures var ops := EmitInsn(w, pc, compressed, j, l).ops;
            && Tracks<M>(fetch, guestPc, code + ops, link, exits, n, Some(pc), None)
            && Numbered(code + ops, link, exits, j, l)
  {
    var ops := EmitInsn(w, pc, compressed, j, l).ops;
    forall env: Env<M>, s: State<M> | Enters(fetch, guestPc, n, env, s)
      ensures TracksFrom(env, s, code + ops, link, exits, n, Some(pc), None)
    {
      assert TracksFrom(env, s, code, link, exits, n, Some(pc), None);
      ExecAppend(env, link, code, ops, Running(s));
      LeftoversAreHarmless(env, link, w, pc, compressed, j, l, Exec(env, link, code, Running(s)));
    }
    EmissionNumbers(w, pc, compressed, j, l);
  }

  lemma Prologue<M(!new)>(fetch: Word -> Fetched, guestPc: Word)
    ensures Tracks<M>(fetch, guestPc, [Mov(Full, R(Count), Imm(0))], map[], {}, 0, Some(guestPc), None)
  {
    forall env: Env<M>, s: State<M> | Enters(fetch, guestPc, 0, env, s)
      ensures TracksFrom(env, s, [Mov(Full, R(Count), Imm(0))], map[], {}, 0, Some(guestPc), None)
    {
      Exec1(env, map[], Mov(Full, R(Count), Imm(0)), Running(s));
    }
  }

  // The finished block

  function Epilogue(id: nat): seq<Op> {
    [Label(id), Mov(Full, R(R0), R(Count)), Return]
  }

  /** Entered at `guestPc`, the block returns the number of completed instructions and leaves the
      registers, memory and pc that so many interpreter steps leave; a stopped run leaves the state
      in which the interpreter takes its trap. Only a cut block that ran to its end differs: its pc
      is still that of its last instruction, the pc in `lag`. */
  ghost predicate Agrees<M(!new)>(fetch: Word -> Fetched, guestPc: Word, b: Block, lag: Option<Word>) {
    forall env: Env<M>, s: State<M> :: Enters(fetch, guestPc, b.insns, env, s) ==>
      AgreesFrom(env, s, b, lag)
  }

  ghost predicate AgreesFrom<M>(env: Env<M>, s: State<M>, b: Block, lag: Option<Word>) {
    var p := Run(env, s.g, b.insns);
    var c := Exec(env, b.link, b.code, Running(s));
    && c == Returned(ToWord(p.count), c.s)
    && c.s.g == (if p.stop.None? then PcAfter(p.g, lag) else p.g)
    && (p.stop.None? && lag.Some? ==> p.g.pc != lag.value)
  }

  lemma Finishes<M(!new)>(fetch: Word -> Fetched, guestPc: Word, code: seq<Op>, link: map<nat, nat>,
                          link': map<nat, nat>,
                          exits: set<nat>, n: nat, pc: Option<Word>, lag: Option<Word>, jumps: nat, labels: nat,
                          slots: nat)
    requires Tracks<M>(fetch, guestPc, code, link, exits, n, pc, lag) && Numbered(code, link, exits, jumps, labels)
    requires forall j :: j in link' <==> j in link || j in exits
    requires forall j :: j in link' ==> link'[j] == if j in exits then labels else link[j]
    ensures Agrees<M>(fetch, guestPc, Block(code + Epilogue(labels), link', n, slots), lag)
  {
    var b := Block(code + Epilogue(labels), link', n, slots);
    forall env: Env<M>, s: State<M> | Enters(fetch, guestPc, n, env, s)
      ensures AgreesFrom(env, s, b, lag)
    {
      assert TracksFrom(env, s, code, link, exits, n, pc, lag);
      LinkingElsewhere(env, link, link', code, Running(s));
      ExecAppend(env, link', code, Epilogue(labels), Running(s));
      var c := Exec(env, link', code, Running(s));
      Exec3(env, link', Label(labels), Mov(Full, R(R0), R(Count)), Return, c);
    }
  }

  // Where a block ends

  /** The pc of the block's `k`-th instruction when the ones before it fall through. */
  function PcAt(fetch: Word -> Fetched, guestPc: Word, k: nat): Word {
    if k == 0 then guestPc else
    var pc := PcAt(fetch, guestPc, k - 1);
    Plus(pc, Length(fetch(pc).Insn? && fetch(pc).compressed))
  }

  predicate HasExit(op: Word) {
    op == 0x03 || op == 0x23 || IsFp(op)
  }

  predicate EndsBlock(op: Word) {
    op == 0x6f || op == 0x67 || op == 0x63
  }

  predicate Supported(w: InsnWord) {
    var op, f3 := Opcode(w), Funct3(w);
    || op == 0x33 || op == 0x13 || op == 0x37 || op == 0x17 || op == 0x6f || op == 0x67 || HasExit(op)
    || ((op == 0x3b || op == 0x1b) && (f3 == 0 || f3 == 1 || f3 == 5))
    || (op == 0x63 && f3 != 2 && f3 != 3)
  }

  predicate Translatable(f: Fetched, disabled: Word -> bool) {
    f.Insn? && f.whole && !disabled(Opcode(f.word)) && Supported(f.word)
  }

  function ExitsUpTo(fetch: Word -> Fetched, guestPc: Word, n: nat): nat {
    if n == 0 then 0 else
    var f := fetch(PcAt(fetch, guestPc, n - 1));
    ExitsUpTo(fetch, guestPc, n - 1) + if f.Insn? && HasExit(Opcode(f.word)) then 1 else 0
  }

  predicate LastAt(fetch: Word -> Fetched, guestPc: Word, k: nat) {
    var f := fetch(PcAt(fetch, guestPc, k));
    (f.Insn? && EndsBlock(Opcode(f.word))) || ExitsUpTo(fetch, guestPc, k + 1) > EXIT_LIMIT
  }

  /** `n` translatable instructions of which only the last may end the block, and a reason to stop there. */
  predicate IsBlockLength(fetch: Word -> Fetched, disabled: Word -> bool, maxInsns: nat, guestPc: Word, n: nat) {
    && n <= maxInsns
    && (forall k :: 0 <= k < n ==> Translatable(fetch(PcAt(fetch, guestPc, k)), disabled))
    && (forall k :: 0 <= k < n - 1 ==> !LastAt(fetch, guestPc, k))
    && (n == maxInsns || (n > 0 && LastAt(fetch, guestPc, n - 1))
      || !Translatable(fetch(PcAt(fetch, guestPc, n)), disabled))
  }

  /** The part of `IsBlockLength` that holds while the block grows. */
  predicate IsPrefix(fetch: Word -> Fetched, disabled: Word -> bool, guestPc: Word, n: nat, ended: bool) {
    && (forall k :: 0 <= k < n ==> Translatable(fetch(PcAt(fetch, guestPc, k)), disabled))
    && (forall k :: 0 <= k < n - 1 ==> !LastAt(fetch, guestPc, k))
    && ended == (n > 0 && LastAt(fetch, guestPc, n - 1))
  }

  lemma PrefixGrows(fetch: Word -> Fetched, disabled: Word -> bool, guestPc: Word, n: nat, last: bool)
    requires IsPrefix(fetch, disabled, guestPc, n, false)
    requires Translatable(fetch(PcAt(fetch, guestPc, n)), disabled)
    requires ExitsUpTo(fetch, guestPc, n) <= EXIT_LIMIT
    ensures var f, exits := fetch(PcAt(fetch, guestPc, n)), ExitsUpTo(fetch, guestPc, n + 1);
            && exits == ExitsUpTo(fetch, guestPc, n) + (if HasExit(Opcode(f.word)) then 1 else 0)
            && PcAt(fetch, guestPc, n + 1) == Plus(PcAt(fetch, guestPc, n), Length(f.compressed))
            && (last == (EndsBlock(Opcode(f.word)) || exits > EXIT_LIMIT)
              ==> IsPrefix(fetch, disabled, guestPc, n + 1, last))
  {
  }

  lemma PrefixIsLength(fetch: Word -> Fetched, disabled: Word -> bool, maxInsns: nat, guestPc: Word, n: nat,
                       ended: bool)
    requires IsPrefix(fetch, disabled, guestPc, n, ended) && n <= maxInsns
    requires n == maxInsns || ended || !Translatable(fetch(PcAt(fetch, guestPc, n)), disabled)
    ensures IsBlockLength(fetch, disabled, maxInsns, guestPc, n)
  {
  }

  lemma EmptyPrefix(fetch: Word -> Fetched, disabled: Word -> bool, guestPc: Word)
    ensures IsPrefix(fetch, disabled, guestPc, 0, false) && ExitsUpTo(fetch, guestPc, 0) == 0
            && PcAt(fetch, guestPc, 0) == guestPc
  {
  }

  lemma SlotsSuffice()
    ensures EXIT_LIMIT + 1 <= EXIT_SLOTS
  {
  }

  lemma TranslatableParts(f: Fetched, disabled: Word -> bool)
    ensures Translatable(f, disabled) <==> f.Insn? && f.whole && !disabled(Opcode(f.word)) && Supported(f.word)
  {
  }

  lemma NoExits(a: seq<nat>)
    requires a == []
    ensures FirstOf(a) == {}
  {
  }

  lemma FirstOfSnoc(a: seq<nat>, x: nat)
    ensures FirstOf(a + [x]) == FirstOf(a) + {x}
  {
    forall y | y in FirstOf(a) + {x} ensures y in FirstOf(a + [x]) {
      if y == x {
        assert (a + [x])[|a|] == x;
      } else {
        var i :| 0 <= i < |a| && a[i] == y;
        assert (a + [x])[i] == y;
      }
    }
  }

  lemma SupportedIsEmitted(w: InsnWord, pc: Word, compressed: bool, j: nat, l: nat)
    ensures var e := EmitInsn(w, pc, compressed, j, l);
            && e.supported == Supported(w)
            && (e.supported ==> e.exit.Some? == HasExit(Opcode(w)) && e.ended == EndsBlock(Opcode(w)))
  {
  }

  /** The sljit compiler object: code is appended, jumps are set to labels. */
  class Compiler {
    var code: seq<Op>
    var link: map<nat, nat>
    var jumps: nat
    var labels: nat

    constructor ()
      ensures code == [] && link == map[] && jumps == 0 && labels == 0
    {
      code, link, jumps, labels := [], map[], 0, 0;
    }

    method Append(ops: seq<Op>)
      modifies this`code
      ensures code == old(code) + ops
    {
      code := code + ops;
    }

    method SetLabel(j: nat, l: nat)
      modifies this`link
      ensures link == old(link)[j := l]
    {
      link := link[j := l];
    }

    /** Emit one instruction and reserve the jump and label numbers it may use. */
    method Emit(w: InsnWord, pc: Word, compressed: bool) returns (e: Emission)
      modifies this
      ensures e == EmitInsn(w, pc, compressed, old(jumps), old(labels))
      ensures code == old(code) + e.ops && link == old(link) + e.links
      ensures jumps == old(jumps) + 2 && labels == old(labels) + 2
    {
      e := EmitInsn(w, pc, compressed, jumps, labels);
      code, link := code + e.ops, link + e.links;
      jumps, labels := jumps + 2, labels + 2;
    }
  }

  ghost function FirstOf(a: seq<nat>): set<nat> {
    set i | 0 <= i < |a| :: a[i]
  }

  /** Everything known about a block under construction. */
  ghost predicate Growing<M(!new)>(fetch: Word -> Fetched, guestPc: Word, c: Compiler, exits: set<nat>, n: nat,
                                   pc: Option<Word>, lag: Option<Word>)
    reads c
  {
    Tracks<M>(fetch, guestPc, c.code, c.link, exits, n, pc, lag) && Numbered(c.code, c.link, exits, c.jumps, c.labels)
  }

  lemma StartsGrowing<M(!new)>(fetch: Word -> Fetched, guestPc: Word, c: Compiler)
    requires c.code == [] + [Mov(Full, R(Count), Imm(0))] && c.link == map[]
    ensures Growing<M>(fetch, guestPc, c, {}, 0, Some(guestPc), None)
  {
    Prologue<M>(fetch, guestPc);
    assert c.code == [Mov(Full, R(Count), Imm(0))];
  }

  /** One turn of the compiler's loop after the fetch: emit, decide whether the block ends, count. */
  method Translate<M(!new)>(c: Compiler, fetch: Word -> Fetched, ghost guestPc: Word, ghost exits: set<nat>,
                            ghost n: nat, pc: Word, w: InsnWord, compressed: bool, numExits: nat)
    returns (exit: Option<nat>, supported: bool, ended: bool)
    requires fetch(pc) == Insn(w, compressed, true) && Growing<M>(fetch, guestPc, c, exits, n, Some(pc), None)
    modifies c
    ensures supported == Supported(w)
    ensures !supported ==> Growing<M>(fetch, guestPc, c, exits, n, Some(pc), None)
    ensures supported ==>
      var cut := HasExit(Opcode(w)) && numExits + 1 > EXIT_LIMIT;
      && exit.Some? == HasExit(Opcode(w)) && ended == (EndsBlock(Opcode(w)) || cut)
      && Growing<M>(fetch, guestPc, c, if exit.Some? then exits + {exit.value} else exits, n + 1,
                    if ended then None else Some(Plus(pc, Length(compressed))), if cut then Some(pc) else None)
  {
    hide EmitInsn, Execute, Tracks;
    ghost var code, link, j, l := c.code, c.link, c.jumps, c.labels;
    var e := c.Emit(w, pc, compressed);
    SupportedIsEmitted(w, pc, compressed, j, l);
    EmissionNumbers(w, pc, compressed, j, l);
    exit, supported := e.exit, e.supported;
    if !supported {
      Leftovers<M>(fetch, guestPc, code, link, exits, n, pc, w, compressed, j, l);
      assert link + e.links == link;
      return exit, supported, false;
    }
    var cut := exit.Some? && numExits + 1 > EXIT_LIMIT;
    ended := e.ended || cut;
    Grows<M>(fetch, guestPc, code, link, exits, n, pc, w, compressed, j, l, cut);
    c.Append([COUNT_ONE]);
    if !ended {
      c.Append([SetPc(Plus(pc, Length(compressed)))]);
    }
    assert c.code == code + Chunk(e, cut, Plus(pc, Length(compressed)));
  }

  /** Emit the epilogue and set every recorded jump to it. */
  method Finish<M(!new)>(c: Compiler, epilogueJumps: array<nat>, numExits: nat, insns: nat,
                         ghost fetch: Word -> Fetched,
                         ghost guestPc: Word, ghost pc: Option<Word>, ghost lag: Option<Word>)
    returns (b: Block)
    requires numExits <= epilogueJumps.Length
    requires Growing<M>(fetch, guestPc, c, FirstOf(epilogueJumps[..numExits]), insns, pc, lag)
    modifies c
    ensures b.insns == insns && b.exits == numExits
    ensures Agrees<M>(fetch, guestPc, b, lag)
  {
    var epilogue := c.labels;
    ghost var body, link := c.code, c.link;
    c.Append(Epilogue(epilogue));
    for i := 0 to numExits
      invariant forall j :: j in c.link <==> j in link || j in FirstOf(epilogueJumps[..i])
      invariant forall j :: j in c.link ==> c.link[j] == if j in FirstOf(epilogueJumps[..i]) then epilogue else link[j]
      invariant c.code == body + Epilogue(epilogue) && c.labels == epilogue && c.jumps == old(c.jumps)
    {
      c.SetLabel(epilogueJumps[i], epilogue);
      assert epilogueJumps[..i + 1] == epilogueJumps[..i] + [epilogueJumps[i]];
    }
    Finishes<M>(fetch, guestPc, body, link, c.link, FirstOf(epilogueJumps[..numExits]), insns, pc, lag, c.jumps,
                epilogue, numExits);
    b := Block(c.code, c.link, insns, numExits);
  }

  method CompileBlock<M(!new)>(fetch: Word -> Fetched, disabled: Word -> bool, maxInsns: nat, guestPc: Word)
    returns (r: Compiled)
    requires maxInsns > 0
    ensures r.Uncompilable? ==> fetch(guestPc).BadCompressed? || (fetch(guestPc).Insn? && fetch(guestPc).whole
                                && !Translatable(fetch(guestPc), disabled))
    ensures r.Compiled? ==>
      var b := r.block;
      && IsBlockLength(fetch, disabled, maxInsns, guestPc, b.insns)
      && b.exits == ExitsUpTo(fetch, guestPc, b.insns) <= EXIT_SLOTS
      && (b.exits > EXIT_LIMIT ==> b.insns > 0)
      && Agrees<M>(fetch, guestPc, b, if b.exits > EXIT_LIMIT then Some(PcAt(fetch, guestPc, b.insns - 1)) else None)
  {
    hide *;
    var c := new Compiler();
    c.Append([Mov(Full, R(Count), Imm(0))]);
    StartsGrowing<M>(fetch, guestPc, c);
    var pc, insns, ended := guestPc, 0, false;
    var epilogueJumps := new nat[EXIT_SLOTS];
    var numExits := 0;
    ghost var lag: Option<Word> := None;
    EmptyPrefix(fetch, disabled, guestPc);
    SlotsSuffice();
    NoExits(epilogueJumps[..numExits]);
    while insns < maxInsns && !ended
      invariant numExits == ExitsUpTo(fetch, guestPc, insns) <= EXIT_LIMIT + 1 && (!ended ==> numExits <= EXIT_LIMIT)
      invariant Growing<M>(fetch, guestPc, c, FirstOf(epilogueJumps[..numExits]), insns,
                           if ended then None else Some(pc), lag)
      invariant insns <= maxInsns && (!ended ==> pc == PcAt(fetch, guestPc, insns))
      invariant numExits > EXIT_LIMIT ==> insns > 0
      invariant lag == if numExits > EXIT_LIMIT then Some(PcAt(fetch, guestPc, insns - 1)) else None
      invariant IsPrefix(fetch, disabled, guestPc, insns, ended)
      decreases maxInsns - insns, if ended then 0 else 1
    {
      var f := fetch(pc);
      TranslatableParts(f, disabled);
      if f.FetchFault? || (f.Insn? && !f.whole) { break; }
      if f.BadCompressed? || disabled(Opcode(f.word)) {
        if insns == 0 { return Uncompilable; }
        break;
      }
      ghost var exits := epilogueJumps[..numExits];
      var exit, supported, last := Translate<M>(c, fetch, guestPc, FirstOf(exits), insns, pc, f.word, f.compressed,
                                                numExits);
      if !supported {
        if insns == 0 { return Uncompilable; }
        break;
      }
      PrefixGrows(fetch, disabled, guestPc, insns, last);
      if exit.Some? {
        epilogueJumps[numExits] := exit.value;
        numExits := numExits + 1;
        assert epilogueJumps[..numExits] == exits + [exit.value];
        FirstOfSnoc(exits, exit.value);
        if numExits > EXIT_LIMIT { lag := Some(pc); }
      }
      insns, ended := insns + 1, last;
      if !ended { pc := Plus(pc, Length(f.compressed)); }
    }
    PrefixIsLength(fetch, disabled, maxInsns, guestPc, insns, ended);
    var b := Finish<M>(c, epilogueJumps, numExits, insns, fetch, guestPc, if ended then None else Some(pc), lag);
    r := Compiled(b);
  }

  // The interpreter takes over

  /** If the access of the instruction at hand faults, repeating it right away faults again, with the same
      code and no further effect. */
  predicate StableFault<M(==)>(env: Env<M>, g: Guest<M>) {
    match env.fetch(g.pc)
    case Insn(w, _, _) =>
      var op := Opcode(w);
      && (op == 0x03 ==> StableLoad(env, g.mem, Plus(g.x[Rs1(w)], ImmI(w)), Size(Funct3(w))))
      && (op == 0x23 ==> StableStore(env, g.mem, Plus(g.x[Rs1(w)], ImmS(w)), Size(Funct3(w)), g.x[Rs2(w)]))
      && (IsFp(op) ==> StableFp(env, g, w))
    case _ => true
  }

  predicate StableLoad<M(==)>(env: Env<M>, m: M, addr: Word, size: Word) {
    var a := env.load(m, addr, size);
    a.exc != 0 ==> env.load(a.mem, addr, size).exc == a.exc && env.load(a.mem, addr, size).mem == a.mem
  }

  predicate StableStore<M(==)>(env: Env<M>, m: M, addr: Word, size: Word, v: Word) {
    var a := env.store(m, addr, size, v);
    a.exc != 0 ==> env.store(a.mem, addr, size, v).exc == a.exc && env.store(a.mem, addr, size, v).mem == a.mem
  }

  predicate StableFp<M(==)>(env: Env<M>, g: Guest<M>, w: InsnWord) {
    var f := env.fp(g, w);
    f.FpIllegal? ==> env.fp(f.g, w) == f && f.g.pc == g.pc
  }

  /** After a block has stopped early, `rv64_step` raises, from the state the block left, the very
      trap the interpreter would have raised had it run alone, and in the same state; stability is asked
      of the one access at which the run stopped. */
  lemma InterpreterRaisesTheTrap<M>(env: Env<M>, g: Guest<M>, n: nat)
    requires Run(env, g, n).stop.Some? && Run(env, g, n).stop.value.Raise?
    requires StableFault(env, Run(env, g, Run(env, g, n).count).g)
    ensures Step(env, Run(env, g, n).g) == Run(env, g, n).stop.value
    ensures Run(env, g, n).stop.value.g == Run(env, g, n).g
    decreases n
  {
    hide Step, StableFault;
    if Run(env, g, n - 1).stop.Some? {
      InterpreterRaisesTheTrap(env, g, n - 1);
    } else {
      RaisesAgain(env, Run(env, g, n - 1).g);
    }
  }

  lemma RaisesAgain<M>(env: Env<M>, g: Guest<M>)
    requires StableFault(env, g) && Step(env, g).Raise?
    ensures Step(env, Step(env, g).g) == Step(env, g) && Step(env, g).g.pc == g.pc
  {
  }

  // Where the two executors part

  /** MUL x3, x1, x2 of 2 and 3: the interpreter multiplies, the block adds. */
  lemma MultiplicationDiverges<M>(env: Env<M>, s: State<M>, next: Word)
    requires s.g.x[0] == 0 && s.g.x[1] == 2 && s.g.x[2] == 3
    ensures EmitInsn(0x022081b3, s.g.pc, false, 0, 0).supported
    ensures !Simulates(env, map[], EmitInsn(0x022081b3, s.g.pc, false, 0, 0), s, Execute(env, s.g, 0x022081b3, next))
  {
    hide Simulates, Execute;
    var w: InsnWord := 0x022081b3;
    assert Opcode(w) == 0x33 && Funct3(w) == 0 && Funct7(w) == 1 && Rd(w) == 3 && Rs1(w) == 1 && Rs2(w) == 2;
    OpSimulates(env, map[], w, s, next);
  }

  lemma LbuFields()
    ensures var w: InsnWord := 0x0000c183;
            Opcode(w) == 0x03 && Funct3(w) == 4 && Rd(w) == 3 && Rs1(w) == 1 && ImmI(w) == 0
  {
  }

  /** LBU x3, 0(x1) of a device register that answers with more than a byte: the interpreter keeps
      all of it, the block the low byte. */
  lemma WideByteLoadDiverges<M>(env: Env<M>, s: State<M>, next: Word)
    requires s.g.x[0] == 0 && env.load(s.g.mem, s.g.x[1], 1).exc == 0 && env.load(s.g.mem, s.g.x[1], 1).val == 0x100
    ensures !Simulates(env, map[], EmitInsn(0x0000c183, s.g.pc, false, 0, 0), s, Execute(env, s.g, 0x0000c183, next))
  {
    hide Simulates, Execute, Opcode, Funct3, Rd, Rs1, ImmI, EmitLoad;
    LbuFields();
    LoadSimulates(env, map[], 0x0000c183, s, next, 0);
  }

  // A block cut by the limit on exits

  /** Code that is nothing but LD x0, 0(x0). */
  function OnlyLoads(pc: Word): Fetched { Insn(0x3003, false, true) }

  function NoneDisabled(op: Word): bool { false }

  lemma {:induction false} LoadsHaveExits(pc: Word, n: nat)
    ensures ExitsUpTo(OnlyLoads, pc, n) == n
  {
    if n > 0 {
      LoadsHaveExits(pc, n - 1);
    }
  }

  /** With the default limit of 64 instructions the block is cut after 61. */
  lemma LoadsBlockLength(pc: Word, n: nat)
    ensures IsBlockLength(OnlyLoads, NoneDisabled, 64, pc, n) <==> n == 61
  {
    hide PcAt, ExitsUpTo;
    forall k: nat ensures LastAt(OnlyLoads, pc, k) <==> k >= 60 {
      LoadsHaveExits(pc, k + 1);
    }
    assert Supported(0x3003);
    if n > 61 {
      assert LastAt(OnlyLoads, pc, 60);
    }
  }

  ghost predicate NeverFaults<M(!new)>(env: Env<M>) {
    forall m, addr, size :: env.load(m, addr, size).exc == 0
  }

  lemma {:induction false} LoadsRun<M(!new)>(env: Env<M>, g: Guest<M>, n: nat)
    requires env.fetch == OnlyLoads && NeverFaults(env) && g.x[0] == 0
    ensures var p := Run(env, g, n);
            && p.stop.None? && p.g.pc == PcAt(OnlyLoads, g.pc, n) && p.g.x == g.x && RunInScope(env, g, n)
  {
    hide Step, StepInScope;
    if n > 0 {
      LoadsRun(env, g, n - 1);
      var h := Run(env, g, n - 1).g;
      LoadStep(env, h);
    }
  }

  lemma LoadStep<M(!new)>(env: Env<M>, h: Guest<M>)
    requires env.fetch == OnlyLoads && NeverFaults(env) && h.x[0] == 0
    ensures Step(env, h).Retire? && Step(env, h).g.pc == Plus(h.pc, 4) && Step(env, h).g.x == h.x && StepInScope(env, h)
  {
    var w: InsnWord := 0x3003;
    assert Opcode(w) == 0x03 && Funct3(w) == 3 && Rd(w) == 0 && Rs1(w) == 0;
  }

  /** Such a block, compiled with the default limit, claims all 61 loads and leaves the pc of the last. */
  lemma CutBlockLeavesStalePc<M(!new)>(env: Env<M>, s: State<M>, pc: Word, b: Block)
    requires env.fetch == OnlyLoads && NeverFaults(env) && s.g.x[0] == 0 && s.g.pc == pc
    requires IsBlockLength(OnlyLoads, NoneDisabled, 64, pc, b.insns) && b.exits == ExitsUpTo(OnlyLoads, pc, b.insns)
    requires Agrees<M>(OnlyLoads, pc, b, if b.exits > EXIT_LIMIT then Some(PcAt(OnlyLoads, pc, b.insns - 1)) else None)
    ensures var c := Exec(env, b.link, b.code, Running(s));
            && c == Returned(61, c.s) && c.s.g.pc == PcAt(OnlyLoads, pc, 60)
            && Run(env, s.g, 61).g.pc == PcAt(OnlyLoads, pc, 61) != c.s.g.pc
  {
    hide Exec, IsBlockLength, Step, PcAt, RunInScope, StepInScope;
    LoadsBlockLength(pc, b.insns);
    LoadsHaveExits(pc, 61);
    LoadsRun(env, s.g, 61);
    assert Enters(OnlyLoads, pc, 61, env, s);
    assert AgreesFrom(env, s, b, Some(PcAt(OnlyLoads, pc, 60)));
  }
}
