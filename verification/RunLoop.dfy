/**
 The run loop with its block cache: whichever instructions run translated and whichever interpreted,
 the guest stays on the path of pure interpretation, traps included.
 */
module RunLoop {
  import opened Wrappers
  import opened Words
  import opened Interp
  import opened Ir
  import opened Emit
  import opened Jit
  import Hart

  const CACHE_SIZE: nat := 0x1_0000

  /** A valid entry of the block cache; without a block, the pc is known not to be translatable. */
  datatype Slot = Slot(guestPc: Word, block: Option<Block>)

  /** `trap`, from the state, cause and value of a step that raises. */
  type Trap<!M> = (Guest<M>, Word, Word) -> Guest<M>

  // Runs of the interpreter

  lemma {:induction false} RunAdd<M>(env: Env<M>, g: Guest<M>, n: nat, k: nat)
    requires Run(env, g, n).stop.None?
    ensures var p := Run(env, Run(env, g, n).g, k); Run(env, g, n + k) == Progress(n + p.count, p.g, p.stop)
  {
    hide Step;
    if k > 0 {
      RunAdd(env, g, n, k - 1);
    }
  }

  /** A run that has stopped does not go on. */
  lemma {:induction false} StopStays<M>(env: Env<M>, g: Guest<M>, n: nat, k: nat)
    requires Run(env, g, n).stop.Some?
    ensures Run(env, g, n + k) == Run(env, g, n)
  {
    hide Step;
    if k > 0 {
      StopStays(env, g, n, k - 1);
    }
  }

  /** Where a stopped run stopped. */
  lemma {:induction false} StopsAtCount<M>(env: Env<M>, g: Guest<M>, n: nat)
    requires Run(env, g, n).stop.Some?
    ensures var p := Run(env, g, n);
            && p.count < n && Run(env, g, p.count).stop.None?
            && p.stop == Some(Step(env, Run(env, g, p.count).g)) && p.g == p.stop.value.g && !p.stop.value.Retire?
  {
    hide Step;
    if Run(env, g, n - 1).stop.Some? {
      StopsAtCount(env, g, n - 1);
    }
  }

  // The path of pure interpretation, one `rv64_step` after the other

  /** A place on the path: instructions completed, guest, and whether an instruction was met that is not modelled. */
  datatype Place<M> = Place(count: nat, g: Guest<M>, stuck: bool)

  function NextPlace<M>(env: Env<M>, trap: Trap<M>, p: Place<M>): Place<M> {
    if p.stuck then p
    else match Step(env, p.g)
      case Retire(g) => Place(p.count + 1, g, false)
      case Raise(g, cause, tval) => Place(p.count, trap(g, cause, tval), false)
      case Delivered(g) => Place(p.count, g, false)
      case Elsewhere(_) => p.(stuck := true)
  }

  function Path<M>(env: Env<M>, trap: Trap<M>, g0: Guest<M>, m: nat): Place<M> {
    if m == 0 then Place(0, g0, false) else NextPlace(env, trap, Path(env, trap, g0, m - 1))
  }

  /** `n` instructions are completed, and the guest is at place `m` of the path, or where the fault of the next
      instruction there has left it. */
  ghost predicate Follows<M>(env: Env<M>, trap: Trap<M>, g0: Guest<M>, m: nat, n: nat, g: Guest<M>) {
    var p := Path(env, trap, g0, m);
    && p.count == n && !p.stuck
    && (g == p.g || (Step(env, p.g).Raise? && g == Step(env, p.g).g))
  }

  /** A run that completes `k` instructions moves `k` places along the path. */
  lemma {:induction false} PathAlongRun<M>(env: Env<M>, trap: Trap<M>, g0: Guest<M>, m: nat, k: nat)
    requires !Path(env, trap, g0, m).stuck && Run(env, Path(env, trap, g0, m).g, k).stop.None?
    ensures var p := Path(env, trap, g0, m);
            Path(env, trap, g0, m + k) == Place(p.count + k, Run(env, p.g, k).g, false)
  {
    hide Step;
    if k > 0 {
      PathAlongRun(env, trap, g0, m, k - 1);
      NoneBefore(env, Path(env, trap, g0, m).g, k);
    }
  }

  lemma NoneBefore<M>(env: Env<M>, g: Guest<M>, k: nat)
    requires k > 0 && Run(env, g, k).stop.None?
    ensures var p := Run(env, g, k - 1); p.stop.None? && Step(env, p.g).Retire? && Run(env, g, k).g == Step(env, p.g).g
  {
    hide Step;
  }

  // What is asked of the path

  /** At each of the first `bound` places: the two executors are meant to agree on the instruction, its access
      faults again if it faults, and a block entered there is not cut short. */
  ghost predicate PathInScope<M>(env: Env<M>, trap: Trap<M>, g0: Guest<M>, disabled: Word -> bool, maxInsns: nat,
                                 bound: nat)
  {
    forall m: nat :: m < bound ==> InScopeAt(env, Path(env, trap, g0, m), disabled, maxInsns)
  }

  ghost predicate InScopeAt<M>(env: Env<M>, p: Place<M>, disabled: Word -> bool, maxInsns: nat) {
    !p.stuck ==>
      StepInScope(env, p.g) && StableFault(env, p.g) && NotCut(env.fetch, disabled, maxInsns, p.g.pc)
  }

  /** The block that starts at a pc does not reach the limit on recorded exits. */
  ghost predicate NotCut(fetch: Word -> Fetched, disabled: Word -> bool, maxInsns: nat, pc: Word) {
    forall n: nat :: IsBlockLength(fetch, disabled, maxInsns, pc, n) ==> ExitsUpTo(fetch, pc, n) <= EXIT_LIMIT
  }

  lemma ScopeAt<M>(env: Env<M>, trap: Trap<M>, g0: Guest<M>, disabled: Word -> bool, maxInsns: nat, bound: nat, m: nat)
    requires PathInScope(env, trap, g0, disabled, maxInsns, bound) && m < bound
    ensures InScopeAt(env, Path(env, trap, g0, m), disabled, maxInsns)
  {
    hide Path, InScopeAt;
  }

  ghost predicate KeepsRegisters<M(!new)>(trap: Trap<M>) {
    forall g, cause, tval :: trap(g, cause, tval).x == g.x
  }

  lemma X0Stays<M>(env: Env<M>, g: Guest<M>)
    requires g.x[0] == 0 && StepInScope(env, g)
    ensures Step(env, g).g.x[0] == 0
  {
  }

  lemma {:induction false} X0OnPath<M(!new)>(env: Env<M>, trap: Trap<M>, g0: Guest<M>, disabled: Word -> bool,
                                             maxInsns: nat, bound: nat, m: nat)
    requires g0.x[0] == 0 && KeepsRegisters(trap) && PathInScope(env, trap, g0, disabled, maxInsns, bound) && m <= bound
    ensures Path(env, trap, g0, m).g.x[0] == 0
  {
    hide Step, StepInScope, StableFault, NotCut;
    if m > 0 {
      X0OnPath(env, trap, g0, disabled, maxInsns, bound, m - 1);
      var p := Path(env, trap, g0, m - 1);
      assert InScopeAt(env, p, disabled, maxInsns);
      if !p.stuck {
        X0Stays(env, p.g);
      }
    }
  }

  lemma FollowingX0<M(!new)>(env: Env<M>, trap: Trap<M>, g0: Guest<M>, disabled: Word -> bool, maxInsns: nat,
                             bound: nat, m: nat, n: nat, g: Guest<M>)
    requires g0.x[0] == 0 && KeepsRegisters(trap) && PathInScope(env, trap, g0, disabled, maxInsns, bound) && m < bound
    requires Follows(env, trap, g0, m, n, g)
    ensures g.x[0] == 0
  {
    hide Step, StepInScope, StableFault, NotCut, Path;
    X0OnPath(env, trap, g0, disabled, maxInsns, bound, m);
    var p := Path(env, trap, g0, m);
    assert InScopeAt(env, p, disabled, maxInsns);
    X0Stays(env, p.g);
  }

  lemma {:induction false} RunsOnPathInScope<M>(env: Env<M>, trap: Trap<M>, g0: Guest<M>, disabled: Word -> bool,
                                                maxInsns: nat, bound: nat, m: nat, k: nat)
    requires PathInScope(env, trap, g0, disabled, maxInsns, bound) && m + k <= bound
    requires !Path(env, trap, g0, m).stuck
    ensures RunInScope(env, Path(env, trap, g0, m).g, k)
  {
    hide Step, StepInScope, StableFault, NotCut, Path;
    if k > 0 {
      RunsOnPathInScope(env, trap, g0, disabled, maxInsns, bound, m, k - 1);
      var p := Run(env, Path(env, trap, g0, m).g, k - 1);
      if p.stop.None? {
        PathAlongRun(env, trap, g0, m, k - 1);
        assert InScopeAt(env, Path(env, trap, g0, m + (k - 1)), disabled, maxInsns);
      }
    }
  }

  // Faults that are met twice

  lemma ScopeAfterStop<M>(env: Env<M>, g: Guest<M>)
    requires StepInScope(env, g) && StableFault(env, g) && Step(env, g).Raise?
    ensures StepInScope(env, Step(env, g).g)
  {
    hide OpAgrees, Op32Agrees, LoadInScope, Step;
    RaisesAgain(env, g);
    var f := env.fetch(g.pc);
    if f.Insn? {
      if IsFp(Opcode(f.word)) {
        FpStops(env, g, f.word);
      } else {
        SameRegisters(env, g, f.word);
        if Opcode(f.word) == 0x03 { LoadScopeAfterStop(env, g, f.word); }
      }
    }
  }

  lemma FpStops<M>(env: Env<M>, g: Guest<M>, w: InsnWord)
    requires Step(env, g).Raise? && env.fetch(g.pc).Insn? && env.fetch(g.pc).word == w && IsFp(Opcode(w))
    ensures env.fp(g, w).FpIllegal? && Step(env, g).g == env.fp(g, w).g
  {
  }

  lemma LoadScopeAfterStop<M>(env: Env<M>, g: Guest<M>, w: InsnWord)
    requires Step(env, g).Raise? && env.fetch(g.pc).Insn? && env.fetch(g.pc).word == w && Opcode(w) == 0x03
    requires LoadInScope(env, g, w) && StableFault(env, g)
    ensures LoadInScope(env, Step(env, g).g, w)
  {
  }

  lemma SameRegisters<M>(env: Env<M>, g: Guest<M>, w: InsnWord)
    requires Step(env, g).Raise? && env.fetch(g.pc).Insn? && env.fetch(g.pc).word == w && !IsFp(Opcode(w))
    ensures Step(env, g).g.x == g.x && Step(env, g).g.pc == g.pc
  {
  }

  /** From the state of a fault, running stops at once, in the same state. */
  lemma {:induction false} StoppedRun<M>(env: Env<M>, g: Guest<M>, k: nat)
    requires StableFault(env, g) && StepInScope(env, g) && Step(env, g).Raise?
    ensures var a := Step(env, g);
            && Run(env, a.g, k).count == 0 && Run(env, a.g, k).g == a.g && RunInScope(env, a.g, k)
  {
    hide Step, StepInScope, StableFault;
    RaisesAgain(env, g);
    ScopeAfterStop(env, g);
    if k > 0 {
      StoppedRun(env, g, k - 1);
      if k > 1 {
        var a := Step(env, g);
        assert Run(env, a.g, 0).g == a.g;
        StopStays(env, a.g, 1, k - 2);
      }
    }
  }

  // Moving along the path

  lemma FollowingInScope<M>(env: Env<M>, trap: Trap<M>, g0: Guest<M>, disabled: Word -> bool, maxInsns: nat,
                            bound: nat, m: nat, n: nat, g: Guest<M>, k: nat)
    requires PathInScope(env, trap, g0, disabled, maxInsns, bound) && m < bound && m + k <= bound
    requires Follows(env, trap, g0, m, n, g)
    ensures RunInScope(env, g, k) && NotCut(env.fetch, disabled, maxInsns, g.pc)
  {
    hide StepInScope, Step, Run, Path, StableFault, NotCut, RunInScope;
    var p := Path(env, trap, g0, m);
    assert InScopeAt(env, p, disabled, maxInsns);
    if g == p.g {
      RunsOnPathInScope(env, trap, g0, disabled, maxInsns, bound, m, k);
    } else {
      StoppedRun(env, p.g, k);
      RaisesAgain(env, p.g);
    }
  }

  /** A translated run from a place of the path ends on the path. */
  lemma PathContinues<M>(env: Env<M>, trap: Trap<M>, g0: Guest<M>, m: nat, k: nat) returns (m': nat)
    requires !Path(env, trap, g0, m).stuck
    ensures var p, r := Path(env, trap, g0, m), Run(env, Path(env, trap, g0, m).g, k);
            m + r.count <= m' <= m + k && Follows(env, trap, g0, m', p.count + r.count, r.g)
  {
    hide Step, Run;
    var g := Path(env, trap, g0, m).g;
    var r := Run(env, g, k);
    if r.stop.None? {
      CountsAll(env, g, k);
      PathAlongRun(env, trap, g0, m, k);
      m' := m + k;
    } else {
      StopsAtCount(env, g, k);
      PathAlongRun(env, trap, g0, m, r.count);
      m' := if r.stop.value.Delivered? then m + r.count + 1 else m + r.count;
      if r.stop.value.Elsewhere? {
        NotExecuted(env, Path(env, trap, g0, m').g);
      }
    }
  }

  lemma NotExecuted<M>(env: Env<M>, g: Guest<M>)
    ensures Step(env, g).Elsewhere? ==> Step(env, g).g == g
  {
  }

  lemma CountsAll<M>(env: Env<M>, g: Guest<M>, k: nat)
    ensures Run(env, g, k).stop.None? ==> Run(env, g, k).count == k
  {
  }

  /** From anywhere on the path, also where a fault is pending, a translated run stays on it. */
  lemma BlockFollows<M>(env: Env<M>, trap: Trap<M>, g0: Guest<M>, disabled: Word -> bool, maxInsns: nat,
                        m: nat, n: nat, g: Guest<M>, k: nat) returns (m': nat)
    requires InScopeAt(env, Path(env, trap, g0, m), disabled, maxInsns) && Follows(env, trap, g0, m, n, g)
    ensures var r := Run(env, g, k); m + r.count <= m' <= m + k && Follows(env, trap, g0, m', n + r.count, r.g)
  {
    hide StepInScope, Step, Run, Path, StableFault, NotCut, RunInScope;
    var p := Path(env, trap, g0, m);
    if g == p.g {
      m' := PathContinues(env, trap, g0, m, k);
    } else {
      StoppedRun(env, p.g, k);
      m' := m;
    }
  }

  /** The guest after one turn of the loop that interprets. */
  function Interpreted<M>(trap: Trap<M>, a: Attempt<M>): Guest<M> {
    match a case Raise(g, cause, tval) => trap(g, cause, tval) case _ => a.g
  }

  /** An interpreted step moves to the next place: it completes, or takes the trap that pure interpretation
      takes there, also where a block has met the fault first. */
  lemma StepFollows<M>(env: Env<M>, trap: Trap<M>, g0: Guest<M>, disabled: Word -> bool, maxInsns: nat,
                       m: nat, n: nat, g: Guest<M>)
    requires InScopeAt(env, Path(env, trap, g0, m), disabled, maxInsns) && Follows(env, trap, g0, m, n, g)
    ensures var a := Step(env, g);
            if a.Elsewhere? then a.g == g && Path(env, trap, g0, m + 1) == Place(n, g, true)
            else Follows(env, trap, g0, m + 1, n + (if a.Retire? then 1 else 0), Interpreted(trap, a))
  {
    hide Step, StepInScope, StableFault, NotCut;
    var p := Path(env, trap, g0, m);
    if g != p.g {
      RaisesAgain(env, p.g);
    }
    NotExecuted(env, g);
  }

  // The executor

  /** The pc that a cut block of `n` instructions still has when it runs to its end. */
  function Lag(fetch: Word -> Fetched, pc: Word, n: nat): Option<Word> {
    if n > 0 && ExitsUpTo(fetch, pc, n) > EXIT_LIMIT then Some(PcAt(fetch, pc, n - 1)) else None
  }

  /** The guest after a block of `n` instructions. */
  function AfterBlock<M>(env: Env<M>, g: Guest<M>, n: nat): Guest<M> {
    var p := Run(env, g, n);
    if p.stop.None? then PcAfter(p.g, Lag(env.fetch, g.pc, n)) else p.g
  }

  ghost predicate Good<M(!new)>(fetch: Word -> Fetched, disabled: Word -> bool, maxInsns: nat, e: Slot) {
    e.block.Some? ==>
      var b := e.block.value;
      && IsBlockLength(fetch, disabled, maxInsns, e.guestPc, b.insns)
      && Agrees<M>(fetch, e.guestPc, b, Lag(fetch, e.guestPc, b.insns))
  }

  class Runner<M(!new)> {
    const cpu: Hart.Cpu<M>
    const cache: array<Option<Slot>>
    var scratch: State<M>      // the machine that runs blocks, as the last one left it
    var instret: nat
    var cycle: nat

    constructor (cpu: Hart.Cpu<M>, scratch: State<M>)
      requires cpu.x.Length == 32
      ensures this.cpu == cpu && cache.Length == CACHE_SIZE && fresh(cache) && instret == 0 && cycle == 0
      ensures forall i :: 0 <= i < CACHE_SIZE ==> cache[i] == None
    {
      this.cpu := cpu;
      cache := new Option<Slot>[CACHE_SIZE](_ => None);
      this.scratch, instret, cycle := scratch, 0, 0;
    }

    ghost predicate Valid(fetch: Word -> Fetched, disabled: Word -> bool, maxInsns: nat)
      reads this, cpu, cache
    {
      && cpu.x.Length == 32 && cache.Length == CACHE_SIZE && cpu.x as object != cache as object
      && forall i :: 0 <= i < CACHE_SIZE && cache[i].Some? ==> Good<M>(fetch, disabled, maxInsns, cache[i].value)
    }

    ghost function Now(): Guest<M>
      requires cpu.x.Length == 32
      reads this, cpu, cpu.x
    {
      cpu.Now()
    }

    /** The block for the current pc, from the cache or freshly compiled. */
    method FindBlock(fetch: Word -> Fetched, disabled: Word -> bool, maxInsns: nat) returns (e: Slot)
      requires 0 < maxInsns && Valid(fetch, disabled, maxInsns)
      modifies cache
      ensures Valid(fetch, disabled, maxInsns)
      ensures Good<M>(fetch, disabled, maxInsns, e) && e.guestPc == cpu.pc
    {
      hide Agrees, IsBlockLength, PcAt, ExitsUpTo;
      var idx := cpu.pc / 2 % CACHE_SIZE;
      var cached := cache[idx];
      if cached.Some? && cached.value.guestPc == cpu.pc { return cached.value; }
      var r := CompileBlock<M>(fetch, disabled, maxInsns, cpu.pc);
      if r.Uncompilable? {
        e := Slot(cpu.pc, None);
      } else {
        e := Slot(cpu.pc, Some(r.block));
      }
      cache[idx] := Some(e);
    }

    /** `jit_exec`: as many interpreter steps as the block has instructions, up to one that stops. */
    method JitExec(env: Env<M>, disabled: Word -> bool, maxInsns: nat) returns (count: nat, ghost k: nat)
      requires 0 < maxInsns < TWO_32 && Valid(env.fetch, disabled, maxInsns)
      requires cpu.x[0] == 0 && forall i: nat :: i <= maxInsns ==> RunInScope(env, Now(), i)
      modifies this`scratch, this`instret, cpu, cpu.x, cache
      ensures Valid(env.fetch, disabled, maxInsns)
      ensures k == 0 || IsBlockLength(env.fetch, disabled, maxInsns, old(cpu.pc), k)
      ensures count == Run(env, old(Now()), k).count && Now() == AfterBlock(env, old(Now()), k)
      ensures instret == old(instret) + count
    {
      hide RunInScope, Exec, IsBlockLength, Step, PcAt, ExitsUpTo;
      var e := FindBlock(env.fetch, disabled, maxInsns);
      if e.block.None? { return 0, 0; }
      var b := e.block.value;
      k := b.insns;
      LengthBounds(env.fetch, disabled, maxInsns, cpu.pc, k);
      var s := scratch.(g := Guest(cpu.x[..], cpu.pc, cpu.mem));
      assert s.g == Now() && RunInScope(env, s.g, b.insns);
      assert Enters(env.fetch, e.guestPc, b.insns, env, s);
      assert AgreesFrom(env, s, b, Lag(env.fetch, e.guestPc, b.insns));
      var c := Exec(env, b.link, b.code, Running(s));
      cpu.Become(c.s.g);
      scratch, count := c.s, c.v;
      instret := instret + count;
    }

    /** One turn of the fallback: `rv64_step`, with `trap` where it raises. */
    method Interpret(env: Env<M>, trap: Trap<M>) returns (ended: Hart.Ended)
      requires cpu.x.Length == 32
      modifies this`instret, this`cycle, cpu, cpu.x
      ensures var a := Interp.Step(env, old(Now()));
              && Now() == Interpreted(trap, a) && (ended == Hart.NotModelled <==> a.Elsewhere?)
              && instret == old(instret) + (if a.Retire? then 1 else 0)
              && cycle == old(cycle) + (if a.Retire? then 1 else 0)
    {
      hide Interp.Step;
      ended := cpu.Step(env);
      match ended {
        case Retired => instret, cycle := instret + 1, cycle + 1;
        case Trapped(cause, tval) => cpu.Become(trap(Guest(cpu.x[..], cpu.pc, cpu.mem), cause, tval));
        case _ =>
      }
    }

    /** The run loop without interrupts: `translate` says when translated code may be tried. However the turns
        are divided between the two executors, the guest is on the path of pure interpretation, with as many
        instructions counted; the loop ends with the budget, at an instruction that is not modelled, or after
        `turns` turns, each of which makes progress. */
    method RunTurns(env: Env<M>, trap: Trap<M>, disabled: Word -> bool, maxInsns: nat, translate: nat -> bool,
                    budget: nat, turns: nat)
      returns (stuck: bool, ghost m: nat, ghost n: nat)
      requires 0 < maxInsns < TWO_32 && Valid(env.fetch, disabled, maxInsns) && cpu.x[0] == 0 && KeepsRegisters(trap)
      requires PathInScope(env, trap, Now(), disabled, maxInsns, turns * (maxInsns + 1))
      modifies this, cpu, cpu.x, cache
      ensures Valid(env.fetch, disabled, maxInsns) && instret == old(instret) + n && cycle == old(cycle) + n
      ensures !stuck ==> Follows(env, trap, old(Now()), m, n, Now()) && (n >= budget || m >= turns)
      ensures stuck ==> Path(env, trap, old(Now()), m) == Place(n, Now(), true)
    {
      hide RunInScope, IsBlockLength, Interp.Step, Run, StepInScope, NotCut, Path, Follows, PathInScope, InScopeAt,
           KeepsRegisters, AfterBlock;
      ghost var g0, bound := Now(), turns * (maxInsns + 1);
      m, n := 0, 0;
      StartsOnPath(env, trap, g0);
      var limit := cycle + budget;
      for turn := 0 to turns
        invariant Valid(env.fetch, disabled, maxInsns) && Follows(env, trap, g0, m, n, Now())
        invariant turn <= m <= turn * (maxInsns + 1)
        invariant instret == old(instret) + n && cycle == old(cycle) + n
      {
        if cycle >= limit { return false, m, n; }
        NextTurn(turn, turns, maxInsns);
        if translate(turn) {
          FollowingX0(env, trap, g0, disabled, maxInsns, bound, m, n, Now());
          forall i: nat | i <= maxInsns
            ensures RunInScope(env, Now(), i)
          {
            FollowingInScope(env, trap, g0, disabled, maxInsns, bound, m, n, Now(), i);
          }
          FollowingInScope(env, trap, g0, disabled, maxInsns, bound, m, n, Now(), 0);
          ghost var g := Now();
          var count;
          ghost var k;
          count, k := JitExec(env, disabled, maxInsns);
          ScopeAt(env, trap, g0, disabled, maxInsns, bound, m);
          UncutBlock(env, disabled, maxInsns, g, k);
          m := BlockFollows(env, trap, g0, disabled, maxInsns, m, n, g, k);
          cycle, n := cycle + count, n + count;
          if count > 0 { continue; }
        }
        ScopeAt(env, trap, g0, disabled, maxInsns, bound, m);
        StepFollows(env, trap, g0, disabled, maxInsns, m, n, Now());
        ghost var a := Interp.Step(env, Now());
        var ended := Interpret(env, trap);
        m, n := m + 1, n + (if a.Retire? then 1 else 0);
        if ended == Hart.NotModelled { return true, m, n; }
      }
      return false, m, n;
    }
  }

  lemma NextTurn(turn: nat, turns: nat, maxInsns: nat)
    requires turn < turns
    ensures turn * (maxInsns + 1) + maxInsns + 1 == (turn + 1) * (maxInsns + 1) <= turns * (maxInsns + 1)
  {
    var later := turns - (turn + 1);
    assert turns * (maxInsns + 1) == (turn + 1) * (maxInsns + 1) + later * (maxInsns + 1);
  }

  lemma UncutBlock<M>(env: Env<M>, disabled: Word -> bool, maxInsns: nat, g: Guest<M>, k: nat)
    requires NotCut(env.fetch, disabled, maxInsns, g.pc)
    requires k == 0 || IsBlockLength(env.fetch, disabled, maxInsns, g.pc, k)
    ensures AfterBlock(env, g, k) == Run(env, g, k).g && k <= maxInsns
  {
    hide Step, PcAt;
  }

  lemma StartsOnPath<M>(env: Env<M>, trap: Trap<M>, g: Guest<M>)
    ensures Follows(env, trap, g, 0, 0, g)
  {
    hide Step;
  }

  lemma LengthBounds(fetch: Word -> Fetched, disabled: Word -> bool, maxInsns: nat, pc: Word, n: nat)
    requires IsBlockLength(fetch, disabled, maxInsns, pc, n)
    ensures n <= maxInsns
  {
  }
}
