/**
 Traps, returns and interrupt delivery: the privilege state machine of the CPU.
 */
module Traps {
  import opened Words

  /** mstatus is modelled bit for bit; the other CSRs by what is read out of them. */
  type Mstatus = bv64

  datatype Priv = U | S | M

  const SIE: Mstatus := 0x2
  const MIE: Mstatus := 0x8
  const SPIE: Mstatus := 0x20
  const MPIE: Mstatus := 0x80
  const SPP: Mstatus := 0x100
  const MPP: Mstatus := 0x1800

  datatype Cause = Exception(code: nat) | Interrupt(code: nat)

  /** The registers that traps and returns read and write. Delegation, enable and pending registers
      are the sets of their one bits. */
  datatype Hart = Hart(pc: Word, priv: Priv, mstatus: Mstatus, medeleg: set<nat>, mideleg: set<nat>,
                       mie: set<nat>, mip: set<nat>, mtvec: Word, stvec: Word,
                       mepc: Word, mcause: Cause, mtval: Word, sepc: Word, scause: Cause, stval: Word)

  /** The encoding of a privilege level in MPP and SPP. */
  function Level(p: Priv): Mstatus {
    match p case U => 0 case S => 1 case M => 3
  }

  /** `priv = mpp`; the reserved encoding 2 is not modelled and reads as M. */
  function FromLevel(x: Mstatus): Priv {
    if x == 0 then U else if x == 1 then S else M
  }

  /** Whether `trap` goes to S-mode. */
  predicate ToS(h: Hart, cause: Cause) {
    h.priv != M && cause.code in if cause.Interrupt? then h.mideleg else h.medeleg
  }

  function Vector(tvec: Word, cause: Cause): Word {
    if tvec % 4 == 1 && cause.Interrupt? then Wrap(tvec - tvec % 4 + cause.code * 4) else tvec - tvec % 4
  }

  function EnterS(m: Mstatus, level: Mstatus): Mstatus {
    (((m & !SPIE) | (((m >> 1) & 1) << 5)) & !SIE & !SPP) | (level << 8)
  }

  function EnterM(m: Mstatus, level: Mstatus): Mstatus {
    (((m & !MPIE) | (((m >> 3) & 1) << 7)) & !MIE & !MPP) | (level << 11)
  }

  function LeaveS(m: Mstatus): Mstatus {
    (((m & !SIE) | (((m >> 5) & 1) << 1)) | SPIE) & !SPP
  }

  function LeaveM(m: Mstatus): Mstatus {
    (((m & !MIE) | (((m >> 7) & 1) << 3)) | MPIE) & !MPP
  }

  function PreviousS(m: Mstatus): Priv { FromLevel((m >> 8) & 1) }

  function PreviousM(m: Mstatus): Priv { FromLevel((m >> 11) & 3) }

  predicate SieSet(m: Mstatus) { m & SIE != 0 }

  predicate MieSet(m: Mstatus) { m & MIE != 0 }

  function TrapTo(h: Hart, cause: Cause, tval: Word): Hart {
    if ToS(h, cause) then
      h.(sepc := h.pc, scause := cause, stval := tval, mstatus := EnterS(h.mstatus, Level(h.priv)), priv := S,
         pc := Vector(h.stvec, cause))
    else
      h.(mepc := h.pc, mcause := cause, mtval := tval, mstatus := EnterM(h.mstatus, Level(h.priv)), priv := M,
         pc := Vector(h.mtvec, cause))
  }

  /** MRET and SRET, where they are legal. */
  function Mret(h: Hart): Hart {
    h.(mstatus := LeaveM(h.mstatus), priv := PreviousM(h.mstatus), pc := h.mepc)
  }

  function Sret(h: Hart): Hart {
    h.(mstatus := LeaveS(h.mstatus), priv := PreviousS(h.mstatus), pc := h.sepc)
  }

  /** mstatus after a return: the previous-state fields are reset, the rest is as it was. */
  function ReturnedS(m: Mstatus): Mstatus { (m | SPIE) & !SPP }

  function ReturnedM(m: Mstatus): Mstatus { (m | MPIE) & !MPP }

  lemma UndoM(m: Mstatus, level: Mstatus)
    requires level == 0 || level == 1 || level == 3
    ensures LeaveM(EnterM(m, level)) == ReturnedM(m)
  {
  }

  lemma SavedLevelM(m: Mstatus, level: Mstatus)
    requires level == 0 || level == 1 || level == 3
    ensures (EnterM(m, level) >> 11) & 3 == level
  {
  }

  lemma ClosedM(m: Mstatus, level: Mstatus)
    requires level == 0 || level == 1 || level == 3
    ensures !MieSet(EnterM(m, level))
  {
  }

  lemma UndoS(m: Mstatus, level: Mstatus)
    requires level == 0 || level == 1
    ensures LeaveS(EnterS(m, level)) == ReturnedS(m)
  {
  }

  lemma SavedLevelS(m: Mstatus, level: Mstatus)
    requires level == 0 || level == 1
    ensures (EnterS(m, level) >> 8) & 1 == level
  {
  }

  lemma ClosedS(m: Mstatus, level: Mstatus)
    requires level == 0 || level == 1
    ensures !SieSet(EnterS(m, level))
  {
  }

  /** A return undoes its trap: privilege and interrupt enable come back. */
  lemma EnterLeaveM(m: Mstatus, priv: Priv)
    ensures LeaveM(EnterM(m, Level(priv))) == ReturnedM(m)
    ensures PreviousM(EnterM(m, Level(priv))) == priv
    ensures !MieSet(EnterM(m, Level(priv)))
  {
    hide EnterM, LeaveM, ReturnedM, MieSet;
    UndoM(m, Level(priv));
    SavedLevelM(m, Level(priv));
    ClosedM(m, Level(priv));
  }

  lemma EnterLeaveS(m: Mstatus, priv: Priv)
    requires priv != M
    ensures LeaveS(EnterS(m, Level(priv))) == ReturnedS(m)
    ensures PreviousS(EnterS(m, Level(priv))) == priv
    ensures !SieSet(EnterS(m, Level(priv)))
  {
    hide EnterS, LeaveS, ReturnedS, SieSet;
    UndoS(m, Level(priv));
    SavedLevelS(m, Level(priv));
    ClosedS(m, Level(priv));
  }

  // A supervisor trap with machine-level traps nested in its handler

  /** What may happen while the S-mode handler runs: its own instructions, and complete machine-level
      traps whose handlers move the pc about but leave the CSRs as the trap set them. */
  datatype Event = Runs(pc: Word, mip: set<nat>) | MachineTrap(cause: Cause, tval: Word, handlerPc: Word)

  function Apply(h: Hart, e: Event): Hart {
    match e
    case Runs(pc, mip) => h.(pc := pc, mip := mip)
    case MachineTrap(cause, tval, handlerPc) => Mret(TrapTo(h, cause, tval).(pc := handlerPc))
  }

  predicate Legal(h: Hart, e: Event) {
    e.MachineTrap? ==> !ToS(h, e.cause)
  }

  function RunAll(h: Hart, es: seq<Event>): Hart {
    if es == [] then h else Apply(RunAll(h, es[..|es| - 1]), es[|es| - 1])
  }

  predicate AllLegal(h: Hart, es: seq<Event>) {
    es == [] || (AllLegal(h, es[..|es| - 1]) && Legal(RunAll(h, es[..|es| - 1]), es[|es| - 1]))
  }

  predicate AnyMachineTrap(es: seq<Event>) {
    es != [] && (es[|es| - 1].MachineTrap? || AnyMachineTrap(es[..|es| - 1]))
  }

  /** `MRET` sets MPIE and clears MPP; nothing else of mstatus is lost in a machine-level trap. */
  function AfterMachine(m: Mstatus, any: bool): Mstatus {
    if any then ReturnedM(m) else m
  }

  lemma MachineTrapIsTransparent(h: Hart, e: Event)
    requires e.MachineTrap? && !ToS(h, e.cause) && h.priv == S
    ensures Apply(h, e) == h.(mstatus := AfterMachine(h.mstatus, true), mepc := h.pc, mcause := e.cause,
                              mtval := e.tval)
  {
    hide ToS, Vector, EnterM, LeaveM, PreviousM, ReturnedM, Level;
    EnterLeaveM(h.mstatus, h.priv);
  }

  /** The handler's whole run keeps what SRET will need. */
  lemma {:induction false} HandlerKeepsState(h: Hart, es: seq<Event>)
    requires h.priv == S && AllLegal(h, es)
    ensures var r := RunAll(h, es);
            && r.priv == S && r.sepc == h.sepc && r.scause == h.scause && r.stval == h.stval
            && r.medeleg == h.medeleg && r.mideleg == h.mideleg && r.stvec == h.stvec && r.mtvec == h.mtvec
              && r.mie == h.mie
            && r.mstatus == AfterMachine(h.mstatus, AnyMachineTrap(es))
  {
    hide Apply, AfterMachine, ToS;
    if es == [] {
      NoMachineTrap(h.mstatus);
    } else {
      var before, e := RunAll(h, es[..|es| - 1]), es[|es| - 1];
      HandlerKeepsState(h, es[..|es| - 1]);
      if e.MachineTrap? {
        MachineTrapIsTransparent(before, e);
      } else {
        RunsIsPlain(before, e);
      }
      AfterMachineTwice(h.mstatus, AnyMachineTrap(es[..|es| - 1]));
    }
  }

  lemma NoMachineTrap(m: Mstatus)
    ensures AfterMachine(m, false) == m
  {
  }

  lemma RunsIsPlain(h: Hart, e: Event)
    requires e.Runs?
    ensures Apply(h, e) == h.(pc := e.pc, mip := e.mip)
  {
  }

  lemma AfterMachineTwice(m: Mstatus, any: bool)
    ensures AfterMachine(AfterMachine(m, any), true) == AfterMachine(m, true)
  {
  }

  /** A trap to S-mode, any number of machine-level traps in its handler, then SRET: the interrupted
      pc, privilege and SIE come back, and mstatus differs only in the previous-state fields. */
  lemma SupervisorTrapReturns(h: Hart, cause: Cause, tval: Word, es: seq<Event>)
    requires h.priv == U || h.priv == S
    requires ToS(h, cause) && AllLegal(TrapTo(h, cause, tval), es)
    ensures var r := Sret(RunAll(TrapTo(h, cause, tval), es));
            && r.pc == h.pc && r.priv == h.priv
            && r.mstatus == AfterMachine(ReturnedS(h.mstatus), AnyMachineTrap(es))
            && SieSet(r.mstatus) == SieSet(h.mstatus) && MieSet(r.mstatus) == MieSet(h.mstatus)
            && r.mideleg == h.mideleg && r.medeleg == h.medeleg && r.stvec == h.stvec && r.mtvec == h.mtvec
              && r.mie == h.mie
  {
    hide ToS, Vector, EnterS, LeaveS, PreviousS, AfterMachine, RunAll, AllLegal, AnyMachineTrap, SieSet, MieSet,
         ReturnedS, Level;
    var inner := TrapTo(h, cause, tval);
    HandlerKeepsState(inner, es);
    ReturnsThroughMachine(h.mstatus, h.priv, AnyMachineTrap(es));
  }

  lemma ReturnsThroughMachine(m: Mstatus, priv: Priv, any: bool)
    requires priv != M
    ensures var inside := AfterMachine(EnterS(m, Level(priv)), any);
            && LeaveS(inside) == AfterMachine(ReturnedS(m), any) && PreviousS(inside) == priv
            && SieSet(LeaveS(inside)) == SieSet(m) && MieSet(LeaveS(inside)) == MieSet(m)
  {
    hide AfterMachine, EnterS, LeaveS, PreviousS, SieSet, MieSet, ReturnedS, Level;
    EnterLeaveS(m, priv);
    LeavesCommute(EnterS(m, Level(priv)), any);
    SavedBits(m, any);
  }

  lemma LeavesCommute(e: Mstatus, any: bool)
    ensures LeaveS(AfterMachine(e, any)) == AfterMachine(LeaveS(e), any)
    ensures PreviousS(AfterMachine(e, any)) == PreviousS(e)
  {
  }

  lemma SavedBits(m: Mstatus, any: bool)
    ensures SieSet(AfterMachine(ReturnedS(m), any)) == SieSet(m)
    ensures MieSet(AfterMachine(ReturnedS(m), any)) == MieSet(m)
  {
  }

  // Interrupt delivery

  const SSIP: nat := 1
  const MSIP: nat := 3
  const STIP: nat := 5
  const MTIP: nat := 7
  const SEIP: nat := 9
  const MEIP: nat := 11

  /** One row of the priority table: pending bit, cause, and whether it is machine-level. */
  datatype Irq = Irq(bit: nat, cause: Cause, toM: bool)

  const TABLE: seq<Irq> := [
    Irq(MEIP, Interrupt(11), true), Irq(MSIP, Interrupt(3), true), Irq(MTIP, Interrupt(7), true),
    Irq(SEIP, Interrupt(9), false), Irq(SSIP, Interrupt(1), false), Irq(STIP, Interrupt(5), false)]

  /** What `check_interrupts` samples: the timers, and whether the PLIC has something for S-mode. */
  datatype Inputs = Inputs(mtime: Word, mtimecmp: Word, stimecmp: Word, plic: bool)

  function Sampled(mip: set<nat>, inp: Inputs): set<nat> {
    var a := if inp.mtime >= inp.mtimecmp then mip + {MTIP} else mip - {MTIP};
    var b := if inp.mtime >= inp.stimecmp then a + {STIP} else a;
    if inp.plic then b + {SEIP} else b - {SEIP}
  }

  /** The take test of the loop. */
  predicate Takes(h: Hart, irq: Irq) {
    || (irq.toM && irq.bit !in h.mideleg && (h.priv != M || MieSet(h.mstatus)))
    || (irq.bit in h.mideleg && (h.priv == U || (h.priv == S && SieSet(h.mstatus))))
  }

  predicate Deliverable(h: Hart, irq: Irq) {
    irq.bit in h.mip && irq.bit in h.mie && Takes(h, irq)
  }

  /** The first deliverable row from `i` on; 6 if there is none. */
  function FirstFrom(h: Hart, i: nat): (k: nat)
    requires i <= 6
    ensures i <= k <= 6
    ensures k < 6 ==> Deliverable(h, TABLE[k])
    ensures forall j :: i <= j < k ==> !Deliverable(h, TABLE[j])
    decreases 6 - i
  {
    if i == 6 || Deliverable(h, TABLE[i]) then i else FirstFrom(h, i + 1)
  }

  /** `check_interrupts`: the hart afterwards, and whether an interrupt was taken. */
  function Check(h: Hart, inp: Inputs): (Hart, bool) {
    var h' := h.(mip := Sampled(h.mip, inp));
    var k := FirstFrom(h', 0);
    if k == 6 then (h', false) else (TrapTo(h', TABLE[k].cause, 0), true)
  }

  /** The take test and `trap` agree on the target: a row is taken as delegated exactly when `trap`
      enters S-mode, and then S-mode interrupts are open; otherwise M-mode interrupts are. */
  lemma TakenWhereItGoes(h: Hart, k: nat)
    requires k < 6 && Takes(h, TABLE[k])
    ensures ToS(h, TABLE[k].cause) <==> TABLE[k].bit in h.mideleg
    ensures ToS(h, TABLE[k].cause) ==> h.priv == U || (h.priv == S && SieSet(h.mstatus))
    ensures !ToS(h, TABLE[k].cause) ==> TABLE[k].toM && (h.priv != M || MieSet(h.mstatus))
  {
    hide SieSet, MieSet;
    assert TABLE[k].cause == Interrupt(TABLE[k].bit);
  }

  /** How many more interrupts could be delivered before an instruction runs. */
  function Rank(h: Hart): nat {
    if h.priv == M then (if MieSet(h.mstatus) then 1 else 0)
    else if h.priv == S && !SieSet(h.mstatus) then 1
    else 2
  }

  function Deliveries(h: Hart, inputs: seq<Inputs>): nat
    decreases |inputs|
  {
    if inputs == [] then 0 else
    (if Check(h, inputs[0]).1 then 1 else 0) + Deliveries(Check(h, inputs[0]).0, inputs[1..])
  }

  lemma DeliveryLowersRank(h: Hart, inp: Inputs)
    ensures var (h', taken) := Check(h, inp); if taken then Rank(h') < Rank(h) else Rank(h') == Rank(h)
  {
    hide SieSet, MieSet, EnterS, EnterM, Vector, Takes, Sampled, ToS, Level, LeaveS, LeaveM, ReturnedS, ReturnedM;
    var h1 := h.(mip := Sampled(h.mip, inp));
    var k := FirstFrom(h1, 0);
    if k < 6 {
      TakenWhereItGoes(h1, k);
      EnterLeaveM(h.mstatus, h.priv);
      if h.priv != M {
        EnterLeaveS(h.mstatus, h.priv);
      }
      MachineStays(h1, TABLE[k].cause);
    }
  }

  lemma MachineStays(h: Hart, cause: Cause)
    ensures h.priv == M ==> !ToS(h, cause)
  {
  }

  /** Whatever the timers and devices do in between, at most two interrupts are delivered before an
      instruction runs: none or one from M-mode, at most one with S-mode interrupts closed. */
  lemma {:induction false} AtMostTwoDeliveries(h: Hart, inputs: seq<Inputs>)
    ensures Deliveries(h, inputs) <= Rank(h) <= 2
    decreases |inputs|
  {
    hide Check, SieSet, MieSet;
    if inputs != [] {
      DeliveryLowersRank(h, inputs[0]);
      AtMostTwoDeliveries(Check(h, inputs[0]).0, inputs[1..]);
    }
  }

  /** The CPU structure: traps, returns and interrupt checks update its fields in place. */
  class Cpu {
    var pc: Word
    var priv: Priv
    var mstatus: Mstatus
    var medeleg: set<nat>
    var mideleg: set<nat>
    var mie: set<nat>
    var mip: set<nat>
    var mtvec: Word
    var stvec: Word
    var mepc: Word
    var mcause: Cause
    var mtval: Word
    var sepc: Word
    var scause: Cause
    var stval: Word
    var halted: bool

    function View(): Hart
      reads this
    {
      Hart(pc, priv, mstatus, medeleg, mideleg, mie, mip, mtvec, stvec, mepc, mcause, mtval, sepc, scause, stval)
    }

    /** SPIE = SIE, SIE = 0, SPP = the interrupted privilege. */
    method SaveS()
      modifies this`mstatus
      ensures mstatus == EnterS(old(mstatus), Level(priv))
    {
      hide Level;
      var sie := (mstatus >> 1) & 1;
      mstatus := (mstatus & !SPIE) | (sie << 5);
      mstatus := mstatus & !SIE;
      mstatus := (mstatus & !SPP) | (Level(priv) << 8);
    }

    /** MPIE = MIE, MIE = 0, MPP = the interrupted privilege. */
    method SaveM()
      modifies this`mstatus
      ensures mstatus == EnterM(old(mstatus), Level(priv))
    {
      hide Level;
      var mieBit := (mstatus >> 3) & 1;
      mstatus := (mstatus & !MPIE) | (mieBit << 7);
      mstatus := mstatus & !MIE;
      mstatus := (mstatus & !MPP) | (Level(priv) << 11);
    }

    /** Direct mode goes to the base, vectored interrupts to their slot. */
    method JumpTo(tvec: Word, cause: Cause)
      modifies this`pc
      ensures pc == Vector(tvec, cause)
    {
      var base, mode := tvec - tvec % 4, tvec % 4;
      if mode == 1 && cause.Interrupt? { pc := Wrap(base + cause.code * 4); } else { pc := base; }
    }

    method TrapToS(cause: Cause, tval: Word)
      modifies this
      ensures var h := old(View());
              View() == h.(sepc := h.pc, scause := cause, stval := tval, mstatus := EnterS(h.mstatus, Level(h.priv)),
                           priv := S, pc := Vector(h.stvec, cause))
      ensures halted == old(halted)
    {
      hide EnterS, Level, Vector;
      sepc, scause, stval := pc, cause, tval;
      SaveS();
      priv := S;
      JumpTo(stvec, cause);
    }

    method TrapToM(cause: Cause, tval: Word)
      modifies this
      ensures var h := old(View());
              View() == h.(mepc := h.pc, mcause := cause, mtval := tval, mstatus := EnterM(h.mstatus, Level(h.priv)),
                           priv := M, pc := Vector(h.mtvec, cause))
      ensures halted == old(halted)
    {
      hide EnterM, Level, Vector;
      mepc, mcause, mtval := pc, cause, tval;
      SaveM();
      priv := M;
      JumpTo(mtvec, cause);
    }

    /** `trap`. */
    method Trap(cause: Cause, tval: Word)
      modifies this
      ensures View() == TrapTo(old(View()), cause, tval) && halted == old(halted)
    {
      hide EnterS, EnterM, Level, Vector;
      var trapToS := false;
      if priv != M {
        trapToS := if cause.Interrupt? then cause.code in mideleg else cause.code in medeleg;
      }
      if trapToS { TrapToS(cause, tval); } else { TrapToM(cause, tval); }
    }

    /** The MRET case of `rv64_step`. */
    method MachineReturn(insn: Word)
      modifies this
      ensures View() == if old(priv) == M then Mret(old(View())) else TrapTo(old(View()), Exception(2), insn)
    {
      if priv != M {
        Trap(Exception(2), insn);
        return;
      }
      var mpie, mpp := (mstatus >> 7) & 1, (mstatus >> 11) & 3;
      mstatus := (mstatus & !MIE) | (mpie << 3);
      mstatus := mstatus | MPIE;
      mstatus := mstatus & !MPP;
      priv := FromLevel(mpp);
      pc := mepc;
    }

    /** The SRET case of `rv64_step`. */
    method SupervisorReturn(insn: Word)
      modifies this
      ensures View() == if old(priv) != U then Sret(old(View())) else TrapTo(old(View()), Exception(2), insn)
    {
      if priv == U {
        Trap(Exception(2), insn);
        return;
      }
      var spie, spp := (mstatus >> 5) & 1, (mstatus >> 8) & 1;
      mstatus := (mstatus & !SIE) | (spie << 1);
      mstatus := mstatus | SPIE;
      mstatus := mstatus & !SPP;
      priv := FromLevel(spp);
      pc := sepc;
    }

    /** The pending bits that follow the timers and the PLIC. */
    method Sample(inp: Inputs)
      modifies this`mip
      ensures mip == Sampled(old(mip), inp)
    {
      if inp.mtime >= inp.mtimecmp { mip := mip + {MTIP}; } else { mip := mip - {MTIP}; }
      if inp.mtime >= inp.stimecmp { mip := mip + {STIP}; }
      if inp.plic { mip := mip + {SEIP}; } else { mip := mip - {SEIP}; }
    }

    /** The take test for one row of the table. */
    method Take(irq: Irq, mieBit: bool, sieBit: bool) returns (take: bool)
      requires mieBit == MieSet(mstatus) && sieBit == SieSet(mstatus)
      ensures take == Takes(View(), irq)
    {
      hide MieSet, SieSet;
      take := false;
      if irq.toM {
        if irq.bit !in mideleg {
          if priv != M || mieBit { take := true; }
        }
      }
      if !take && irq.bit in mideleg {
        if priv == U || (priv == S && sieBit) { take := true; }
      }
    }

    /** `check_interrupts`. */
    method CheckInterrupts(inp: Inputs) returns (taken: bool)
      modifies this
      ensures (View(), taken) == Check(old(View()), inp)
      ensures halted == (old(halted) && !taken)
    {
      hide TrapTo, Takes, Sampled;
      Sample(inp);
      ghost var h := View();
      assert h == old(View()).(mip := Sampled(old(mip), inp));
      var pending := mip * mie;
      if pending == {} {
        NothingPending(h);
        return false;
      }
      var mieBit, sieBit := MieSet(mstatus), SieSet(mstatus);
      for i := 0 to 6
        invariant View() == h && halted == old(halted)
        invariant FirstFrom(h, 0) == FirstFrom(h, i)
      {
        if TABLE[i].bit in pending {
          var take := Take(TABLE[i], mieBit, sieBit);
          if take {
            Trap(TABLE[i].cause, 0);
            halted := false;
            return true;
          }
        }
      }
      return false;
    }
  }

  lemma NothingPending(h: Hart)
    requires h.mip * h.mie == {}
    ensures FirstFrom(h, 0) == 6
  {
    assert forall i :: 0 <= i < 6 ==> TABLE[i].bit !in h.mip * h.mie;
  }
}
