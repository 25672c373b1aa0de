/**
 The command mailbox between a client backend and the VM worker: a spinlock-protected command cell
 and one latch on each side. Critical sections are single steps; everything done outside the lock
 is a step of its own, and any interleaving is a run.
 */
module Mailbox {
  import opened Wrappers

  datatype Cmd = Idle | Boot | Step | Halt | Save | Send | Watchpoint | Breakpoint

  datatype Req = Req(cmd: Cmd, arg: int, ext: int)

  /** What handling a command leaves: the CPU, the result code and, for a step, the return value. */
  datatype Outcome<C> = Outcome(cpu: Option<C>, code: int, ret: Option<int>)

  /** Where the worker is: at the top of its loop, about to reset its latch, about to read the command,
    about to execute it, to
      publish its results, to complete it, to set the client's latch; waiting; leaving. */
  datatype WorkerAt<C> =
    | Top
    | Clear
    | Read
    | Execute(cmd: Cmd)
    | Publish(cmd: Cmd, out: Outcome<C>)
    | Complete(cmd: Cmd)
    | Wake(cmd: Cmd, client: bool)
    | Wait
    | Leave
    | LastWake(client: bool)
    | Gone

  /** Where the client is: between calls, past the readiness test, about to set the worker's latch,
      to reset its own, to look at the command; blocked; back from the mailbox. */
  datatype ClientAt =
    | Free
    | Post(req: Req)
    | Signal
    | Reset
    | Check
    | Block
    | Return

  datatype State<C> = State(
    // shared
    cmd: Cmd, arg: int, ext: int, code: int, ret: int, clientKnown: bool, ready: bool, shutdown: bool,
    snapshot: Option<C>,
    workerLatch: bool, clientLatch: bool,
    // worker
    at: WorkerAt<C>, cpu: Option<C>, terminated: bool,
    // client
    client: ClientAt,
    // history
    posted: seq<Req>, executed: seq<Req>, last: Outcome<C>)

  /** The commands that clients send. The worker ignores the others. */
  predicate Handled(c: Cmd) { c != Idle && c != Save }

  type Handler<!C> = (Req, Option<C>) -> Outcome<C>

  // Steps

  predicate SameHistory<C(==)>(s: State<C>, s': State<C>) {
    s'.cpu == s.cpu && s'.executed == s.executed && s'.last == s.last
  }

  /** The worker's loop around the handling of commands. */
  function WorkerLoop<C>(s: State<C>): (s': State<C>)
    ensures s'.client == s.client && SameHistory(s, s')
  {
    match s.at
    case Top => s.(at := if s.terminated then Leave else Clear)
    case Clear => s.(workerLatch := false, at := Read)
    case Read =>
      if s.shutdown then s.(at := Leave)
      else if Handled(s.cmd) then s.(at := Execute(s.cmd))
      else s.(at := Wait)
    case Wait => if s.workerLatch then s.(at := Top) else s
    case Leave => s.(ready := false, shutdown := true, at := LastWake(s.clientKnown))
    case LastWake(known) => s.(clientLatch := s.clientLatch || known, at := Gone)
    case _ => s
  }

  function Published<C>(s: State<C>, c: Cmd, out: Outcome<C>): (s': State<C>)
    ensures s'.client == s.client && SameHistory(s, s')
  {
    var ret := if out.ret.Some? then out.ret.value else s.ret;
    s.(at := Complete(c), code := out.code, ret := ret)
  }

  function Completed<C>(s: State<C>, c: Cmd): (s': State<C>)
    ensures s'.client == s.client && SameHistory(s, s')
  {
    var seen := if s.cpu.Some? && s.clientKnown then s.cpu else s.snapshot;
    s.(at := Wake(c, s.clientKnown), cmd := Idle, snapshot := seen)
  }

  function Woken<C>(s: State<C>, c: Cmd, known: bool): (s': State<C>)
    ensures s'.client == s.client && SameHistory(s, s')
  {
    var next := if c == Step then Wait else if c == Halt then Leave else Top;
    s.(clientLatch := s.clientLatch || known, at := next)
  }

  function WorkerStep<C>(exec: Handler<C>, s: State<C>): (s': State<C>)
    ensures s'.client == s.client && (s.at.Execute? || SameHistory(s, s'))
  {
    match s.at
    case Execute(c) =>
      var req := Req(c, s.arg, s.ext);
      var out := exec(req, s.cpu);
      s.(at := Publish(c, out), cpu := out.cpu, executed := s.executed + [req], last := out)
    case Publish(c, out) => Published(s, c, out)
    case Complete(c) => Completed(s, c)
    case Wake(c, known) => Woken(s, c, known)
    case _ => WorkerLoop(s)
  }

  function ClientStep<C>(s: State<C>, req: Req): (s': State<C>)
    ensures SameHistory(s, s') && s'.at == s.at && s'.terminated == s.terminated
  {
    match s.client
    case Free => if s.ready && Handled(req.cmd) then s.(client := Post(req)) else s
    case Post(r) =>
      s.(cmd := r.cmd, arg := r.arg, ext := r.ext, clientKnown := true, code := 0, client := Signal,
         posted := s.posted + [r])
    case Signal => s.(workerLatch := true, client := Reset)
    case Reset => s.(clientLatch := false, client := Check)
    case Check => s.(client := if s.cmd == Idle || s.shutdown then Return else Block)
    case Block => if s.clientLatch then s.(client := Reset) else s
    case Return => s.(client := Free)
  }

  /** Besides the two processes: wait time-outs, latches set by signals, termination requests. */
  datatype Event = WorkerMoves | ClientMoves(req: Req) | TimeOut | WorkerPoked | ClientPoked | Terminate

  function Next<C>(exec: Handler<C>, s: State<C>, e: Event): State<C> {
    match e
    case WorkerMoves => WorkerStep(exec, s)
    case ClientMoves(req) => ClientStep(s, req)
    case TimeOut => if s.at == Wait then s.(at := Top) else s
    case WorkerPoked => s.(workerLatch := true)
    case ClientPoked => s.(clientLatch := true)
    case Terminate => s.(terminated := true, workerLatch := true)
  }

  function Run<C>(exec: Handler<C>, s: State<C>, events: seq<Event>): State<C>
    decreases |events|
  {
    if events == [] then s else Run(exec, Next(exec, s, events[0]), events[1..])
  }

  /** The worker has attached; nobody has called yet. */
  predicate Initial<C(==)>(s: State<C>) {
    && s.cmd == Idle && s.ready && !s.shutdown && !s.clientKnown && !s.terminated
    && s.at == Top && s.client == Free && s.cpu == None && s.posted == [] && s.executed == []
  }

  // The invariant

  predicate Going(c: ClientAt) { c in {Signal, Reset, Check, Block} }

  /** The worker holds a command that it has read but not yet completed. */
  predicate Busy<C>(at: WorkerAt<C>) { at.Execute? || at.Publish? || at.Complete? }

  function LastReq(reqs: seq<Req>): Req
    requires reqs != []
  {
    reqs[|reqs| - 1]
  }

  /** Which command is in the cell, and how far it has come. */
  predicate Histories<C(==)>(s: State<C>) {
    && (s.cmd != Idle ==> Handled(s.cmd) && s.posted != [] && LastReq(s.posted) == Req(s.cmd, s.arg, s.ext))
    && (s.cmd == Idle || s.at.Publish? || s.at.Complete? ==> s.executed == s.posted)
    && (s.cmd != Idle && !(s.at.Publish? || s.at.Complete?) ==> s.posted == s.executed + [LastReq(s.posted)])
  }

  predicate Places<C(==)>(s: State<C>) {
    && (s.at.Execute? ==> s.cmd == s.at.cmd)
    && (Busy(s.at) ==> s.cmd != Idle && !s.shutdown && Going(s.client))
    && (s.client.Post? ==> Handled(s.client.req.cmd) && s.cmd == Idle)
    && (Going(s.client) || s.client == Return ==> s.clientKnown && s.posted != [])
    && (s.shutdown <==> s.at.LastWake? || s.at.Gone?)
    && (s.ready <==> !s.shutdown)
    && (s.cmd != Idle && !Going(s.client) ==> s.shutdown)
  }

  predicate Results<C(==)>(s: State<C>) {
    && (s.at.Publish? ==> s.at.out == s.last && s.cpu == s.last.cpu)
    && (s.at.Complete? ==>
          s.cpu == s.last.cpu && s.code == s.last.code && (s.last.ret.Some? ==> s.ret == s.last.ret.value))
    && (s.posted != [] && s.cmd == Idle ==>
          && s.cpu == s.last.cpu && s.code == s.last.code && (s.last.ret.Some? ==> s.ret == s.last.ret.value)
          && (s.cpu.Some? ==> s.snapshot == s.cpu))
  }

  /** No lost wake-up on either side. */
  predicate Latches<C(==)>(s: State<C>) {
    && (s.cmd != Idle && !s.workerLatch && (s.at.Wait? || s.at.Wake?) ==> s.client == Signal)
    && (s.client == Block && !s.clientLatch && (s.cmd == Idle || s.shutdown) ==>
          (s.at.Wake? && s.at.client) || (s.at.LastWake? && s.at.client))
  }

  predicate Inv<C(==)>(s: State<C>) {
    Histories(s) && Places(s) && Results(s) && Latches(s)
  }

  lemma PollingKeeps<C>(exec: Handler<C>, s: State<C>)
    requires Inv(s) && (s.at.Top? || s.at.Clear? || s.at.Wait? || s.at.Gone?)
    ensures Inv(WorkerStep(exec, s))
  {
  }

  lemma ReadingKeeps<C>(exec: Handler<C>, s: State<C>)
    requires Inv(s) && (s.at.Read?)
    ensures Inv(WorkerStep(exec, s))
  {
  }

  lemma WorkingKeeps<C>(exec: Handler<C>, s: State<C>)
    requires Inv(s) && (s.at.Execute? || s.at.Publish?)
    ensures Inv(WorkerStep(exec, s))
  {
  }

  lemma CompletingKeeps<C>(exec: Handler<C>, s: State<C>)
    requires Inv(s) && (s.at.Complete? || s.at.Wake?)
    ensures Inv(WorkerStep(exec, s))
  {
  }

  lemma LeavingKeeps<C>(exec: Handler<C>, s: State<C>)
    requires Inv(s) && (s.at.Leave? || s.at.LastWake?)
    ensures Inv(WorkerStep(exec, s))
  {
  }

  lemma WorkerKeeps<C>(exec: Handler<C>, s: State<C>)
    requires Inv(s)
    ensures Inv(WorkerStep(exec, s))
  {
    hide WorkerStep, Inv;
    match s.at
    case Top | Clear | Wait | Gone => PollingKeeps(exec, s);
    case Read => ReadingKeeps(exec, s);
    case Execute(_) => WorkingKeeps(exec, s);
    case Publish(_, _) => WorkingKeeps(exec, s);
    case Complete(_) => CompletingKeeps(exec, s);
    case Wake(_, _) => CompletingKeeps(exec, s);
    case _ => LeavingKeeps(exec, s);
  }

  lemma CallingKeeps<C>(s: State<C>, req: Req)
    requires Inv(s) && (s.client.Free? || s.client.Return?)
    ensures Inv(ClientStep(s, req))
  {
  }

  lemma PostingKeeps<C>(s: State<C>, req: Req)
    requires Inv(s) && (s.client.Post?)
    ensures Inv(ClientStep(s, req))
  {
  }

  lemma SignallingKeeps<C>(s: State<C>, req: Req)
    requires Inv(s) && (s.client.Signal? || s.client.Reset?)
    ensures Inv(ClientStep(s, req))
  {
  }

  lemma CheckingKeeps<C>(s: State<C>, req: Req)
    requires Inv(s) && (s.client.Check? || s.client.Block?)
    ensures Inv(ClientStep(s, req))
  {
  }

  lemma ClientKeeps<C>(s: State<C>, req: Req)
    requires Inv(s)
    ensures Inv(ClientStep(s, req))
  {
    hide ClientStep, Inv;
    match s.client
    case Free | Return => CallingKeeps(s, req);
    case Post(_) => PostingKeeps(s, req);
    case Signal | Reset => SignallingKeeps(s, req);
    case Check | Block => CheckingKeeps(s, req);
  }

  lemma NextKeeps<C>(exec: Handler<C>, s: State<C>, e: Event)
    requires Inv(s)
    ensures Inv(Next(exec, s, e))
  {
    match e
    case WorkerMoves => WorkerKeeps(exec, s);
    case ClientMoves(req) => ClientKeeps(s, req);
    case _ =>
  }

  /** The invariant holds after every interleaving. */
  lemma {:induction false} RunKeeps<C>(exec: Handler<C>, s: State<C>, events: seq<Event>)
    requires Inv(s)
    ensures Inv(Run(exec, s, events))
    decreases |events|
  {
    if events != [] {
      NextKeeps(exec, s, events[0]);
      RunKeeps(exec, Next(exec, s, events[0]), events[1..]);
    }
  }

  lemma InitialInv<C>(s: State<C>)
    requires Initial(s)
    ensures Inv(s)
  {
  }

  // Exactly once

  /** The commands executed one after the other, with nothing in between. */
  function Replay<C>(exec: Handler<C>, reqs: seq<Req>): Outcome<C>
    decreases |reqs|
  {
    if reqs == [] then Outcome(None, 0, None) else exec(LastReq(reqs), Replay(exec, reqs[..|reqs| - 1]).cpu)
  }

  ghost predicate Replayed<C>(exec: Handler<C>, s: State<C>) {
    s.cpu == Replay(exec, s.executed).cpu && (s.executed != [] ==> s.last == Replay(exec, s.executed))
  }

  lemma WorkerReplays<C>(exec: Handler<C>, s: State<C>)
    requires Replayed(exec, s) && s.at.Execute?
    ensures Replayed(exec, WorkerStep(exec, s))
  {
    var s' := WorkerStep(exec, s);
    assert s'.executed[..|s'.executed| - 1] == s.executed;
  }

  lemma ReplayedKeeps<C>(exec: Handler<C>, s: State<C>, e: Event)
    requires Replayed(exec, s)
    ensures Replayed(exec, Next(exec, s, e))
  {
    hide WorkerStep, ClientStep, Replay;
    match e
    case WorkerMoves =>
      if s.at.Execute? { WorkerReplays(exec, s); }
    case _ =>
  }

  lemma {:induction false} RunReplayed<C>(exec: Handler<C>, s: State<C>, events: seq<Event>)
    requires Replayed(exec, s)
    ensures Replayed(exec, Run(exec, s, events))
    decreases |events|
  {
    hide Next, Replayed;
    if events != [] {
      ReplayedKeeps(exec, s, events[0]);
      RunReplayed(exec, Next(exec, s, events[0]), events[1..]);
    }
  }

  /** When a call is back from the mailbox and the worker has not left, every command posted so far
      was executed exactly once and in order, the client reads its own result, and the snapshot is
      the CPU that its command left. */
  lemma ExactlyOnce<C>(exec: Handler<C>, s0: State<C>, events: seq<Event>)
    requires Initial(s0)
    ensures var s := Run(exec, s0, events);
            s.client == Return && !s.shutdown ==>
              && s.executed == s.posted && s.posted != []
              && var out := Replay(exec, s.posted);
              && s.code == out.code && (out.ret.Some? ==> s.ret == out.ret.value)
              && s.cpu == out.cpu && (out.cpu.Some? ==> s.snapshot == out.cpu)
  {
    hide Run, Next, Replay;
    var s := Run(exec, s0, events);
    InitialInv(s0);
    RunKeeps(exec, s0, events);
    assert Replayed(exec, s0) by { ReplayNothing(exec); }
    RunReplayed(exec, s0, events);
  }

  lemma ReplayNothing<C>(exec: Handler<C>)
    ensures Replay(exec, []) == Outcome(None, 0, None)
  {
  }

  /** At any moment the executed commands are the posted ones, except possibly the last. */
  lemma AtMostOnePending<C>(exec: Handler<C>, s0: State<C>, events: seq<Event>)
    requires Initial(s0)
    ensures var s := Run(exec, s0, events);
            s.executed == s.posted || (s.posted != [] && s.executed == s.posted[..|s.posted| - 1])
  {
    hide Run, Next;
    InitialInv(s0);
    RunKeeps(exec, s0, events);
  }

  // When the last command is dropped

  predicate NoHalt(reqs: seq<Req>) {
    forall i :: 0 <= i < |reqs| ==> reqs[i].cmd != Halt
  }

  /** The worker has executed HALT and is on its way out. */
  predicate Halting<C>(at: WorkerAt<C>) {
    match at
    case Publish(c, _) => c == Halt
    case Complete(c) => c == Halt
    case Wake(c, _) => c == Halt
    case Leave | LastWake(_) | Gone => true
    case _ => false
  }

  function Front(reqs: seq<Req>): seq<Req> {
    if reqs == [] then [] else reqs[..|reqs| - 1]
  }

  /** Unless termination was asked for, the worker leaves after HALT and only then, so HALT comes last. */
  predicate HaltIsLast<C>(s: State<C>) {
    !s.terminated ==>
      && NoHalt(Front(s.executed))
      && (Halting(s.at) <==> s.executed != [] && LastReq(s.executed).cmd == Halt)
  }

  lemma ExecuteHalts<C>(exec: Handler<C>, s: State<C>)
    requires HaltIsLast(s) && s.at.Execute?
    ensures HaltIsLast(WorkerStep(exec, s))
  {
    hide NoHalt, Front, LastReq;
    var req := Req(s.at.cmd, s.arg, s.ext);
    assert WorkerStep(exec, s).executed == s.executed + [req];
    OneMore(s.executed, req);
    NoHaltYet(s.executed);
  }

  lemma OneMore(reqs: seq<Req>, req: Req)
    ensures Front(reqs + [req]) == reqs && LastReq(reqs + [req]) == req
  {
  }

  lemma NoHaltYet(reqs: seq<Req>)
    ensures NoHalt(reqs) <==> NoHalt(Front(reqs)) && (reqs == [] || LastReq(reqs).cmd != Halt)
  {
    if reqs != [] {
      assert reqs == Front(reqs) + [LastReq(reqs)];
    }
  }

  /** The other steps of the worker enter and leave the way out as HALT says. */
  lemma LoopHalts<C>(s: State<C>)
    requires !Busy(s.at) && !s.at.Wake? && (s.at == Read ==> !s.shutdown)
    ensures var s' := WorkerLoop(s);
            s'.terminated == s.terminated && (!s.terminated ==> Halting(s'.at) == Halting(s.at))
  {
    hide WorkerLoop, Halting;
    match s.at
    case Top | Clear | Wait => PollingHalts(s);
    case Read => ReadHalts(s);
    case Leave | LastWake(_) | Gone => LeavingHalts(s);
  }

  lemma PollingHalts<C>(s: State<C>)
    requires s.at.Top? || s.at.Clear? || s.at.Wait?
    ensures var s' := WorkerLoop(s);
            s'.terminated == s.terminated && (!s.terminated ==> Halting(s'.at) == Halting(s.at))
  {
  }

  lemma ReadHalts<C>(s: State<C>)
    requires s.at == Read && !s.shutdown
    ensures var s' := WorkerLoop(s); s'.terminated == s.terminated && Halting(s'.at) == Halting(s.at)
  {
    hide Handled;
  }

  lemma LeavingHalts<C>(s: State<C>)
    requires s.at.Leave? || s.at.LastWake? || s.at.Gone?
    ensures var s' := WorkerLoop(s); s'.terminated == s.terminated && Halting(s'.at) == Halting(s.at)
  {
  }

  lemma ReadingIsEarly<C>(s: State<C>)
    requires Inv(s)
    ensures s.at == Read ==> !s.shutdown
  {
    hide Histories, Results, Latches;
  }

  lemma HandlingHalts<C>(exec: Handler<C>, s: State<C>)
    requires s.at.Publish? || s.at.Complete? || s.at.Wake?
    ensures var s' := WorkerStep(exec, s); s'.terminated == s.terminated && Halting(s'.at) == Halting(s.at)
  {
  }

  lemma PhasesHalt<C>(exec: Handler<C>, s: State<C>)
    requires Inv(s) && !s.at.Execute?
    ensures var s' := WorkerStep(exec, s);
            s'.terminated == s.terminated && (!s.terminated ==> Halting(s'.at) == Halting(s.at))
  {
    hide Inv, WorkerLoop, Halting;
    if s.at.Publish? || s.at.Complete? || s.at.Wake? {
      HandlingHalts(exec, s);
    } else {
      ReadingIsEarly(s);
      LoopHalts(s);
    }
  }

  lemma HaltStays<C>(exec: Handler<C>, s: State<C>, e: Event)
    requires Inv(s) && HaltIsLast(s)
    ensures HaltIsLast(Next(exec, s, e))
  {
    hide WorkerStep, ClientStep, Inv, NoHalt, Front, Halting;
    match e
    case WorkerMoves =>
      if s.at.Execute? { ExecuteHalts(exec, s); } else { PhasesHalt(exec, s); }
    case TimeOut => if s.at == Wait { WaitingIsNotHalting(s); }
    case _ =>
  }

  lemma WaitingIsNotHalting<C>(s: State<C>)
    requires s.at == Wait
    ensures Halting(s.at) == Halting(s.(at := Top).at)
  {
  }

  lemma {:induction false} RunHalts<C>(exec: Handler<C>, s: State<C>, events: seq<Event>)
    requires Inv(s) && HaltIsLast(s)
    ensures HaltIsLast(Run(exec, s, events))
    decreases |events|
  {
    hide Next, Inv, HaltIsLast;
    if events != [] {
      NextKeeps(exec, s, events[0]);
      HaltStays(exec, s, events[0]);
      RunHalts(exec, Next(exec, s, events[0]), events[1..]);
    }
  }

  /** Unless termination was asked for, a call that comes back was executed if and only if no earlier command
      was HALT. */
  lemma ExecutedUnlessAfterHalt<C>(exec: Handler<C>, s0: State<C>, events: seq<Event>)
    requires Initial(s0)
    ensures var s := Run(exec, s0, events);
            s.client == Return && !s.terminated ==> (s.executed == s.posted <==> NoHalt(Front(s.posted)))
  {
    hide Run, Next, Latches, Results;
    var s := Run(exec, s0, events);
    InitialInv(s0);
    assert HaltIsLast(s0);
    RunKeeps(exec, s0, events);
    RunHalts(exec, s0, events);
    if s.client == Return && !s.terminated && s.executed != s.posted {
      assert s.posted == s.executed + [LastReq(s.posted)];
      assert Front(s.posted) == s.executed;
      assert s.executed[|s.executed| - 1].cmd == Halt;
    }
  }

  /** Whatever the reason: if a call comes back without having been executed, the worker has left. */
  lemma DroppedMeansGone<C>(exec: Handler<C>, s0: State<C>, events: seq<Event>)
    requires Initial(s0)
    ensures var s := Run(exec, s0, events); s.client == Return && s.executed != s.posted ==> s.shutdown
  {
    hide Run, Next;
    InitialInv(s0);
    RunKeeps(exec, s0, events);
  }

  // Wake-ups

  predicate WorkerBlocked<C>(s: State<C>) { (s.at.Wait? && !s.workerLatch) || s.at.Gone? }

  predicate ClientBlocked<C>(s: State<C>) { s.client == Block && !s.clientLatch }

  /** A blocked worker faces a command only while the client is about to set its latch, and a client
      blocked on an idle cell only while the worker is about to set the client's: they never wait
      for each other. */
  lemma NoLostWakeUp<C>(exec: Handler<C>, s0: State<C>, events: seq<Event>)
    requires Initial(s0)
    ensures var s := Run(exec, s0, events);
            && (s.at.Wait? && !s.workerLatch && s.cmd != Idle ==> s.client == Signal)
            && (ClientBlocked(s) && (s.cmd == Idle || s.shutdown) ==> s.at.Wake? || s.at.LastWake?)
            && !(WorkerBlocked(s) && ClientBlocked(s))
  {
    hide Run, Next;
    InitialInv(s0);
    RunKeeps(exec, s0, events);
  }

  // Every call ends

  /** Moves that the worker can still make, as long as nobody sets its latch. */
  function WorkerPlace<C>(at: WorkerAt<C>): nat {
    match at
    case Execute(_) => 12
    case Publish(_, _) => 11
    case Complete(_) => 10
    case Wake(_, _) => 9
    case Top => 4
    case Clear => 3
    case Read => 2
    case Leave => 2
    case Wait => 1
    case LastWake(_) => 1
    case Gone => 0
  }

  function ClientPlace(c: ClientAt): nat {
    match c
    case Signal => 5
    case Reset => 3
    case Check => 2
    case Block => 1
    case _ => 0
  }

  function Count(b: bool): nat { if b then 1 else 0 }

  predicate ToExecute<C(==)>(s: State<C>) {
    s.cmd != Idle && !Busy(s.at) && !s.at.Gone? && !s.at.LastWake? && !s.at.Leave?
  }

  predicate Polling<C>(at: WorkerAt<C>) { !at.Top? && !at.Clear? && !at.Leave? && !at.LastWake? && !at.Gone? }

  /** Latch settings, present and to come, that can start another round of the worker's or the client's loop. */
  function WorkerRounds<C>(s: State<C>): nat {
    Count(s.workerLatch && Polling(s.at)) + Count(s.client == Signal)
  }

  function ClientRounds<C(==)>(s: State<C>): nat {
    Count(s.clientLatch && s.client != Reset && s.client != Signal) + Count(!s.at.Gone?)
    + Count(Busy(s.at) || s.at.Wake? || ToExecute(s))
  }

  function Rank<C(==)>(s: State<C>): nat {
    WorkerPlace(s.at) + ClientPlace(s.client) + 4 * WorkerRounds(s) + 4 * ClientRounds(s) + 20 * Count(ToExecute(s))
  }

  predicate IsMove(e: Event) { e.WorkerMoves? || e.ClientMoves? }

  lemma PollingRanks<C>(exec: Handler<C>, s: State<C>)
    requires Inv(s) && Going(s.client) && !WorkerBlocked(s) && (s.at.Top? || s.at.Clear? || s.at.Wait? || s.at.Gone?)
    ensures Rank(WorkerStep(exec, s)) < Rank(s)
  {
    hide Results, Histories;
  }

  lemma ReadingRanks<C>(exec: Handler<C>, s: State<C>)
    requires Inv(s) && Going(s.client) && !WorkerBlocked(s) && (s.at.Read?)
    ensures Rank(WorkerStep(exec, s)) < Rank(s)
  {
    hide Results, Histories, Latches;
    assert !s.shutdown;
    assert s.cmd != Idle ==> Handled(s.cmd) by { PendingIsHandled(s); }
    var s' := WorkerStep(exec, s);
    assert s' == if s.cmd != Idle then s.(at := Execute(s.cmd)) else s.(at := Wait);
  }

  lemma PendingIsHandled<C>(s: State<C>)
    requires Inv(s)
    ensures s.cmd != Idle ==> Handled(s.cmd)
  {
  }

  lemma WorkingRanks<C>(exec: Handler<C>, s: State<C>)
    requires Inv(s) && Going(s.client) && !WorkerBlocked(s) && (s.at.Execute? || s.at.Publish?)
    ensures Rank(WorkerStep(exec, s)) < Rank(s)
  {
    hide Results, Histories;
  }

  lemma CompletingRanks<C>(exec: Handler<C>, s: State<C>)
    requires Inv(s) && Going(s.client) && !WorkerBlocked(s) && (s.at.Complete? || s.at.Wake?)
    ensures Rank(WorkerStep(exec, s)) < Rank(s)
  {
    hide Results, Histories;
  }

  lemma LeavingRanks<C>(exec: Handler<C>, s: State<C>)
    requires Inv(s) && Going(s.client) && !WorkerBlocked(s) && (s.at.Leave? || s.at.LastWake?)
    ensures Rank(WorkerStep(exec, s)) < Rank(s)
  {
    hide Results, Histories;
  }

  lemma WorkerRankDrops<C>(exec: Handler<C>, s: State<C>)
    requires Inv(s) && Going(s.client) && !WorkerBlocked(s)
    ensures Rank(WorkerStep(exec, s)) < Rank(s)
  {
    hide WorkerStep, Inv, Rank;
    match s.at
    case Top | Clear | Wait | Gone => PollingRanks(exec, s);
    case Read => ReadingRanks(exec, s);
    case Execute(_) => WorkingRanks(exec, s);
    case Publish(_, _) => WorkingRanks(exec, s);
    case Complete(_) => CompletingRanks(exec, s);
    case Wake(_, _) => CompletingRanks(exec, s);
    case _ => LeavingRanks(exec, s);
  }

  lemma LatchingRanks<C>(s: State<C>, req: Req)
    requires Inv(s) && s.client in {Signal, Reset}
    ensures Going(ClientStep(s, req).client) && Rank(ClientStep(s, req)) < Rank(s)
  {
    hide Results, Histories;
  }

  lemma CheckingRanks<C>(s: State<C>, req: Req)
    requires Inv(s) && s.client in {Check, Block} && !ClientBlocked(s)
    ensures ClientStep(s, req).client == Return
            || (Going(ClientStep(s, req).client) && Rank(ClientStep(s, req)) < Rank(s))
  {
    hide Results, Histories;
  }

  lemma ClientRankDrops<C>(s: State<C>, req: Req)
    requires Inv(s) && Going(s.client) && !ClientBlocked(s)
    ensures ClientStep(s, req).client == Return
            || (Going(ClientStep(s, req).client) && Rank(ClientStep(s, req)) < Rank(s))
  {
    hide Inv, Rank, ClientStep;
    if s.client in {Signal, Reset} { LatchingRanks(s, req); } else { CheckingRanks(s, req); }
  }

  /** Only moves of the two processes, each of which is able to move. */
  ghost predicate Productive<C>(exec: Handler<C>, s: State<C>, events: seq<Event>)
    decreases |events|
  {
    events == [] ||
    (&& IsMove(events[0])
     && (events[0].WorkerMoves? ==> !WorkerBlocked(s))
     && (events[0].ClientMoves? ==> !ClientBlocked(s))
     && Productive(exec, Next(exec, s, events[0]), events[1..]))
  }

  /** Without a time-out or a signal, in whatever order the two processes move, a call is back after
      fewer moves than its rank; NoLostWakeUp says that one of them can always move. */
  lemma {:induction false} CallEnds<C>(exec: Handler<C>, s: State<C>, events: seq<Event>)
    requires Inv(s) && Going(s.client) && Productive(exec, s, events) && |events| > Rank(s)
    ensures exists k: nat :: k <= |events| && Run(exec, s, events[..k]).client == Return
    decreases |events|
  {
    hide Inv, Rank, WorkerStep, ClientStep;
    var e := events[0];
    var s' := Next(exec, s, e);
    NextKeeps(exec, s, e);
    if e.WorkerMoves? {
      WorkerRankDrops(exec, s);
    } else {
      ClientRankDrops(s, e.req);
    }
    if s'.client == Return {
      assert events[..1][1..] == [];
      assert Run(exec, s, events[..1]).client == Return;
    } else {
      CallEnds(exec, s', events[1..]);
      var k: nat :| k <= |events[1..]| && Run(exec, s', events[1..][..k]).client == Return;
      assert events[..k + 1][1..] == events[1..][..k];
      assert Run(exec, s, events[..k + 1]).client == Return;
    }
  }

  lemma RankBound<C>(s: State<C>)
    ensures Rank(s) <= 57
  {
  }

  // Calling a worker that is on its way out

  lemma {:induction false} RunThen<C>(exec: Handler<C>, s: State<C>, es: seq<Event>, fs: seq<Event>)
    ensures Run(exec, s, es + fs) == Run(exec, Run(exec, s, es), fs)
    decreases |es|
  {
    hide Next;
    if es == [] {
      assert es + fs == fs;
    } else {
      assert (es + fs)[1..] == es[1..] + fs;
      RunThen(exec, Next(exec, s, es[0]), es[1..], fs);
    }
  }

  lemma RunFour<C>(exec: Handler<C>, s: State<C>, a: Event, b: Event, c: Event, d: Event)
    ensures Run(exec, s, [a, b, c, d]) == Next(exec, Next(exec, Next(exec, Next(exec, s, a), b), c), d)
  {
    hide Next, Run;
    var s1 := Next(exec, s, a);
    var s2 := Next(exec, s1, b);
    RunCons(exec, s, a, [b, c, d]);
    RunCons(exec, s1, b, [c, d]);
    RunCons(exec, s2, c, [d]);
    RunCons(exec, Next(exec, s2, c), d, []);
    assert [a] + [b, c, d] == [a, b, c, d] && [b] + [c, d] == [b, c, d] && [c] + [d] == [c, d] && [d] + [] == [d];
  }

  lemma RunCons<C>(exec: Handler<C>, s: State<C>, e: Event, es: seq<Event>)
    ensures Run(exec, s, [e] + es) == Run(exec, Next(exec, s, e), es)
    ensures Run(exec, s, []) == s && Run(exec, Next(exec, s, e), []) == Next(exec, s, e)
  {
    hide Next;
    assert ([e] + es)[1..] == es;
  }

  /** A termination request that arrives after the test at the top of the loop and before the latch is reset leaves
      the worker waiting with a clear latch: it is seen after the time-out. */
  lemma TerminationCanWait<C>(exec: Handler<C>, s0: State<C>)
    requires Initial(s0)
    ensures var w := WorkerMoves;
            var s := Run(exec, s0, [w, Terminate, w, w]); s.terminated && WorkerBlocked(s)
  {
    hide Run;
    RunFour(exec, s0, WorkerMoves, Terminate, WorkerMoves, WorkerMoves);
  }

  const HALT := Req(Halt, 0, 0)

  /** A client posts; the worker finds the command while the client goes to look. */
  lemma PostFour<C>(exec: Handler<C>, s: State<C>, req: Req)
    requires s.client == Free && s.ready && Handled(req.cmd)
    ensures var e := ClientMoves(req);
            var t := Run(exec, s, [e, e, e, e]);
            && t.client == Check && t.cmd == req.cmd && t.arg == req.arg && t.ext == req.ext && t.code == 0
            && t.posted == s.posted + [req] && t.executed == s.executed && t.at == s.at
            && t.ready && t.shutdown == s.shutdown && t.terminated == s.terminated && t.clientKnown
  {
    var e := ClientMoves(req);
    RunFour(exec, s, e, e, e, e);
    var s1 := s.(client := Post(req));
    assert Next(exec, s, e) == s1;
    var s2 := Next(exec, s1, e);
    assert s2.client == Signal;
    assert Next(exec, s2, e) == s2.(workerLatch := true, client := Reset);
  }

  /** The worker executes HALT. */
  lemma HaltExecuted<C>(exec: Handler<C>, s: State<C>)
    requires s.at == Top && !s.terminated && !s.shutdown && s.cmd == Halt && s.arg == 0 && s.ext == 0
             && s.client == Check
    ensures var w := WorkerMoves;
            var t := Run(exec, s, [w, w, w, w]);
            && t.at.Publish? && t.at.cmd == Halt && t.executed == s.executed + [HALT] && t.posted == s.posted
            && t.client == Check && t.ready == s.ready && !t.shutdown && t.clientKnown == s.clientKnown
  {
    hide Run, ClientStep;
    RunFour(exec, s, WorkerMoves, WorkerMoves, WorkerMoves, WorkerMoves);
    var s1 := s.(at := Clear);
    assert Next(exec, s, WorkerMoves) == s1;
    var s2 := s1.(workerLatch := false, at := Read);
    assert Next(exec, s1, WorkerMoves) == s2;
    var s3 := s2.(at := Execute(Halt));
    assert Next(exec, s2, WorkerMoves) == s3;
  }

  /** The result is published, the cell becomes idle, and the client comes back, free for its next call. */
  lemma HaltReturns<C>(exec: Handler<C>, s: State<C>)
    requires s.at.Publish? && s.at.cmd == Halt && s.client == Check && s.ready
    ensures var c := ClientMoves(HALT);
            var t := Run(exec, s, [WorkerMoves, WorkerMoves, c, c]);
            && t.at == Wake(Halt, s.clientKnown) && t.client == Free && t.executed == s.executed && t.posted == s.posted
            && t.ready && t.shutdown == s.shutdown
  {
    var c := ClientMoves(HALT);
    RunFour(exec, s, WorkerMoves, WorkerMoves, c, c);
  }

  lemma WorkerLeaves<C>(exec: Handler<C>, s: State<C>, req: Req)
    requires s.at.Wake? && s.at.cmd == Halt && s.client == Check && s.code == 0
    ensures var t := Run(exec, s, [WorkerMoves, WorkerMoves, WorkerMoves, ClientMoves(req)]);
            t.client == Return && t.executed == s.executed && t.posted == s.posted && t.code == 0
  {
    hide Run;
    RunFour(exec, s, WorkerMoves, WorkerMoves, WorkerMoves, ClientMoves(req));
    var s1 := Next(exec, s, WorkerMoves);
    assert s1.at == Leave && s1.client == Check;
    assert Next(exec, s1, WorkerMoves).at.LastWake?;
  }

  /** A command posted between the end of a HALT call and the worker's departure is never executed,
      and its call still returns with result code 0. */
  lemma DroppedAfterHalt<C>(exec: Handler<C>, s0: State<C>, req: Req)
    requires Initial(s0) && Handled(req.cmd)
    ensures exists events ::
              var s := Run(exec, s0, events);
              s.client == Return && s.code == 0 && s.posted == [HALT, req] && s.executed == [HALT]
  {
    hide Run, Next;
    var c, d, w := ClientMoves(HALT), ClientMoves(req), WorkerMoves;
    PostFour(exec, s0, HALT);
    var s1 := Run(exec, s0, [c, c, c, c]);
    HaltExecuted(exec, s1);
    var s2 := Run(exec, s1, [w, w, w, w]);
    HaltReturns(exec, s2);
    var s3 := Run(exec, s2, [w, w, c, c]);
    PostFour(exec, s3, req);
    var s4 := Run(exec, s3, [d, d, d, d]);
    WorkerLeaves(exec, s4, req);
    var s5 := Run(exec, s4, [w, w, w, d]);
    var e1 := [c, c, c, c] + [w, w, w, w];
    var e2 := e1 + [w, w, c, c];
    var e3 := e2 + [d, d, d, d];
    RunThen(exec, s0, [c, c, c, c], [w, w, w, w]);
    RunThen(exec, s0, e1, [w, w, c, c]);
    RunThen(exec, s0, e2, [d, d, d, d]);
    RunThen(exec, s0, e3, [w, w, w, d]);
    assert Run(exec, s0, e3 + [w, w, w, d]) == s5;
  }
}
