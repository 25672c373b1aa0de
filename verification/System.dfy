/**
 The interpreter's memory is the MMU: its loads and stores as an environment, and when a faulting access,
 repeated at once, faults again without further effect.
 */
module System {
  import opened Words
  import opened Memory
  import opened Sv39
  import opened Tlb
  import opened Mmu
  import Interp
  import Jit
  import RunLoop

  /** What loads and stores work on: privilege and satp, RAM and devices. */
  datatype Space<D> = Space(cfg: Config, sys: Sys<D>)

  function MmuLoad<D>(devices: Devices<D>, m: Space<D>, addr: Word, size: Word): Interp.Access<Space<D>> {
    var r := LoadSpec(devices, m.cfg, m.sys, addr, size, ReadAccess);
    Interp.Access(Wrap(r.exc), Wrap(r.val), m.(sys := r.sys))
  }

  function MmuStore<D>(devices: Devices<D>, m: Space<D>, addr: Word, size: Word, v: Word): Interp.Access<Space<D>> {
    var r := StoreSpec(devices, m.cfg, m.sys, addr, size, v);
    Interp.Access(Wrap(r.exc), 0, m.(sys := r.sys))
  }

  /** The floating-point helper over this memory. */
  type Fp<!D> = (Interp.Guest<Space<D>>, Interp.InsnWord) -> Interp.FpResult<Space<D>>

  function MmuEnv<D>(devices: Devices<D>, fetch: Word -> Interp.Fetched, fp: Fp<D>, junk: nat -> Word)
    : Interp.Env<Space<D>>
  {
    Interp.Env(fetch, (m, addr, size) => MmuLoad(devices, m, addr, size),
               (m, addr, size, v) => MmuStore(devices, m, addr, size, v), fp, junk)
  }

  // Pages whose translation has no more effects

  /** The page is mapped to frame `f`, and its leaf has the bits that an access sets. */
  predicate Settled(ram: seq<Byte>, cfg: Config, vpn: nat, access: Access, f: nat) {
    var l := FindLeaf(ram, TableOf(cfg.rootPpn), vpn, 2);
    && l.Leaf? && Permits(cfg, Rd(l.pte), Wr(l.pte), Ex(l.pte), Us(l.pte), access) && Aligned(l.pte, l.level)
    && Touched(l.pte, access == WriteAccess) == l.pte && Frame(l.pte, vpn, l.level) == f
  }

  predicate Walks(cfg: Config) { cfg.priv != Machine && cfg.mode != BARE }

  lemma SettledTranslates(ram: seq<Byte>, cfg: Config, vaddr: Word, access: Access, f: nat)
    requires Walks(cfg) && Settled(ram, cfg, vaddr / PAGE, access, f)
    ensures TranslateSpec(ram, cfg, vaddr, access) == Walked(Pa(f * PAGE + vaddr % PAGE), ram)
  {
    hide V, Rd, Wr, Ex, Us, Ac, Di, Ppn, Touched, FindLeaf, Permits, Aligned, Frame, ReadLe, WriteLe;
    var l := FindLeaf(ram, TableOf(cfg.rootPpn), vaddr / PAGE, 2);
    WriteSame(ram, l.addr - RAM_BASE, 8);
  }

  /** Touching any leaf keeps settled pages settled. */
  lemma TouchKeepsSettled(ram: seq<Byte>, cfg: Config, vaddr: Word, access: Access, vpn: nat, f: nat)
    requires Walks(cfg) && Settled(ram, cfg, vpn, access, f)
    ensures Settled(TranslateSpec(ram, cfg, vaddr, access).ram, cfg, vpn, access, f)
  {
    hide V, Rd, Wr, Ex, Us, Ac, Di, Ppn, Touched, FindLeaf, Permits, Aligned, Frame, SetPte, PteAt, InRam, TableOf;
    var table := TableOf(cfg.rootPpn);
    var l := FindLeaf(ram, table, vaddr / PAGE, 2);
    if l.Leaf? {
      EntriesAreAligned(0, 0, 0, cfg.rootPpn);
      LeafIsAligned(ram, table, vaddr / PAGE, 2);
      TouchingKeepsLeaves(ram, l.addr, access == WriteAccess, table, vpn, 2);
    }
  }

  /** A translation settles its own page. */
  lemma TranslationSettles(ram: seq<Byte>, cfg: Config, vaddr: Word, access: Access) returns (f: nat)
    requires Walks(cfg) && TranslateSpec(ram, cfg, vaddr, access).out.Pa?
    ensures var w := TranslateSpec(ram, cfg, vaddr, access);
            w.out.addr == f * PAGE + vaddr % PAGE && Settled(w.ram, cfg, vaddr / PAGE, access, f)
  {
    hide V, Rd, Wr, Ex, Us, Ac, Di, Ppn, FindLeaf, Permits, SetPte, PteAt, InRam, TableOf;
    var table, vpn := TableOf(cfg.rootPpn), vaddr / PAGE;
    var l := FindLeaf(ram, table, vpn, 2);
    f := Frame(l.pte, vpn, l.level);
    EntriesAreAligned(0, 0, 0, cfg.rootPpn);
    LeafIsAligned(ram, table, vpn, 2);
    TouchingKeepsLeaves(ram, l.addr, access == WriteAccess, table, vpn, 2);
    TouchedKeeps(l.pte, access == WriteAccess);
    TouchedTwice(l.pte, access == WriteAccess);
  }

  lemma TouchedTwice(p: Pte, write: bool)
    ensures Touched(Touched(p, write), write) == Touched(p, write)
  {
    hide V, Rd, Wr, Ex, Us, Ppn;
    TouchedKeeps(p, write);
  }

  lemma PhysicalNeverFaults(ram: seq<Byte>, cfg: Config, vaddr: Word, access: Access)
    requires !Walks(cfg)
    ensures TranslateSpec(ram, cfg, vaddr, access) == Walked(Pa(vaddr), ram)
  {
  }

  lemma FaultIsClean(ram: seq<Byte>, cfg: Config, vaddr: Word, access: Access)
    ensures var w := TranslateSpec(ram, cfg, vaddr, access); w.out.Fault? ==> w.ram == ram && 0 < w.out.code < 16
  {
    hide FindLeaf, SetPte, Permits, Aligned;
  }

  // Accesses within a page

  /** A fault within a page has no effect at all, so it is repeated unchanged, whatever RAM and devices hold. */
  lemma WithinPageIsStable<D>(devices: Devices<D>, env: Interp.Env<Space<D>>, m: Space<D>, addr: Word, size: Word,
                              v: Word)
    requires forall m', a, n :: env.load(m', a, n) == MmuLoad(devices, m', a, n)
    requires forall m', a, n, u :: env.store(m', a, n, u) == MmuStore(devices, m', a, n, u)
    requires !Crosses(addr, size)
    ensures Jit.StableLoad(env, m, addr, size) && Jit.StableStore(env, m, addr, size, v)
  {
    hide TranslateSpec;
    FaultIsClean(m.sys.ram, m.cfg, addr, ReadAccess);
    FaultIsClean(m.sys.ram, m.cfg, addr, WriteAccess);
    assert m.(sys := m.sys.(ram := m.sys.ram)) == m;
  }

  // Devices at the end of a page

  /** The bytes that an access of up to eight bytes can touch on the page it leaves. */
  predicate Edge(pa: Word) {
    pa % PAGE > PAGE - 8
  }

  ghost predicate QuietEdges<D(!new)>(devices: Devices<D>) {
    forall d, pa :: Edge(pa) ==> devices.load(d, pa, 1).1 == d
  }

  /** The device holds this byte already: storing it changes nothing. */
  ghost predicate Written<D>(devices: Devices<D>, d: D, pa: Word, b: Byte) {
    forall ram :: devices.store(d, ram, pa, 1, b) == (d, ram)
  }

  /** Stores at page ends leave RAM alone, and a byte stored there stays whatever follows elsewhere. */
  ghost predicate SteadyEdges<D(!new)>(devices: Devices<D>) {
    && (forall d, ram, pa, b: Byte :: Edge(pa) ==>
          devices.store(d, ram, pa, 1, b).1 == ram && Written(devices, devices.store(d, ram, pa, 1, b).0, pa, b))
    && (forall d, ram, pa, b: Byte, pa', b': Byte ::
          Edge(pa) && Edge(pa') && pa != pa' && Written(devices, d, pa, b) ==>
            Written(devices, devices.store(d, ram, pa', 1, b').0, pa, b))
  }

  // Loads across a page

  /** The rest of a load keeps settled pages settled. */
  lemma {:induction false} LoadKeepsSettled<D>(devices: Devices<D>, cfg: Config, sys: Sys<D>, vaddr: Word,
                                               access: Access, i: nat, size: nat, acc: nat, vpn: nat, f: nat)
    requires i <= size && Walks(cfg) && Settled(sys.ram, cfg, vpn, access, f)
    ensures Settled(LoadBytes(devices, cfg, sys, vaddr, access, i, size, acc).sys.ram, cfg, vpn, access, f)
    decreases size - i
  {
    hide TranslateSpec, Settled, WithByte;
    if i < size {
      var w := TranslateSpec(sys.ram, cfg, Wrap(vaddr + i), access);
      TouchKeepsSettled(sys.ram, cfg, Wrap(vaddr + i), access, vpn, f);
      if w.out.Pa? {
        var (b, sys') := BusLoad(devices, sys.(ram := w.ram), w.out.addr, 1);
        LoadKeepsSettled(devices, cfg, sys', vaddr, access, i + 1, size, WithByte(acc, b, i), vpn, f);
      }
    }
  }

  /** Bytes of a settled page cannot fault. */
  lemma {:induction false} SettledLoadSucceeds<D>(devices: Devices<D>, cfg: Config, sys: Sys<D>, vaddr: Word,
                                                  access: Access, i: nat, size: nat, acc: nat, f: nat)
    requires i <= size && Walks(cfg) && Wrap(vaddr + i) % PAGE + (size - i) <= PAGE
    requires i < size ==> Settled(sys.ram, cfg, Wrap(vaddr + i) / PAGE, access, f)
    ensures LoadBytes(devices, cfg, sys, vaddr, access, i, size, acc).exc == 0
    decreases size - i
  {
    hide TranslateSpec, Settled, WithByte;
    if i < size {
      var v := Wrap(vaddr + i);
      SettledTranslates(sys.ram, cfg, v, access, f);
      var (b, sys') := BusLoad(devices, sys.(ram := sys.ram), f * PAGE + v % PAGE, 1);
      NextOffset(vaddr, i);
      NextByte(v);
      if i + 1 == size {
        AllLoaded(devices, cfg, sys', vaddr, access, size, WithByte(acc, b, i));
      } else {
        SettledLoadSucceeds(devices, cfg, sys', vaddr, access, i + 1, size, WithByte(acc, b, i), f);
      }
    }
  }

  lemma NextOffset(vaddr: Word, i: nat)
    ensures Wrap(vaddr + i + 1) == Plus(Wrap(vaddr + i), 1)
  {
  }

  lemma AllLoaded<D>(devices: Devices<D>, cfg: Config, sys: Sys<D>, vaddr: Word, access: Access, size: nat, acc: nat)
    ensures LoadBytes(devices, cfg, sys, vaddr, access, size, size, acc) == Result(0, acc, sys)
  {
  }

  /** On a new page the rest of a load either faults at once or does not fault at all. */
  lemma LoadOnNewPage<D>(devices: Devices<D>, cfg: Config, sys: Sys<D>, vaddr: Word, access: Access, i: nat, size: nat,
                         acc: nat)
    requires i <= size && Walks(cfg) && Wrap(vaddr + i) % PAGE + (size - i) <= PAGE
    requires LoadBytes(devices, cfg, sys, vaddr, access, i, size, acc).exc != 0
    ensures TranslateSpec(sys.ram, cfg, Wrap(vaddr + i), access).out.Fault?
  {
    hide TranslateSpec, Settled, WithByte;
    var v := Wrap(vaddr + i);
    var w := TranslateSpec(sys.ram, cfg, v, access);
    if w.out.Pa? {
      var f := TranslationSettles(sys.ram, cfg, v, access);
      SettledTranslates(w.ram, cfg, v, access, f);
      SettledLoadSucceeds(devices, cfg, sys.(ram := w.ram), vaddr, access, i, size, acc, f);
    }
  }

  /** A byte at the end of a settled page is read without effect. */
  lemma QuietByte<D(!new)>(devices: Devices<D>, cfg: Config, sys: Sys<D>, vaddr: Word, access: Access, i: nat,
                           size: nat, acc: nat, f: nat) returns (acc': nat)
    requires QuietEdges(devices) && i < size && Walks(cfg) && Edge(Wrap(vaddr + i))
    requires Settled(sys.ram, cfg, Wrap(vaddr + i) / PAGE, access, f)
    ensures LoadBytes(devices, cfg, sys, vaddr, access, i, size, acc)
         == LoadBytes(devices, cfg, sys, vaddr, access, i + 1, size, acc')
  {
    hide TranslateSpec, Settled, WithByte, Wrap;
    var v := Wrap(vaddr + i);
    SettledTranslates(sys.ram, cfg, v, access, f);
    InFrame(f, v % PAGE);
    var (b, sys1) := BusLoad(devices, sys.(ram := sys.ram), f * PAGE + v % PAGE, 1);
    assert sys1 == sys;
    acc' := WithByte(acc, b, i);
  }

  /** Repeating a load after its fault: the same fault, and nothing changes any more. */
  lemma {:induction false} LoadAgain<D(!new)>(devices: Devices<D>, cfg: Config, sys: Sys<D>, vaddr: Word,
                                              access: Access, i: nat, size: nat, acc: nat, acc': nat)
    requires QuietEdges(devices) && i <= size <= i + 8 && Walks(cfg)
    requires Wrap(vaddr + i) % PAGE == 0 || Edge(Wrap(vaddr + i))
    requires LoadBytes(devices, cfg, sys, vaddr, access, i, size, acc).exc != 0
    ensures var r := LoadBytes(devices, cfg, sys, vaddr, access, i, size, acc);
            var again := LoadBytes(devices, cfg, r.sys, vaddr, access, i, size, acc');
            again.exc == r.exc && again.sys == r.sys
    decreases size - i
  {
    hide TranslateSpec, Settled, WithByte, QuietEdges, Wrap;
    var r := LoadBytes(devices, cfg, sys, vaddr, access, i, size, acc);
    var v := Wrap(vaddr + i);
    var w := TranslateSpec(sys.ram, cfg, v, access);
    if w.out.Fault? {
      FaultIsClean(sys.ram, cfg, v, access);
      assert sys.(ram := sys.ram) == sys;
    } else if v % PAGE == 0 {
      LoadOnNewPage(devices, cfg, sys, vaddr, access, i, size, acc);
      assert false;
    } else {
      var f := TranslationSettles(sys.ram, cfg, v, access);
      var (b, sys1) := BusLoad(devices, sys.(ram := w.ram), w.out.addr, 1);
      var acc1 := WithByte(acc, b, i);
      LoadKeepsSettled(devices, cfg, sys1, vaddr, access, i + 1, size, acc1, v / PAGE, f);
      var acc2 := QuietByte(devices, cfg, r.sys, vaddr, access, i, size, acc', f);
      NextOffset(vaddr, i);
      NextByte(v);
      LoadAgain(devices, cfg, sys1, vaddr, access, i + 1, size, acc1, acc2);
    }
  }

  lemma InFrame(f: nat, off: nat)
    requires off < PAGE
    ensures (f * PAGE + off) % PAGE == off && (f * PAGE + off) / PAGE == f
  {
    DivisionIs(f * PAGE + off, PAGE, f, off);
  }

  lemma {:induction false} PhysicalLoadSucceeds<D>(devices: Devices<D>, cfg: Config, sys: Sys<D>, vaddr: Word,
                                                   access: Access, i: nat, size: nat, acc: nat)
    requires i <= size && !Walks(cfg)
    ensures LoadBytes(devices, cfg, sys, vaddr, access, i, size, acc).exc == 0
    decreases size - i
  {
    hide TranslateSpec, BusLoad, WithByte;
    if i < size {
      PhysicalNeverFaults(sys.ram, cfg, Wrap(vaddr + i), access);
      var (b, sys') := BusLoad(devices, sys.(ram := sys.ram), Wrap(vaddr + i), 1);
      PhysicalLoadSucceeds(devices, cfg, sys', vaddr, access, i + 1, size, WithByte(acc, b, i));
    }
  }

  lemma {:induction false} LoadCodes<D>(devices: Devices<D>, cfg: Config, sys: Sys<D>, vaddr: Word, access: Access,
                                        i: nat, size: nat, acc: nat)
    requires i <= size
    ensures LoadBytes(devices, cfg, sys, vaddr, access, i, size, acc).exc < 16
    decreases size - i
  {
    hide TranslateSpec, BusLoad, WithByte;
    if i < size {
      var w := TranslateSpec(sys.ram, cfg, Wrap(vaddr + i), access);
      FaultIsClean(sys.ram, cfg, Wrap(vaddr + i), access);
      if w.out.Pa? {
        var (b, sys') := BusLoad(devices, sys.(ram := w.ram), w.out.addr, 1);
        LoadCodes(devices, cfg, sys', vaddr, access, i + 1, size, WithByte(acc, b, i));
      }
    }
  }

  /** The fault of a page-crossing load is stable, whatever is mapped where. */
  lemma CrossingLoadIsStable<D(!new)>(devices: Devices<D>, env: Interp.Env<Space<D>>, m: Space<D>, addr: Word,
                                      size: Word)
    requires forall m', a, n :: env.load(m', a, n) == MmuLoad(devices, m', a, n)
    requires QuietEdges(devices) && Crosses(addr, size) && size <= 8
    ensures Jit.StableLoad(env, m, addr, size)
  {
    hide TranslateSpec, LoadBytes, QuietEdges;
    LoadCodes(devices, m.cfg, m.sys, addr, ReadAccess, 0, size, 0);
    var r := LoadBytes(devices, m.cfg, m.sys, addr, ReadAccess, 0, size, 0);
    if !Walks(m.cfg) {
      PhysicalLoadSucceeds(devices, m.cfg, m.sys, addr, ReadAccess, 0, size, 0);
    } else if r.exc != 0 {
      LoadAgain(devices, m.cfg, m.sys, addr, ReadAccess, 0, size, 0, 0);
    }
  }

  /** The devices after `n` bytes have been read from `pa` on. */
  function AfterReads<D>(devices: Devices<D>, d: D, pa: nat, n: nat): D
    decreases n
  {
    if n == 0 then d else AfterReads(devices, devices.load(d, Wrap(pa), 1).1, pa + 1, n - 1)
  }

  /** The frame holds no RAM. */
  predicate DeviceFrame(ramSize: nat, f: nat) {
    f * PAGE + PAGE <= RAM_BASE || RAM_BASE + ramSize <= f * PAGE
  }

  lemma OneDeviceByte<D>(devices: Devices<D>, cfg: Config, sys: Sys<D>, vaddr: Word, i: nat, size: nat, acc: nat,
                         f: nat)
    returns (sys1: Sys<D>, acc1: nat)
    requires i < size && Walks(cfg) && Settled(sys.ram, cfg, Wrap(vaddr + i) / PAGE, ReadAccess, f)
    requires f * PAGE + PAGE <= TWO_64 && DeviceFrame(|sys.ram|, f)
    ensures sys1 == sys.(dev := devices.load(sys.dev, f * PAGE + Wrap(vaddr + i) % PAGE, 1).1)
    ensures LoadBytes(devices, cfg, sys, vaddr, ReadAccess, i, size, acc)
         == LoadBytes(devices, cfg, sys1, vaddr, ReadAccess, i + 1, size, acc1)
  {
    hide TranslateSpec, Settled, WithByte, Wrap;
    var v := Wrap(vaddr + i);
    SettledTranslates(sys.ram, cfg, v, ReadAccess, f);
    var r := devices.load(sys.dev, f * PAGE + v % PAGE, 1);
    sys1, acc1 := sys.(dev := r.1), WithByte(acc, r.0, i);
  }

  /** A load of which `k` bytes lie on a settled device page, with nothing mapped behind it, reads them all. */
  lemma {:induction false} ReadsDevice<D>(devices: Devices<D>, cfg: Config, sys: Sys<D>, vaddr: Word, i: nat, k: nat,
                                          size: nat, acc: nat, f: nat)
    requires Walks(cfg) && i + k < size && (k > 0 ==> Settled(sys.ram, cfg, Wrap(vaddr + i) / PAGE, ReadAccess, f))
    requires k > 0 ==> Wrap(vaddr + i) % PAGE + k == PAGE && f * PAGE + PAGE <= TWO_64 && DeviceFrame(|sys.ram|, f)
    requires TranslateSpec(sys.ram, cfg, Wrap(vaddr + i + k), ReadAccess).out.Fault?
    ensures var r := LoadBytes(devices, cfg, sys, vaddr, ReadAccess, i, size, acc);
            && r.sys == sys.(dev := AfterReads(devices, sys.dev, f * PAGE + Wrap(vaddr + i) % PAGE, k))
            && r.exc == TranslateSpec(sys.ram, cfg, Wrap(vaddr + i + k), ReadAccess).out.code
    decreases k
  {
    hide TranslateSpec, Settled, DeviceFrame, LoadBytes, Wrap;
    var v := Wrap(vaddr + i);
    if k == 0 {
      FaultsAtOnce(devices, cfg, sys, vaddr, i, size, acc);
    } else {
      var sys1, acc1 := OneDeviceByte(devices, cfg, sys, vaddr, i, size, acc, f);
      NextOffset(vaddr, i);
      NextByte(v);
      WordIsWrapped(f * PAGE + v % PAGE);
      ReadsDevice(devices, cfg, sys1, vaddr, i + 1, k - 1, size, acc1, f);
    }
  }

  lemma FaultsAtOnce<D>(devices: Devices<D>, cfg: Config, sys: Sys<D>, vaddr: Word, i: nat, size: nat, acc: nat)
    requires i < size && TranslateSpec(sys.ram, cfg, Wrap(vaddr + i), ReadAccess).out.Fault?
    ensures LoadBytes(devices, cfg, sys, vaddr, ReadAccess, i, size, acc)
         == Result(TranslateSpec(sys.ram, cfg, Wrap(vaddr + i), ReadAccess).out.code, 0, sys)
  {
    hide TranslateSpec, Wrap;
    FaultIsClean(sys.ram, cfg, Wrap(vaddr + i), ReadAccess);
    assert sys.(ram := sys.ram) == sys;
  }

  /** For arbitrary devices: a load that begins on a device page and faults on the next reads the device bytes
      once more in the fallback, so its fault is stable if and only if that leaves the devices alone. */
  lemma DeviceIsReadTwice<D>(devices: Devices<D>, env: Interp.Env<Space<D>>, m: Space<D>, addr: Word, size: Word)
    requires forall m', a, n :: env.load(m', a, n) == MmuLoad(devices, m', a, n)
    requires Walks(m.cfg) && Crosses(addr, size)
    requires var w := TranslateSpec(m.sys.ram, m.cfg, addr, ReadAccess);
             && w.out.Pa? && DeviceFrame(|m.sys.ram|, w.out.addr / PAGE)
             && TranslateSpec(w.ram, m.cfg, Wrap(addr + PAGE - addr % PAGE), ReadAccess).out.Fault?
    ensures var k, pa := PAGE - addr % PAGE, TranslateSpec(m.sys.ram, m.cfg, addr, ReadAccess).out.addr;
            var once := AfterReads(devices, m.sys.dev, pa, k);
            Jit.StableLoad(env, m, addr, size) <==> AfterReads(devices, once, pa, k) == once
  {
    hide TranslateSpec, Settled, LoadBytes, DeviceFrame, AfterReads, Wrap;
    var w := TranslateSpec(m.sys.ram, m.cfg, addr, ReadAccess);
    var f := TranslationSettles(m.sys.ram, m.cfg, addr, ReadAccess);
    var k := PAGE - addr % PAGE;
    InFrame(f, addr % PAGE);
    FrameFits(f, addr % PAGE);
    WordIsWrapped(addr);
    SettledTranslates(w.ram, m.cfg, addr, ReadAccess, f);
    FaultIsClean(w.ram, m.cfg, Wrap(addr + k), ReadAccess);
    FirstTranslation(devices, m.cfg, m.sys, addr, size);
    var once := m.sys.(ram := w.ram, dev := AfterReads(devices, m.sys.dev, w.out.addr, k));
    assert addr + 0 + k == addr + PAGE - addr % PAGE;
    ReadsDevice(devices, m.cfg, m.sys.(ram := w.ram), addr, 0, k, size, 0, f);
    ReadsDevice(devices, m.cfg, once, addr, 0, k, size, 0, f);
    var code := TranslateSpec(w.ram, m.cfg, Wrap(addr + k), ReadAccess).out.code;
    WordIsWrapped(code);
    assert MmuLoad(devices, m, addr, size).exc == code;
    assert MmuLoad(devices, m, addr, size).mem == m.(sys := once);
  }

  lemma WordIsWrapped(x: Word)
    ensures Wrap(x) == x && Wrap(x + 0) == x
  {
  }

  lemma FrameFits(f: nat, off: nat)
    requires f * PAGE + off < TWO_64
    ensures f * PAGE + PAGE <= TWO_64
  {
  }

  /** The A bit that the first byte sets is all that its own translation changes. */
  lemma FirstTranslation<D>(devices: Devices<D>, cfg: Config, sys: Sys<D>, addr: Word, size: Word)
    requires Walks(cfg) && size > 0 && TranslateSpec(sys.ram, cfg, addr, ReadAccess).out.Pa?
    ensures var w := TranslateSpec(sys.ram, cfg, addr, ReadAccess);
            LoadBytes(devices, cfg, sys, addr, ReadAccess, 0, size, 0)
            == LoadBytes(devices, cfg, sys.(ram := w.ram), addr, ReadAccess, 0, size, 0)
  {
    hide TranslateSpec, Settled, WithByte, BusLoad;
    WordIsWrapped(addr);
    var w := TranslateSpec(sys.ram, cfg, addr, ReadAccess);
    var f := TranslationSettles(sys.ram, cfg, addr, ReadAccess);
    SettledTranslates(w.ram, cfg, addr, ReadAccess, f);
  }

  // Stores across a page

  lemma StoredKeepsSettled(before: seq<Byte>, after: seq<Byte>, cfg: Config, vpn: nat, access: Access, f: nat)
    requires KeepsLeaves(before, after, TableOf(cfg.rootPpn)) && Settled(before, cfg, vpn, access, f)
    ensures Settled(after, cfg, vpn, access, f)
  {
    hide V, Rd, Wr, Ex, Us, Ac, Di, Ppn, Touched, Permits, Aligned, Frame, TableOf, FindLeaf;
    assert FindLeaf(after, TableOf(cfg.rootPpn), vpn, 2) == FindLeaf(before, TableOf(cfg.rootPpn), vpn, 2);
  }

  lemma ByteStored(ram: seq<Byte>, off: nat, v: nat)
    requires off < |ram|
    ensures WriteLe(ram, off, 1, v) == ram[off := v % 0x100]
  {
    assert WriteLe(ram[off := v % 0x100], off + 1, 0, v / 0x100) == ram[off := v % 0x100];
  }

  lemma NextByte(vaddr: Word)
    ensures var u := Plus(vaddr, 1);
            if vaddr % PAGE == PAGE - 1 then u % PAGE == 0
            else u == vaddr + 1 && u / PAGE == vaddr / PAGE && u % PAGE == vaddr % PAGE + 1
  {
    var q, r := vaddr / PAGE, vaddr % PAGE;
    assert vaddr == PAGE * q + r;
    if r != PAGE - 1 {
      DivisionIs(vaddr + 1, PAGE, q, r + 1);
    } else {
      DivisionIs(vaddr + 1, PAGE, q + 1, 0);
    }
  }

  /** One byte to a settled page. */
  lemma SettledStore<D>(devices: Devices<D>, cfg: Config, sys: Sys<D>, u: Word, n: nat, val: nat, f: nat)
    returns (pa: Word, sys1: Sys<D>)
    requires n > 0 && Walks(cfg) && Settled(sys.ram, cfg, u / PAGE, WriteAccess, f)
    requires BytesAvoidTables(devices, cfg, sys, u, n, val)
    ensures pa == f * PAGE + u % PAGE && sys1 == BusStore(devices, sys, pa, 1, val % 0x100)
    ensures StoreBytes(devices, cfg, sys, u, n, val) == StoreBytes(devices, cfg, sys1, Plus(u, 1), n - 1, val / 0x100)
    ensures BytesAvoidTables(devices, cfg, sys1, Plus(u, 1), n - 1, val / 0x100)
    ensures forall p, f' :: Settled(sys.ram, cfg, p, WriteAccess, f') ==> Settled(sys1.ram, cfg, p, WriteAccess, f')
  {
    hide TranslateSpec, Settled, KeepsLeaves, BusStore;
    SettledTranslates(sys.ram, cfg, u, WriteAccess, f);
    pa := f * PAGE + u % PAGE;
    assert sys.(ram := sys.ram) == sys;
    sys1 := BusStore(devices, sys, pa, 1, val % 0x100);
    forall p, f' | Settled(sys.ram, cfg, p, WriteAccess, f') ensures Settled(sys1.ram, cfg, p, WriteAccess, f') {
      StoredKeepsSettled(sys.ram, sys1.ram, cfg, p, WriteAccess, f');
    }
  }

  lemma {:induction false} WithinPageSucceeds<D>(devices: Devices<D>, cfg: Config, sys: Sys<D>, u: Word, n: nat,
                                                 val: nat, f: nat)
    requires u % PAGE + n <= PAGE && Walks(cfg) && BytesAvoidTables(devices, cfg, sys, u, n, val)
    requires n > 0 ==> Settled(sys.ram, cfg, u / PAGE, WriteAccess, f)
    ensures StoreBytes(devices, cfg, sys, u, n, val).exc == 0
    decreases n
  {
    hide TranslateSpec, Settled, KeepsLeaves, BytesAvoidTables, StoreBytes;
    if n == 0 {
      NothingToStore(devices, cfg, sys, u, val);
    } else {
      var pa, sys1 := SettledStore(devices, cfg, sys, u, n, val, f);
      NextByte(u);
      if n == 1 {
        NothingToStore(devices, cfg, sys1, Plus(u, 1), val / 0x100);
      } else {
        WithinPageSucceeds(devices, cfg, sys1, Plus(u, 1), n - 1, val / 0x100, f);
      }
    }
  }

  lemma NothingToStore<D>(devices: Devices<D>, cfg: Config, sys: Sys<D>, u: Word, val: nat)
    ensures StoreBytes(devices, cfg, sys, u, 0, val) == Result(0, 0, sys)
  {
  }

  /** A store that begins on a new page either faults at once or does not fault at all. */
  lemma NewPage<D>(devices: Devices<D>, cfg: Config, sys: Sys<D>, u: Word, n: nat, val: nat)
    requires u % PAGE + n <= PAGE && Walks(cfg) && BytesAvoidTables(devices, cfg, sys, u, n, val)
    requires StoreBytes(devices, cfg, sys, u, n, val).exc != 0
    ensures StoreBytes(devices, cfg, sys, u, n, val).sys == sys
            && TranslateSpec(sys.ram, cfg, u, WriteAccess).out.Fault?
  {
    hide TranslateSpec, Settled, KeepsLeaves, BusStore;
    var w := TranslateSpec(sys.ram, cfg, u, WriteAccess);
    if w.out.Fault? {
      FaultIsClean(sys.ram, cfg, u, WriteAccess);
    } else {
      var f := TranslationSettles(sys.ram, cfg, u, WriteAccess);
      SettledTranslates(w.ram, cfg, u, WriteAccess, f);
      WithinPageSucceeds(devices, cfg, sys.(ram := w.ram), u, n, val, f);
    }
  }

  /** The bus holds this byte already: storing it changes nothing. */
  ghost predicate Stored<D>(devices: Devices<D>, sys: Sys<D>, pa: Word, b: Byte) {
    if RamAddress(|sys.ram|, pa) then sys.ram[pa - RAM_BASE] == b else Written(devices, sys.dev, pa, b)
  }

  lemma StoredAlready<D>(devices: Devices<D>, sys: Sys<D>, pa: Word, b: Byte)
    requires Stored(devices, sys, pa, b)
    ensures BusStore(devices, sys, pa, 1, b) == sys
  {
    if RamAddress(|sys.ram|, pa) {
      ByteStored(sys.ram, pa - RAM_BASE, b);
      assert sys.ram[pa - RAM_BASE := b] == sys.ram;
    }
  }

  /** A byte stored at the end of a page is there, and stays while other bytes are stored at page ends. */
  lemma StoredStays<D(!new)>(devices: Devices<D>, sys: Sys<D>, pa: Word, b: Byte, pa': Word,
                                b': Byte)
    requires SteadyEdges(devices) && Edge(pa) && Edge(pa')
    ensures var s := BusStore(devices, sys, pa', 1, b');
            Stored(devices, s, pa', b') && (pa != pa' && Stored(devices, sys, pa, b) ==> Stored(devices, s, pa, b))
  {
    if RamAddress(|sys.ram|, pa') {
      ByteStored(sys.ram, pa' - RAM_BASE, b');
    }
  }

  /** The rest of a store that ends in a fault leaves the bytes already stored on the first page alone. */
  lemma {:induction false} FaultingTail<D(!new)>(devices: Devices<D>, cfg: Config, sys: Sys<D>, u: Word, n: nat,
                                                 val: nat, p: nat, f: nat, pa: Word, b: Byte)
    requires SteadyEdges(devices) && n <= 8 && Walks(cfg) && Settled(sys.ram, cfg, p, WriteAccess, f)
    requires u % PAGE == 0 || (u / PAGE == p && Edge(u) && pa < f * PAGE + u % PAGE)
    requires Edge(pa) && Stored(devices, sys, pa, b)
    requires BytesAvoidTables(devices, cfg, sys, u, n, val) && StoreBytes(devices, cfg, sys, u, n, val).exc != 0
    ensures var r := StoreBytes(devices, cfg, sys, u, n, val);
            Settled(r.sys.ram, cfg, p, WriteAccess, f) && Stored(devices, r.sys, pa, b)
    decreases n
  {
    hide TranslateSpec, Settled, KeepsLeaves, BytesAvoidTables, StoreBytes, SteadyEdges, Stored, BusStore;
    if n == 0 {
      NothingToStore(devices, cfg, sys, u, val);
    } else if u % PAGE == 0 {
      NewPage(devices, cfg, sys, u, n, val);
    } else {
      var pa1, sys1 := SettledStore(devices, cfg, sys, u, n, val, f);
      InFrame(f, u % PAGE);
      StoredStays(devices, sys, pa, b, pa1, val % 0x100);
      NextByte(u);
      FaultingTail(devices, cfg, sys1, Plus(u, 1), n - 1, val / 0x100, p, f, pa, b);
    }
  }

  /** Repeating a store after its fault: the same bytes, the same fault, nothing changes any more. */
  lemma {:induction false} StoreAgain<D(!new)>(devices: Devices<D>, cfg: Config, sys: Sys<D>, v: Word, n: nat, val: nat)
    requires SteadyEdges(devices) && n <= 8 && Walks(cfg) && BytesAvoidTables(devices, cfg, sys, v, n, val)
    requires v % PAGE == 0 || Edge(v)
    requires StoreBytes(devices, cfg, sys, v, n, val).exc != 0
    ensures var r := StoreBytes(devices, cfg, sys, v, n, val); StoreBytes(devices, cfg, r.sys, v, n, val) == r
    decreases n
  {
    hide TranslateSpec, Settled, KeepsLeaves, SteadyEdges, Stored, BusStore;
    var r := StoreBytes(devices, cfg, sys, v, n, val);
    var w := TranslateSpec(sys.ram, cfg, v, WriteAccess);
    if w.out.Fault? {
      FaultIsClean(sys.ram, cfg, v, WriteAccess);
      assert sys.(ram := sys.ram) == sys;
    } else if v % PAGE == 0 {
      NewPage(devices, cfg, sys, v, n, val);
      assert false;
    } else {
      var f := TranslationSettles(sys.ram, cfg, v, WriteAccess);
      SettledTranslates(w.ram, cfg, v, WriteAccess, f);
      var sys1 := BusStore(devices, sys.(ram := w.ram), w.out.addr, 1, val % 0x100);
      StoredKeepsSettled(w.ram, sys1.ram, cfg, v / PAGE, WriteAccess, f);
      InFrame(f, v % PAGE);
      StoredStays(devices, sys.(ram := w.ram), w.out.addr, 0, w.out.addr, val % 0x100);
      NextByte(v);
      FaultingTail(devices, cfg, sys1, Plus(v, 1), n - 1, val / 0x100, v / PAGE, f, w.out.addr, val % 0x100);
      SettledTranslates(r.sys.ram, cfg, v, WriteAccess, f);
      StoredAlready(devices, r.sys, w.out.addr, val % 0x100);
      StoreAgain(devices, cfg, sys1, Plus(v, 1), n - 1, val / 0x100);
    }
  }

  lemma {:induction false} PhysicalStoreSucceeds<D>(devices: Devices<D>, cfg: Config, sys: Sys<D>, v: Word, n: nat,
                                                    val: nat)
    requires !Walks(cfg)
    ensures StoreBytes(devices, cfg, sys, v, n, val).exc == 0
    decreases n
  {
    hide TranslateSpec, BusStore;
    if n > 0 {
      PhysicalNeverFaults(sys.ram, cfg, v, WriteAccess);
      PhysicalStoreSucceeds(devices, cfg, BusStore(devices, sys.(ram := sys.ram), v, 1, val % 0x100), Plus(v, 1), n - 1,
                            val / 0x100);
    }
  }

  lemma {:induction false} StoreCodes<D>(devices: Devices<D>, cfg: Config, sys: Sys<D>, v: Word, n: nat, val: nat)
    ensures StoreBytes(devices, cfg, sys, v, n, val).exc < 16
    decreases n
  {
    hide TranslateSpec, BusStore;
    if n > 0 {
      var w := TranslateSpec(sys.ram, cfg, v, WriteAccess);
      FaultIsClean(sys.ram, cfg, v, WriteAccess);
      if w.out.Pa? {
        StoreCodes(devices, cfg, BusStore(devices, sys.(ram := w.ram), w.out.addr, 1, val % 0x100), Plus(v, 1), n - 1,
                   val / 0x100);
      }
    }
  }

  /** The fault of a page-crossing store that does not change the page tables is stable. */
  lemma CrossingStoreIsStable<D(!new)>(devices: Devices<D>, env: Interp.Env<Space<D>>, m: Space<D>, addr: Word,
                                       size: Word, v: Word)
    requires forall m', a, n, u :: env.store(m', a, n, u) == MmuStore(devices, m', a, n, u)
    requires SteadyEdges(devices) && Crosses(addr, size) && size <= 8
    requires BytesAvoidTables(devices, m.cfg, m.sys, addr, size, v)
    ensures Jit.StableStore(env, m, addr, size, v)
  {
    hide TranslateSpec, BytesAvoidTables, StoreBytes, SteadyEdges;
    StoreCodes(devices, m.cfg, m.sys, addr, size, v);
    var r := StoreBytes(devices, m.cfg, m.sys, addr, size, v);
    if !Walks(m.cfg) {
      PhysicalStoreSucceeds(devices, m.cfg, m.sys, addr, size, v);
    } else if r.exc != 0 {
      StoreAgain(devices, m.cfg, m.sys, addr, size, v);
    }
  }

  // The MMU under the run loop

  /** A page-crossing store of the instruction at hand does not change the page tables before it faults, and an
      illegal floating-point instruction is found illegal again. */
  ghost predicate Repeatable<D>(devices: Devices<D>, env: Interp.Env<Space<D>>, g: Interp.Guest<Space<D>>) {
    match env.fetch(g.pc)
    case Insn(w, _, _) =>
      var op, size := Interp.Opcode(w), Interp.Size(Interp.Funct3(w));
      var to := Plus(g.x[Interp.Rs1(w)], Interp.ImmS(w));
      && (op == 0x23 && Crosses(to, size) ==>
            BytesAvoidTables(devices, g.mem.cfg, g.mem.sys, to, size, g.x[Interp.Rs2(w)]))
      && (Interp.IsFp(op) ==> Jit.StableFp(env, g, w))
    case _ => true
  }

  ghost predicate Backed<D(!new)>(devices: Devices<D>, env: Interp.Env<Space<D>>) {
    && (forall m, a, n :: env.load(m, a, n) == MmuLoad(devices, m, a, n))
    && (forall m, a, n, u :: env.store(m, a, n, u) == MmuStore(devices, m, a, n, u))
  }

  lemma MmuEnvIsBacked<D(!new)>(devices: Devices<D>, fetch: Word -> Interp.Fetched, fp: Fp<D>, junk: nat -> Word)
    ensures Backed(devices, MmuEnv(devices, fetch, fp, junk))
  {
  }

  /** Over the MMU the fault of every load is stable, and that of a repeatable store. */
  lemma MmuFaultIsStable<D(!new)>(devices: Devices<D>, env: Interp.Env<Space<D>>, g: Interp.Guest<Space<D>>)
    requires QuietEdges(devices) && SteadyEdges(devices) && Backed(devices, env) && Repeatable(devices, env, g)
    ensures Jit.StableFault(env, g)
  {
    hide Jit.StableLoad, Jit.StableStore, Jit.StableFp, BytesAvoidTables, Crosses, QuietEdges, SteadyEdges;
    match env.fetch(g.pc)
    case Insn(w, _, _) =>
      var op, size := Interp.Opcode(w), Interp.Size(Interp.Funct3(w));
      if op == 0x03 {
        var from := Plus(g.x[Interp.Rs1(w)], Interp.ImmI(w));
        if Crosses(from, size) {
          CrossingLoadIsStable(devices, env, g.mem, from, size);
        } else {
          WithinPageIsStable(devices, env, g.mem, from, size, 0);
        }
      } else if op == 0x23 {
        var to := Plus(g.x[Interp.Rs1(w)], Interp.ImmS(w));
        if Crosses(to, size) {
          CrossingStoreIsStable(devices, env, g.mem, to, size, g.x[Interp.Rs2(w)]);
        } else {
          WithinPageIsStable(devices, env, g.mem, to, size, g.x[Interp.Rs2(w)]);
        }
      }
    case _ =>
  }

  /** So over the MMU the run loop needs to ask nothing of the loads and little of the stores on its path. */
  lemma MmuPathInScope<D(!new)>(devices: Devices<D>, fetch: Word -> Interp.Fetched, fp: Fp<D>, junk: nat -> Word,
                                trap: RunLoop.Trap<Space<D>>, g0: Interp.Guest<Space<D>>, disabled: Word -> bool,
                                maxInsns: nat, bound: nat)
    requires QuietEdges(devices) && SteadyEdges(devices)
    requires forall m: nat :: m < bound ==>
               var env := MmuEnv(devices, fetch, fp, junk);
               var p := RunLoop.Path(env, trap, g0, m);
               !p.stuck ==>
                 && Jit.StepInScope(env, p.g) && Repeatable(devices, env, p.g)
                 && RunLoop.NotCut(fetch, disabled, maxInsns, p.g.pc)
    ensures RunLoop.PathInScope(MmuEnv(devices, fetch, fp, junk), trap, g0, disabled, maxInsns, bound)
  {
    hide Jit.StepInScope, Repeatable, RunLoop.NotCut, Jit.StableFault, RunLoop.Path, Backed, QuietEdges, SteadyEdges;
    var env := MmuEnv(devices, fetch, fp, junk);
    MmuEnvIsBacked(devices, fetch, fp, junk);
    forall m: nat | m < bound
      ensures RunLoop.InScopeAt(env, RunLoop.Path(env, trap, g0, m), disabled, maxInsns)
    {
      var p := RunLoop.Path(env, trap, g0, m);
      if !p.stuck {
        MmuFaultIsStable(devices, env, p.g);
      }
    }
  }
}
