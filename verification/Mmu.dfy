/**
 The memory side of the CPU: `rv64_translate` with its TLB, the load and store paths with their
 inline TLB test, and SATP writes, all over RAM and TLB arrays that are changed in place.
 */
module Mmu {
  import opened Wrappers
  import opened Words
  import opened Memory
  import opened Sv39
  import opened Tlb

  /** Everything a load or store can change besides the TLB; devices are an arbitrary value. */
  datatype Sys<D> = Sys(ram: seq<Byte>, dev: D)

  datatype Result<D> = Result(exc: nat, val: nat, sys: Sys<D>)

  /** What the devices answer to loads and do on stores; a store can make a device read and write RAM. */
  datatype Devices<!D> = Devices(load: (D, Word, nat) -> (Word, D),
                                 store: (D, seq<Byte>, Word, nat, nat) -> (D, seq<Byte>))

  ghost predicate KeepsRamSize<D(!new)>(devices: Devices<D>) {
    forall d, ram, addr, size, val :: |devices.store(d, ram, addr, size, val).1| == |ram|
  }

  // The bus, and loads and stores without any TLB

  predicate RamAddress(ramSize: nat, addr: Word) {
    RAM_BASE <= addr < RAM_BASE + ramSize
  }

  /** `bus_load`; an access that starts in RAM lies in RAM whenever it stays within a page. */
  function BusLoad<D>(devices: Devices<D>, sys: Sys<D>, addr: Word, size: nat): (nat, Sys<D>) {
    if RamAddress(|sys.ram|, addr) then
      (if addr - RAM_BASE + size <= |sys.ram| then ReadLe(sys.ram, addr - RAM_BASE, size) else 0, sys)
    else
      var r := devices.load(sys.dev, addr, size); (r.0, sys.(dev := r.1))
  }

  function BusStore<D>(devices: Devices<D>, sys: Sys<D>, addr: Word, size: nat, val: nat): Sys<D> {
    if RamAddress(|sys.ram|, addr) then
      (if addr - RAM_BASE + size <= |sys.ram| then sys.(ram := WriteLe(sys.ram, addr - RAM_BASE, size, val)) else sys)
    else
      var r := devices.store(sys.dev, sys.ram, addr, size, val); Sys(r.1, r.0)
  }

  predicate Crosses(vaddr: Word, size: nat) {
    vaddr % PAGE + size > PAGE
  }

  /** `result |= (byte & 0xFF) << (i * 8)`, for the next byte above those already in `acc`. */
  function WithByte(acc: nat, b: nat, i: nat): nat {
    acc + b % 0x100 * Pow256(i)
  }

  /** A page-crossing load: each byte is translated and fetched on its own. */
  function LoadBytes<D>(devices: Devices<D>, cfg: Config, sys: Sys<D>, vaddr: Word, access: Access, i: nat, size: nat,
                        acc: nat)
    : Result<D>
    requires i <= size
    decreases size - i
  {
    if i == size then Result(0, acc, sys) else
    var w := TranslateSpec(sys.ram, cfg, Wrap(vaddr + i), access);
    match w.out
    case Fault(code) => Result(code, 0, sys.(ram := w.ram))
    case Pa(pa) =>
      var (b, sys') := BusLoad(devices, sys.(ram := w.ram), pa, 1);
      LoadBytes(devices, cfg, sys', vaddr, access, i + 1, size, WithByte(acc, b, i))
  }

  function LoadSpec<D>(devices: Devices<D>, cfg: Config, sys: Sys<D>, vaddr: Word, size: nat,
                       access: Access): Result<D> {
    if Crosses(vaddr, size) then LoadBytes(devices, cfg, sys, vaddr, access, 0, size, 0) else
    var w := TranslateSpec(sys.ram, cfg, vaddr, access);
    match w.out
    case Fault(code) => Result(code, 0, sys.(ram := w.ram))
    case Pa(pa) => var (v, sys') := BusLoad(devices, sys.(ram := w.ram), pa, size); Result(0, v, sys')
  }

  function StoreBytes<D>(devices: Devices<D>, cfg: Config, sys: Sys<D>, vaddr: Word, n: nat, val: nat): Result<D>
    decreases n
  {
    if n == 0 then Result(0, 0, sys) else
    var w := TranslateSpec(sys.ram, cfg, vaddr, WriteAccess);
    match w.out
    case Fault(code) => Result(code, 0, sys.(ram := w.ram))
    case Pa(pa) =>
      StoreBytes(devices, cfg, BusStore(devices, sys.(ram := w.ram), pa, 1, val % 0x100), Plus(vaddr, 1), n - 1,
                 val / 0x100)
  }

  function StoreSpec<D>(devices: Devices<D>, cfg: Config, sys: Sys<D>, vaddr: Word, size: nat, val: nat): Result<D> {
    if Crosses(vaddr, size) then StoreBytes(devices, cfg, sys, vaddr, size, val) else
    var w := TranslateSpec(sys.ram, cfg, vaddr, WriteAccess);
    match w.out
    case Fault(code) => Result(code, 0, sys.(ram := w.ram))
    case Pa(pa) => Result(0, 0, BusStore(devices, sys.(ram := w.ram), pa, size, val))
  }

  // The inline paths

  /** The TLB test that is made before any translation; it does not look at the mode. */
  predicate InlineHit(e: Entry, cfg: Config, vaddr: Word, size: nat, access: Access) {
    Hits(e, cfg, vaddr / PAGE, access) && e.host.Some? && !Crosses(vaddr, size)
  }

  function InlineValue(e: Entry, ram: seq<Byte>, vaddr: Word, size: nat): nat
    requires e.host.Some? && e.host.value + PAGE <= |ram| && !Crosses(vaddr, size)
  {
    ReadLe(ram, e.host.value + vaddr % PAGE, size)
  }

  function InlineStored(e: Entry, ram: seq<Byte>, vaddr: Word, size: nat, val: nat): seq<Byte>
    requires e.host.Some? && e.host.value + PAGE <= |ram| && !Crosses(vaddr, size)
  {
    WriteLe(ram, e.host.value + vaddr % PAGE, size, val)
  }

  /** The bytes a store changes are not page-table entries of this address space. */
  ghost predicate KeepsLeaves(before: seq<Byte>, after: seq<Byte>, table: int) {
    |after| == |before| && forall vpn: nat :: FindLeaf(after, table, vpn, 2) == FindLeaf(before, table, vpn, 2)
  }

  /** No byte of a page-crossing store changes the page tables. */
  ghost predicate BytesAvoidTables<D>(devices: Devices<D>, cfg: Config, sys: Sys<D>, vaddr: Word, n: nat, val: nat)
    decreases n
  {
    n > 0 ==>
      var w := TranslateSpec(sys.ram, cfg, vaddr, WriteAccess);
      w.out.Pa? ==>
        var sys' := BusStore(devices, sys.(ram := w.ram), w.out.addr, 1, val % 0x100);
        && KeepsLeaves(w.ram, sys'.ram, TableOf(cfg.rootPpn))
        && BytesAvoidTables(devices, cfg, sys', Plus(vaddr, 1), n - 1, val / 0x100)
  }

  lemma CoherenceTransfers(tlb: seq<Entry>, before: seq<Byte>, after: seq<Byte>, table: int)
    requires Coherent(tlb, before, table) && KeepsLeaves(before, after, table)
    ensures Coherent(tlb, after, table)
  {
    hide AgreesWith, FindLeaf, HostOf;
    forall i | 0 <= i < |tlb| ensures EntryCoherent(tlb[i], after, table) {
      assert EntryCoherent(tlb[i], before, table);
      assert FindLeaf(after, table, tlb[i].vpn, 2) == FindLeaf(before, table, tlb[i].vpn, 2);
    }
  }

  class Machine<D(!new)> {
    const ram: array<Byte>
    const tlb: array<Entry>
    const devices: Devices<D>
    var dev: D
    var priv: Priv
    var satp: Word
    var mstatus: Word

    ghost predicate Valid()
      reads this, tlb
    {
      && tlb.Length == TLB_SIZE && ram as object != tlb as object && ram.Length % PAGE == 0
      && ram.Length + RAM_BASE < TWO_64 && KeepsRamSize(devices)
      && (forall i :: 0 <= i < TLB_SIZE && tlb[i].host.Some? ==> tlb[i].host.value + PAGE <= ram.Length)
    }

    function Cfg(): Config
      reads this
    {
      Config(priv, satp / 0x1000_0000_0000_0000, satp % 0x1000_0000_0000,
             mstatus / 0x4_0000 % 2 == 1, mstatus / 0x8_0000 % 2 == 1)
    }

    /** Every valid entry agrees with the tables, and in Bare mode there is none. */
    ghost predicate CoherentNow()
      reads this, tlb, ram
    {
      && Coherent(tlb[..], ram[..], TableOf(Cfg().rootPpn))
      && (Cfg().mode == BARE ==> forall i :: 0 <= i < tlb.Length ==> !tlb[i].valid)
    }

    ghost function Now(): Sys<D>
      reads this, ram
    {
      Sys(ram[..], dev)
    }

    constructor (ramBytes: array<Byte>, devices: Devices<D>, dev: D)
      requires ramBytes.Length % PAGE == 0 && ramBytes.Length + RAM_BASE < TWO_64 && KeepsRamSize(devices)
      ensures Valid() && CoherentNow() && ram == ramBytes && fresh(tlb)
    {
      ram, this.devices, this.dev := ramBytes, devices, dev;
      tlb := new Entry[TLB_SIZE](_ => EMPTY);
      priv, satp, mstatus := Machine, 0, 0;
    }

    /** A little-endian store into RAM, byte by byte. */
    method StoreRam(off: nat, n: nat, v: nat)
      requires off + n <= ram.Length
      modifies ram
      ensures ram[..] == WriteLe(old(ram[..]), off, n, v)
    {
      var u := v;
      for i := 0 to n
        invariant WriteLe(ram[..], off + i, n - i, u) == WriteLe(old(ram[..]), off, n, v)
      {
        ghost var before := ram[..];
        ram[off + i] := u % 0x100;
        assert ram[..] == before[off + i := u % 0x100];
        u := u / 0x100;
      }
    }

    /** `rv64_tlb_flush`. */
    method Flush()
      requires Valid()
      modifies tlb
      ensures Valid() && CoherentNow()
      ensures forall i :: 0 <= i < TLB_SIZE ==> tlb[i] == EMPTY
    {
      for i := 0 to tlb.Length
        invariant forall k :: 0 <= k < i ==> tlb[k] == EMPTY
        invariant Valid()
      {
        tlb[i] := EMPTY;
      }
    }

    /** The SATP case of `csr_write`: unsupported modes read back as Bare, and every write flushes. */
    method WriteSatp(val: Word)
      requires Valid()
      modifies this`satp, tlb
      ensures Valid() && CoherentNow()
      ensures satp == if val / 0x1000_0000_0000_0000 == 0 || val / 0x1000_0000_0000_0000 == 8 then val else 0
    {
      var mode := val / 0x1000_0000_0000_0000;
      satp := if mode == 0 || mode == 8 then val else 0;
      Flush();
    }

    /** The lookup at the head of `rv64_translate`. */
    method Lookup(vaddr: Word, access: Access) returns (pa: Option<Word>)
      requires Valid()
      ensures var e := tlb[vaddr / PAGE % TLB_SIZE];
              pa == if Hits(e, Cfg(), vaddr / PAGE, access) then Some(HitAddress(e, vaddr)) else None
    {
      var cfg := Cfg();
      var vpn := vaddr / PAGE;
      var e := tlb[vpn % TLB_SIZE];
      if e.valid && e.vpn == vpn {
        var ok := match access
                  case ReadAccess => e.r || (cfg.mxr && e.x)
                  case WriteAccess => e.w && e.dirty
                  case ExecAccess => e.x;
        if ok {
          if cfg.priv == User && !e.u { ok := false; }
          if cfg.priv == Supervisor && e.u && !cfg.sum { ok := false; }
        }
        if ok { return Some(HitAddress(e, vaddr)); }
      }
      return None;
    }

    /** The loop over the three levels: the leaf entry, or none. */
    method FindEntry(vaddr: Word) returns (l: Leaf)
      requires Valid()
      ensures l == FindLeaf(ram[..], TableOf(Cfg().rootPpn), vaddr / PAGE, 2)
    {
      hide V, Rd, Wr, Ex, PteAt, Index;
      var vpn := vaddr / PAGE;
      var table := TableOf(Cfg().rootPpn);
      var level := 2;
      while level >= 0
        invariant -1 <= level <= 2
        invariant FindLeaf(ram[..], TableOf(Cfg().rootPpn), vpn, 2)
               == if level >= 0 then FindLeaf(ram[..], table, vpn, level) else NoLeaf
      {
        var addr := EntryAddr(table, vpn, level);
        var pte := PteAt(ram[..], addr);
        if !V(pte) { return NoLeaf; }
        if Wr(pte) && !Rd(pte) { return NoLeaf; }
        if Rd(pte) || Wr(pte) || Ex(pte) { return Leaf(addr, pte, level); }
        table := TableOf(Ppn(pte));
        level := level - 1;
      }
      return NoLeaf;
    }

    /** `rv64_translate`: with a coherent TLB it is the walk without TLB, in result and in RAM, and
        it leaves the TLB coherent; a fault leaves RAM and TLB alone. */
    method Translate(vaddr: Word, access: Access) returns (exc: nat, pa: Word)
      requires Valid()
      modifies ram, tlb
      ensures Valid()
      ensures old(CoherentNow()) ==> CoherentNow()
      ensures old(CoherentNow()) ==>
        var w := TranslateSpec(old(ram[..]), Cfg(), vaddr, access);
        ram[..] == w.ram && match w.out case Fault(code) => exc == code case Pa(a) => exc == 0 && pa == a
      ensures exc != 0 ==> ram[..] == old(ram[..]) && tlb[..] == old(tlb[..])
    {
      hide Walk, TableOf, EntryCoherent, HitAddress, Hits;
      var cfg := Cfg();
      if cfg.priv == Machine { return 0, vaddr; }
      if cfg.mode == BARE { return 0, vaddr; }
      var hit := Lookup(vaddr, access);
      if hit.Some? {
        if CoherentNow() {
          HitIsWalk(tlb[vaddr / PAGE % TLB_SIZE], ram[..], cfg, vaddr, access);
        }
        return 0, hit.value;
      }
      exc, pa := Miss(vaddr, access);
    }

    /** The permission checks on a leaf entry, in the walk's order. */
    method Denied(pte: Pte, access: Access) returns (denied: bool)
      ensures denied == !Permits(Cfg(), Rd(pte), Wr(pte), Ex(pte), Us(pte), access)
    {
      hide Rd, Wr, Ex, Us;
      var cfg := Cfg();
      if cfg.priv == User && !Us(pte) { return true; }
      if cfg.priv == Supervisor && Us(pte) && !cfg.sum { return true; }
      if access == ReadAccess {
        var readable := Rd(pte) || (cfg.mxr && Ex(pte));
        if !readable { return true; }
      }
      if access == WriteAccess && !Wr(pte) { return true; }
      if access == ExecAccess && !Ex(pte) { return true; }
      return false;
    }

    /** The part of `rv64_translate` after a failed lookup. */
    method Miss(vaddr: Word, access: Access) returns (exc: nat, pa: Word)
      requires Valid()
      modifies ram, tlb
      ensures Valid()
      ensures var w := Walk(old(ram[..]), Cfg(), vaddr, access);
              ram[..] == w.ram && match w.out case Fault(code) => exc == code case Pa(a) => exc == 0 && pa == a
      ensures old(CoherentNow()) && Cfg().mode != BARE ==> CoherentNow()
      ensures exc != 0 ==> ram[..] == old(ram[..]) && tlb[..] == old(tlb[..])
    {
      hide V, Rd, Wr, Ex, Us, Touched, FindLeaf, Frame, Aligned, TableOf, Permits, EntryCoherent, SetPte;
      var l := FindEntry(vaddr);
      if l.NoLeaf? { return FaultCode(access), 0; }
      var denied := Denied(l.pte, access);
      if denied { return FaultCode(access), 0; }
      if !Aligned(l.pte, l.level) { return FaultCode(access), 0; }
      exc, pa := Install(vaddr, access, l);
    }

    /** The leaf case: set A and D, compute the address, fill the TLB slot. */
    method Install(vaddr: Word, access: Access, l: Leaf) returns (exc: nat, pa: Word)
      requires Valid() && l == FindLeaf(ram[..], TableOf(Cfg().rootPpn), vaddr / PAGE, 2) && l.Leaf?
               && Aligned(l.pte, l.level)
      modifies ram, tlb
      ensures Valid() && exc == 0 && pa == Frame(l.pte, vaddr / PAGE, l.level) * PAGE + vaddr % PAGE
      ensures ram[..] == SetPte(old(ram[..]), l.addr, Touched(l.pte, access == WriteAccess))
      ensures old(CoherentNow()) && Cfg().mode != BARE ==> CoherentNow()
    {
      hide V, Rd, Wr, Ex, Us, Ac, Di, Ppn, Touched, FindLeaf, Frame, Aligned, ReadLe, WriteLe, WalkAddress, TableOf,
           EntryCoherent;
      ghost var ram0, tlb0 := ram[..], tlb[..];
      var vpn := vaddr / PAGE;
      var newPte := Touched(l.pte, access == WriteAccess);
      if newPte != l.pte {
        StoreRam(l.addr - RAM_BASE, 8, newPte);
      } else {
        WriteSame(ram0, l.addr - RAM_BASE, 8);
      }
      WalkAddressIs(l.pte, vaddr, l.level);
      pa := WalkAddress(l.pte, vaddr, l.level);
      var ppn := pa / PAGE;
      FrameOfAddress(Frame(l.pte, vpn, l.level), vaddr % PAGE);
      tlb[vpn % TLB_SIZE] := Entry(true, vpn, ppn, Rd(l.pte), Wr(l.pte), Ex(l.pte), Us(l.pte), l.level, Di(newPte),
                                   HostOf(ram.Length, ppn));
      assert tlb[..] == tlb0[vpn % TLB_SIZE := Filled(l, vpn, access, ram.Length)];
      if Coherent(tlb0, ram0, TableOf(Cfg().rootPpn)) {
        WalkKeepsCoherence(tlb0, ram0, Cfg(), vpn, access);
      }
      exc := 0;
    }

    /** `rv64_cpu_load`: value, fault and RAM are those of translation without TLB and the bus, except on an
        inline hit in M-mode; an inline hit reads the cached frame and changes nothing, in every mode. */
    method Load(vaddr: Word, size: nat, access: Access) returns (exc: nat, val: nat)
      requires Valid() && size in {1, 2, 4, 8} && access != WriteAccess
      modifies this`dev, ram, tlb
      ensures Valid() && (old(CoherentNow()) ==> CoherentNow())
      ensures var e := old(tlb[vaddr / PAGE % TLB_SIZE]);
              InlineHit(e, Cfg(), vaddr, size, access) ==>
                && exc == 0 && val == InlineValue(e, old(ram[..]), vaddr, size)
                && Now() == old(Now()) && tlb[..] == old(tlb[..])
      ensures old(CoherentNow())
              && (priv != Machine || !InlineHit(old(tlb[vaddr / PAGE % TLB_SIZE]), Cfg(), vaddr, size, access)) ==>
        Result(exc, val, Now()) == LoadSpec(devices, Cfg(), old(Now()), vaddr, size, access)
    {
      hide LoadSpec, Coherent, InlineHit, InlineValue, TableOf;
      var hit := InlineLoad(vaddr, size, access);
      if hit.Some? {
        if CoherentNow() && priv != Machine {
          InlineLoadIsSpec(vaddr, size, access);
        }
        return 0, hit.value;
      }
      exc, val := SlowLoad(vaddr, size, access);
    }

    /** The TLB test and the read through `host_base`. */
    method InlineLoad(vaddr: Word, size: nat, access: Access) returns (val: Option<nat>)
      requires Valid() && access != WriteAccess
      ensures var e := tlb[vaddr / PAGE % TLB_SIZE];
              val == if InlineHit(e, Cfg(), vaddr, size, access) then Some(InlineValue(e, ram[..], vaddr, size))
                     else None
    {
      hide ReadLe, Permits;
      var e := tlb[vaddr / PAGE % TLB_SIZE];
      if e.valid && e.vpn == vaddr / PAGE && e.host.Some? {
        var ok := FastLoadAllowed(Cfg(), e, access);
        if ok && !Crosses(vaddr, size) {
          return Some(ReadLe(ram[..], e.host.value + vaddr % PAGE, size));
        }
      }
      return None;
    }

    lemma InlineLoadIsSpec(vaddr: Word, size: nat, access: Access)
      requires Valid() && CoherentNow() && priv != Machine
      requires InlineHit(tlb[vaddr / PAGE % TLB_SIZE], Cfg(), vaddr, size, access)
      ensures LoadSpec(devices, Cfg(), Now(), vaddr, size, access)
           == Result(0, InlineValue(tlb[vaddr / PAGE % TLB_SIZE], ram[..], vaddr, size), Now())
    {
      hide LoadSpec, EntryCoherent, ReadLe, Permits, TableOf;
      EntryOf(tlb[..], ram[..], TableOf(Cfg().rootPpn), vaddr / PAGE % TLB_SIZE);
      FastLoadIsSpec(devices, Cfg(), tlb[vaddr / PAGE % TLB_SIZE], Now(), vaddr, size, access);
    }

    /** The slow path of `rv64_cpu_load`; it is right in every mode. */
    method SlowLoad(vaddr: Word, size: nat, access: Access) returns (exc: nat, val: nat)
      requires Valid()
      modifies this`dev, ram, tlb
      ensures Valid()
      ensures old(CoherentNow()) ==>
        CoherentNow() && Result(exc, val, Now()) == LoadSpec(devices, Cfg(), old(Now()), vaddr, size, access)
    {
      hide TranslateSpec, BusLoad, LoadBytes, Coherent;
      if Crosses(vaddr, size) {
        exc, val := LoadAcross(vaddr, size, access);
        return;
      }
      var pa;
      exc, pa := Translate(vaddr, access);
      if exc != 0 { return exc, 0; }
      val := FromBus(pa, size);
    }

    /** `bus_load`. */
    method FromBus(pa: Word, size: nat) returns (val: nat)
      modifies this`dev
      ensures (val, Now()) == BusLoad(devices, old(Now()), pa, size)
    {
      if RamAddress(ram.Length, pa) {
        return if pa - RAM_BASE + size <= ram.Length then ReadLe(ram[..], pa - RAM_BASE, size) else 0;
      }
      var r := devices.load(dev, pa, size);
      val, dev := r.0, r.1;
    }

    /** The byte loop of a load that crosses a page. */
    method LoadAcross(vaddr: Word, size: nat, access: Access) returns (exc: nat, val: nat)
      requires Valid()
      modifies this`dev, ram, tlb
      ensures Valid()
      ensures old(CoherentNow()) ==>
        CoherentNow() && Result(exc, val, Now()) == LoadBytes(devices, Cfg(), old(Now()), vaddr, access, 0, size, 0)
    {
      hide TranslateSpec, BusLoad, Coherent, WithByte;
      var result := 0;
      for i := 0 to size
        invariant Valid()
        invariant old(CoherentNow()) ==>
          CoherentNow() && LoadBytes(devices, Cfg(), Now(), vaddr, access, i, size, result)
                        == LoadBytes(devices, Cfg(), old(Now()), vaddr, access, 0, size, 0)
      {
        var pa;
        exc, pa := Translate(Wrap(vaddr + i), access);
        if exc != 0 { return exc, 0; }
        var b := FromBus(pa, 1);
        result := WithByte(result, b, i);
      }
      return 0, result;
    }

    /** `cpu_store`: fault and memory are those of translation without TLB and the bus, except on an inline
        hit in M-mode; an inline hit writes the cached frame. The TLB stays coherent when the stored bytes
        are not page-table entries. */
    method Store(vaddr: Word, size: nat, val: nat) returns (exc: nat)
      requires Valid() && size in {1, 2, 4, 8}
      modifies this`dev, ram, tlb
      ensures Valid()
      ensures var e := old(tlb[vaddr / PAGE % TLB_SIZE]);
              InlineHit(e, Cfg(), vaddr, size, WriteAccess) ==>
                exc == 0 && Now() == old(Now()).(ram := InlineStored(e, old(ram[..]), vaddr, size, val))
                && tlb[..] == old(tlb[..])
      ensures old(CoherentNow())
              && (priv != Machine || !InlineHit(old(tlb[vaddr / PAGE % TLB_SIZE]), Cfg(), vaddr, size, WriteAccess))
              && (Crosses(vaddr, size) ==> BytesAvoidTables(devices, Cfg(), old(Now()), vaddr, size, val)) ==>
        && Result(exc, 0, Now()) == StoreSpec(devices, Cfg(), old(Now()), vaddr, size, val)
        && (Crosses(vaddr, size)
            || KeepsLeaves(TranslateSpec(old(ram[..]), Cfg(), vaddr, WriteAccess).ram, ram[..], TableOf(Cfg().rootPpn))
            ==> CoherentNow())
    {
      hide StoreSpec, EntryCoherent, WriteLe, TableOf, Coherent, KeepsLeaves, BytesAvoidTables, TranslateSpec;
      var cfg := Cfg();
      var e := tlb[vaddr / PAGE % TLB_SIZE];
      if e.valid && e.vpn == vaddr / PAGE && e.host.Some? && e.w && e.dirty {
        var ok := !(cfg.priv == User && !e.u) && !(cfg.priv == Supervisor && e.u && !cfg.sum);
        if ok && !Crosses(vaddr, size) {
          ghost var sys := Now();
          ghost var coherent := CoherentNow();
          if coherent && priv != Machine {
            EntryOf(tlb[..], ram[..], TableOf(cfg.rootPpn), vaddr / PAGE % TLB_SIZE);
            FastStoreIsSpec(devices, cfg, e, sys, vaddr, size, val);
          }
          StoreRam(e.host.value + vaddr % PAGE, size, val);
          if coherent && KeepsLeaves(sys.ram, ram[..], TableOf(cfg.rootPpn)) {
            CoherenceTransfers(tlb[..], sys.ram, ram[..], TableOf(cfg.rootPpn));
          }
          return 0;
        }
      }
      exc := SlowStore(vaddr, size, val);
    }

    /** The slow path of `cpu_store`. */
    method SlowStore(vaddr: Word, size: nat, val: nat) returns (exc: nat)
      requires Valid()
      modifies this`dev, ram, tlb
      ensures Valid()
      ensures old(CoherentNow())
              && (Crosses(vaddr, size) ==> BytesAvoidTables(devices, Cfg(), old(Now()), vaddr, size, val)) ==>
        && Result(exc, 0, Now()) == StoreSpec(devices, Cfg(), old(Now()), vaddr, size, val)
        && (Crosses(vaddr, size)
            || KeepsLeaves(TranslateSpec(old(ram[..]), Cfg(), vaddr, WriteAccess).ram, ram[..], TableOf(Cfg().rootPpn))
            ==> CoherentNow())
    {
      hide TranslateSpec, BusStore, StoreBytes, BytesAvoidTables, Coherent, KeepsLeaves, TableOf;
      if Crosses(vaddr, size) {
        exc := StoreAcross(vaddr, size, val);
        return;
      }
      var pa;
      exc, pa := Translate(vaddr, WriteAccess);
      if exc != 0 { return; }
      ghost var before, coherent := ram[..], CoherentNow();
      ToBus(pa, size, val);
      if coherent && KeepsLeaves(before, ram[..], TableOf(Cfg().rootPpn)) {
        CoherenceTransfers(tlb[..], before, ram[..], TableOf(Cfg().rootPpn));
      }
    }

    /** `bus_store`; a device may write to RAM while it handles the store. */
    method ToBus(pa: Word, size: nat, val: nat)
      requires KeepsRamSize(devices)
      modifies this`dev, ram
      ensures Now() == BusStore(devices, old(Now()), pa, size, val)
    {
      if RamAddress(ram.Length, pa) {
        if pa - RAM_BASE + size <= ram.Length { StoreRam(pa - RAM_BASE, size, val); }
      } else {
        var r := devices.store(dev, ram[..], pa, size, val);
        dev := r.0;
        forall i | 0 <= i < ram.Length {
          ram[i] := r.1[i];
        }
        assert ram[..] == r.1;
      }
    }

    /** The byte loop of a store that crosses a page. */
    method StoreAcross(vaddr: Word, size: nat, val: nat) returns (exc: nat)
      requires Valid()
      modifies this`dev, ram, tlb
      ensures Valid()
      ensures old(CoherentNow()) && BytesAvoidTables(devices, Cfg(), old(Now()), vaddr, size, val) ==>
        CoherentNow() && Result(exc, 0, Now()) == StoreBytes(devices, Cfg(), old(Now()), vaddr, size, val)
    {
      hide TranslateSpec, BusStore, Coherent, KeepsLeaves, TableOf;
      ghost var avoids := CoherentNow() && BytesAvoidTables(devices, Cfg(), Now(), vaddr, size, val);
      var addr, u := vaddr, val;
      for i := 0 to size
        invariant Valid()
        invariant avoids ==> CoherentNow() && BytesAvoidTables(devices, Cfg(), Now(), addr, size - i, u)
        invariant avoids ==>
          StoreBytes(devices, Cfg(), Now(), addr, size - i, u)
            == StoreBytes(devices, Cfg(), old(Now()), vaddr, size, val)
      {
        var pa;
        exc, pa := Translate(addr, WriteAccess);
        if exc != 0 { return; }
        ghost var before := ram[..];
        ToBus(pa, 1, u % 0x100);
        if avoids {
          CoherenceTransfers(tlb[..], before, ram[..], TableOf(Cfg().rootPpn));
        }
        addr, u := Plus(addr, 1), u / 0x100;
      }
      exc := 0;
    }
  }

  /** The permission test of the inline load path. */
  method FastLoadAllowed(cfg: Config, e: Entry, access: Access) returns (ok: bool)
    requires access != WriteAccess
    ensures ok == Permits(cfg, e.r, e.w, e.x, e.u, access)
  {
    if access == ExecAccess { ok := e.x; } else { ok := e.r || (cfg.mxr && e.x); }
    if ok {
      if cfg.priv == User && !e.u { return false; }
      if cfg.priv == Supervisor && e.u && !cfg.sum { return false; }
    }
  }

  /** What the inline paths rely on: `host_base` plus the page offset is the RAM byte the walk finds. */
  lemma FastPathIsTranslation(cfg: Config, e: Entry, ram: seq<Byte>, vaddr: Word, size: nat, access: Access)
    requires EntryCoherent(e, ram, TableOf(cfg.rootPpn)) && Hits(e, cfg, vaddr / PAGE, access) && e.host.Some?
    requires cfg.priv != Machine && cfg.mode != BARE && !Crosses(vaddr, size) && |ram| + RAM_BASE < TWO_64
    ensures var pa := e.host.value + RAM_BASE + vaddr % PAGE;
            && pa < TWO_64 && TranslateSpec(ram, cfg, vaddr, access) == Walked(Pa(pa), ram)
            && RamAddress(|ram|, pa) && pa - RAM_BASE + size <= |ram|
  {
    hide FindLeaf, Frame, Aligned, HitAddress, Permits, TableOf, Rd, Wr, Ex, Us, Ac, Di;
    var l := FindLeaf(ram, TableOf(cfg.rootPpn), e.vpn, 2);
    var base := FrameBase(l.pte, e.vpn, l.level);
    HitAddressIs(e, vaddr, base);
    HitIsWalk(e, ram, cfg, vaddr, access);
  }

  lemma FastLoadIsSpec<D>(devices: Devices<D>, cfg: Config, e: Entry, sys: Sys<D>, vaddr: Word, size: nat,
                          access: Access)
    requires EntryCoherent(e, sys.ram, TableOf(cfg.rootPpn)) && Hits(e, cfg, vaddr / PAGE, access) && e.host.Some?
    requires cfg.priv != Machine && cfg.mode != BARE && !Crosses(vaddr, size) && |sys.ram| + RAM_BASE < TWO_64
    requires e.host.value + PAGE <= |sys.ram|
    ensures LoadSpec(devices, cfg, sys, vaddr, size, access)
         == Result(0, ReadLe(sys.ram, e.host.value + vaddr % PAGE, size), sys)
  {
    hide EntryCoherent, Hits, TranslateSpec, ReadLe;
    FastPathIsTranslation(cfg, e, sys.ram, vaddr, size, access);
  }

  lemma EntryOf(tlb: seq<Entry>, ram: seq<Byte>, table: int, i: nat)
    requires Coherent(tlb, ram, table) && i < |tlb|
    ensures EntryCoherent(tlb[i], ram, table)
  {
  }

  lemma FastStoreIsSpec<D>(devices: Devices<D>, cfg: Config, e: Entry, sys: Sys<D>, vaddr: Word, size: nat, val: nat)
    requires EntryCoherent(e, sys.ram, TableOf(cfg.rootPpn)) && Hits(e, cfg, vaddr / PAGE, WriteAccess) && e.host.Some?
    requires cfg.priv != Machine && cfg.mode != BARE && !Crosses(vaddr, size) && |sys.ram| + RAM_BASE < TWO_64
    requires e.host.value + PAGE <= |sys.ram|
    ensures StoreSpec(devices, cfg, sys, vaddr, size, val)
         == Result(0, 0, sys.(ram := WriteLe(sys.ram, e.host.value + vaddr % PAGE, size, val)))
    ensures TranslateSpec(sys.ram, cfg, vaddr, WriteAccess).ram == sys.ram
  {
    hide EntryCoherent, Hits, TranslateSpec, WriteLe;
    FastPathIsTranslation(cfg, e, sys.ram, vaddr, size, WriteAccess);
  }

  // The inline paths in M-mode, where addresses are physical

  predicate SameFrame(a: seq<Byte>, b: seq<Byte>, host: nat) {
    |a| == |b| && forall i :: 0 <= i < |a| && host <= i < host + PAGE ==> a[i] == b[i]
  }

  predicate FitsRam(ram: seq<Byte>, e: Entry) {
    && |ram| % PAGE == 0 && |ram| + RAM_BASE < TWO_64
    && e.host.Some? && e.host == HostOf(|ram|, e.ppn)
  }

  /** The inline value is what the bus answers, whatever the devices and the rest of RAM hold. */
  ghost predicate LoadAlwaysRight<D(!new)>(dev: D, cfg: Config, e: Entry, ram: seq<Byte>, vaddr: Word, size: nat,
                                           access: Access)
    requires FitsRam(ram, e) && !Crosses(vaddr, size)
  {
    forall devices: Devices<D>, ram': seq<Byte> :: SameFrame(ram, ram', e.host.value) ==>
      LoadSpec(devices, cfg, Sys(ram', dev), vaddr, size, access)
      == Result(0, InlineValue(e, ram, vaddr, size), Sys(ram', dev))
  }

  ghost predicate StoreAlwaysRight<D(!new)>(dev: D, cfg: Config, e: Entry, ram: seq<Byte>, vaddr: Word, size: nat)
    requires FitsRam(ram, e) && !Crosses(vaddr, size)
  {
    forall devices: Devices<D>, ram': seq<Byte>, val: nat :: SameFrame(ram, ram', e.host.value) ==>
      StoreSpec(devices, cfg, Sys(ram', dev), vaddr, size, val)
      == Result(0, 0, Sys(InlineStored(e, ram', vaddr, size, val), dev))
  }

  /** What the specification does in M-mode. */
  lemma PhysicalAccess<D>(devices: Devices<D>, cfg: Config, sys: Sys<D>, vaddr: Word, size: nat, access: Access,
                          val: nat)
    requires cfg.priv == Machine && !Crosses(vaddr, size)
    ensures LoadSpec(devices, cfg, sys, vaddr, size, access)
         == Result(0, BusLoad(devices, sys, vaddr, size).0, BusLoad(devices, sys, vaddr, size).1)
    ensures StoreSpec(devices, cfg, sys, vaddr, size, val) == Result(0, 0, BusStore(devices, sys, vaddr, size, val))
  {
  }

  /** Whole pages of RAM: an access within a page is inside or outside, and apart from other frames. */
  lemma PageOfRam(ram: seq<Byte>, e: Entry, vaddr: Word, size: nat)
    requires FitsRam(ram, e) && !Crosses(vaddr, size) && size > 0
    ensures RamAddress(|ram|, vaddr) ==> vaddr - RAM_BASE + size <= |ram|
    ensures e.ppn == vaddr / PAGE ==> RamAddress(|ram|, vaddr) && vaddr - RAM_BASE == e.host.value + vaddr % PAGE
    ensures e.ppn != vaddr / PAGE && RamAddress(|ram|, vaddr) ==>
              vaddr - RAM_BASE + size <= e.host.value || e.host.value + PAGE <= vaddr - RAM_BASE
  {
    var page, off := vaddr / PAGE, vaddr % PAGE;
    assert vaddr == page * PAGE + off;
    assert e.host.value == e.ppn * PAGE - RAM_BASE;
    var pages := |ram| / PAGE;
    assert |ram| == pages * PAGE;
  }

  lemma LowByte(ram: seq<Byte>, off: nat, size: nat)
    requires size > 0 && off + size <= |ram|
    ensures ReadLe(ram, off, size) % 0x100 == ram[off]
  {
  }

  lemma StoredByte(ram: seq<Byte>, off: nat, size: nat, val: nat)
    requires size > 0 && off + size <= |ram|
    ensures WriteLe(ram, off, size, val)[off] == val % 0x100
  {
  }

  /** The inline load of M-mode is right for all devices and all other contents of RAM if and only if the
      cached frame is the addressed page itself. */
  lemma MachineModeLoad<D(!new)>(dev: D, cfg: Config, e: Entry, ram: seq<Byte>, vaddr: Word, size: nat, access: Access)
    requires cfg.priv == Machine && FitsRam(ram, e) && !Crosses(vaddr, size) && size in {1, 2, 4, 8}
    ensures LoadAlwaysRight(dev, cfg, e, ram, vaddr, size, access) <==> e.ppn == vaddr / PAGE
  {
    hide LoadSpec, ReadLe;
    var off := vaddr - RAM_BASE;
    PageOfRam(ram, e, vaddr, size);
    if e.ppn == vaddr / PAGE {
      forall devices: Devices<D>, ram': seq<Byte> | SameFrame(ram, ram', e.host.value)
        ensures LoadSpec(devices, cfg, Sys(ram', dev), vaddr, size, access)
             == Result(0, InlineValue(e, ram, vaddr, size), Sys(ram', dev))
      {
        PhysicalAccess(devices, cfg, Sys(ram', dev), vaddr, size, access, 0);
        ReadSame(ram, ram', off, size);
      }
    } else {
      LoadGoesWrong(dev, cfg, e, ram, vaddr, size, access);
    }
  }

  lemma LoadGoesWrong<D(!new)>(dev: D, cfg: Config, e: Entry, ram: seq<Byte>, vaddr: Word, size: nat, access: Access)
    requires cfg.priv == Machine && FitsRam(ram, e) && !Crosses(vaddr, size) && size in {1, 2, 4, 8}
    requires e.ppn != vaddr / PAGE
    ensures !LoadAlwaysRight(dev, cfg, e, ram, vaddr, size, access)
  {
    hide LoadSpec, ReadLe;
    var off := vaddr - RAM_BASE;
    PageOfRam(ram, e, vaddr, size);
    var wrong: Word := if InlineValue(e, ram, vaddr, size) == 0 then 1 else 0;
    var devices: Devices<D> := Devices((d, a, n) => (wrong, d), (d, ram, a, n, v) => (d, ram));
    var ram' := if RamAddress(|ram|, vaddr) then ram[off := (InlineValue(e, ram, vaddr, size) + 1) % 0x100] else ram;
    assert SameFrame(ram, ram', e.host.value);
    PhysicalAccess(devices, cfg, Sys(ram', dev), vaddr, size, access, 0);
    if RamAddress(|ram|, vaddr) {
      LowByte(ram', off, size);
    }
  }

  /** The same for the inline store. */
  lemma MachineModeStore<D(!new)>(dev: D, cfg: Config, e: Entry, ram: seq<Byte>, vaddr: Word, size: nat)
    requires cfg.priv == Machine && FitsRam(ram, e) && !Crosses(vaddr, size) && size in {1, 2, 4, 8}
    ensures StoreAlwaysRight(dev, cfg, e, ram, vaddr, size) <==> e.ppn == vaddr / PAGE
  {
    hide StoreSpec, WriteLe;
    var off, frameOff := vaddr - RAM_BASE, e.host.value + vaddr % PAGE;
    PageOfRam(ram, e, vaddr, size);
    if e.ppn == vaddr / PAGE {
      forall devices: Devices<D>, ram': seq<Byte>, val: nat | SameFrame(ram, ram', e.host.value)
        ensures StoreSpec(devices, cfg, Sys(ram', dev), vaddr, size, val)
             == Result(0, 0, Sys(InlineStored(e, ram', vaddr, size, val), dev))
      {
        PhysicalAccess(devices, cfg, Sys(ram', dev), vaddr, size, WriteAccess, val);
      }
    } else {
      var devices: Devices<D> := Devices((d, a, n) => (0, d), (d, ram, a, n, v) => (d, ram));
      var byte: int := ram[frameOff];
      var val: nat := (byte + 1) % 0x100;
      PhysicalAccess(devices, cfg, Sys(ram, dev), vaddr, size, WriteAccess, val);
      StoredByte(ram, frameOff, size, val);
      assert SameFrame(ram, ram, e.host.value);
    }
  }

  // A case: a gigapage at address 0, mapped to the start of RAM

  const GIGAPAGE: Pte := 0x2000_00C7      // frame 0x80000, D A X- W R V

  const GIGA_CONFIG := Config(Supervisor, 8, 0x8_0001, false, false)

  /** Two pages of RAM: data with 0x42 in front, and a root table whose first entry is the gigapage. */
  function GigaRam(): (ram: seq<Byte>)
    ensures |ram| == 0x2000
  {
    var zeros: seq<Byte> := seq(0x2000, _ => 0);
    WriteLe(zeros[0 := 0x42], PAGE, 8, GIGAPAGE)
  }

  lemma GigaLeaf()
    ensures FindLeaf(GigaRam(), TableOf(0x8_0001), 0, 2) == Leaf(RAM_BASE + PAGE, GIGAPAGE, 2)
  {
    hide ReadLe, WriteLe;
    var zeros: seq<Byte> := seq(0x2000, _ => 0);
    ReadBack(zeros[0 := 0x42], PAGE, 8, GIGAPAGE);
    EightBytes();
    assert PteAt(GigaRam(), RAM_BASE + PAGE) == GIGAPAGE;
  }

  /** The entry that an S-mode read of address 0 installs, found again in M-mode: the inline load reads the
      start of RAM, where the bus would have asked the device at address 0. */
  lemma MachineModeReadsAnotherPage<D>(devices: Devices<D>, dev: D)
    requires devices.load(dev, 0, 1).0 != 0x42
    ensures var ram, l := GigaRam(), FindLeaf(GigaRam(), TableOf(GIGA_CONFIG.rootPpn), 0, 2);
            && TranslateSpec(ram, GIGA_CONFIG, 0, ReadAccess).out.Pa? && l.Leaf?
            && var e := Tlb.Filled(l, 0, ReadAccess, |ram|);
            && InlineHit(e, GIGA_CONFIG.(priv := Machine), 0, 1, ReadAccess)
            && InlineValue(e, ram, 0, 1) == 0x42
            && LoadSpec(devices, GIGA_CONFIG.(priv := Machine), Sys(ram, dev), 0, 1, ReadAccess).val != 0x42
  {
    hide ReadLe, WriteLe, FindLeaf, SetPte;
    GigaLeaf();
    var ram := GigaRam();
    LowByte(ram, 0, 1);
    OneByte(ram, 0);
    assert ram[0] == 0x42 by { GigaFirst(); }
  }

  lemma GigaFirst()
    ensures GigaRam()[0] == 0x42
  {
    hide WriteLe;
  }

  lemma OneByte(ram: seq<Byte>, off: nat)
    requires off < |ram|
    ensures ReadLe(ram, off, 1) == ram[off]
  {
    assert ReadLe(ram, off + 1, 0) == 0;
  }

  lemma FrameOfAddress(frame: nat, off: nat)
    requires off < PAGE
    ensures (frame * PAGE + off) / PAGE == frame
  {
    DivisionIs(frame * PAGE + off, PAGE, frame, off);
  }
}
