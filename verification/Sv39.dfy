/**
 The Sv39 page-table walk of `rv64_translate`, without a TLB: what it returns and which
 accessed and dirty bits it writes into the tables.
 */
module Sv39 {
  import opened Words
  import opened Memory

  const PAGE: nat := 0x1000

  datatype Access = ReadAccess | WriteAccess | ExecAccess

  datatype Priv = User | Supervisor | Machine

  /** The state translation depends on besides memory. `satp` is kept as its two used fields. */
  datatype Config = Config(priv: Priv, mode: nat, rootPpn: nat, sum: bool, mxr: bool)

  const BARE: nat := 0

  type Pte = p: int | 0 <= p < 0x1_0000_0000_0000_0000

  // Bits of a page-table entry

  predicate V(p: Pte) { p % 2 == 1 }

  predicate Rd(p: Pte) { p / 2 % 2 == 1 }

  predicate Wr(p: Pte) { p / 4 % 2 == 1 }

  predicate Ex(p: Pte) { p / 8 % 2 == 1 }

  predicate Us(p: Pte) { p / 16 % 2 == 1 }

  predicate Ac(p: Pte) { p / 64 % 2 == 1 }

  predicate Di(p: Pte) { p / 128 % 2 == 1 }

  predicate IsLeafPte(p: Pte) { Rd(p) || Wr(p) || Ex(p) }

  /** W without R. */
  predicate Reserved(p: Pte) { Wr(p) && !Rd(p) }

  function Ppn(p: Pte): nat { p / 0x400 }

  /** `pte | PTE_A`, and `| PTE_D` for a write. */
  function Touched(p: Pte, write: bool): Pte {
    p + (if Ac(p) then 0 else 64) + (if write && !Di(p) then 128 else 0)
  }

  /** An entry taken apart: flags below A, the A and D bits, and the rest. */
  lemma Parts(p: Pte, low: nat, a: nat, d: nat, high: nat)
    requires p == low + 64 * a + 128 * d + 256 * high && low < 64 && a < 2 && d < 2
    ensures p % 64 == low && p / 64 % 2 == a && p / 128 % 2 == d && p / 0x400 == high / 4
  {
    DivisionIs(p, 64, a + 2 * d + 4 * high, low);
    DivisionIs(a + 2 * d + 4 * high, 2, d + 2 * high, a);
    DivisionIs(p, 128, d + 2 * high, low + 64 * a);
    DivisionIs(d + 2 * high, 2, high, d);
    DivisionIs(p, 0x400, high / 4, low + 64 * a + 128 * d + 256 * (high % 4));
  }

  /** A bit below the sixth depends on the low six only. */
  lemma LowBit(p: Pte, m: nat, k: nat)
    requires m > 0 && k > 0 && m * k == 32
    ensures p / m % 2 == p % 64 / m % 2
  {
    var low, h := p % 64, p / 64;
    var q := low / m;
    DivisionIs(p, m, 2 * k * h + q, low % m) by {
      assert low == m * q + low % m;
      assert m * (2 * k * h) == 2 * (m * k) * h;
    }
    DivisionIs(2 * k * h + q, 2, k * h + q / 2, q % 2);
  }

  lemma LowFlags(p: Pte)
    ensures V(p) == (p % 64 / 1 % 2 == 1) && Rd(p) == (p % 64 / 2 % 2 == 1) && Wr(p) == (p % 64 / 4 % 2 == 1)
    ensures Ex(p) == (p % 64 / 8 % 2 == 1) && Us(p) == (p % 64 / 16 % 2 == 1)
  {
    LowBit(p, 1, 32);
    LowBit(p, 2, 16);
    LowBit(p, 4, 8);
    LowBit(p, 8, 4);
    LowBit(p, 16, 2);
  }

  lemma Chop(p: Pte)
    ensures p == p % 64 + 64 * (p / 64 % 2) + 128 * (p / 128 % 2) + 256 * (p / 256)
  {
    var t := p / 64;
    DivisionIs(p, 128, t / 2, p % 64 + 64 * (t % 2));
    DivisionIs(p, 256, t / 2 / 2, p % 64 + 64 * (t % 2) + 128 * (t / 2 % 2));
  }

  lemma TouchedParts(p: Pte, write: bool)
    ensures Touched(p, write) == p % 64 + 64 * 1 + 128 * (if Di(p) || write then 1 else 0) + 256 * (p / 256)
  {
    Chop(p);
  }

  /** Setting A and D changes nothing else about an entry. */
  lemma TouchedKeeps(p: Pte, write: bool)
    ensures var q := Touched(p, write);
            && V(q) == V(p) && Rd(q) == Rd(p) && Wr(q) == Wr(p) && Ex(q) == Ex(p) && Us(q) == Us(p)
            && Ppn(q) == Ppn(p) && Ac(q) && Di(q) == (Di(p) || write)
  {
    hide V, Rd, Wr, Ex, Us, Touched;
    var q := Touched(p, write);
    Chop(p);
    TouchedParts(p, write);
    Parts(p, p % 64, p / 64 % 2, p / 128 % 2, p / 256);
    Parts(q, p % 64, 1, if Di(p) || write then 1 else 0, p / 256);
    LowFlags(p);
    LowFlags(q);
  }

  // The walk

  /** The 9 bits of a virtual page number that index the table of `level`. */
  function Index(vpn: nat, level: nat): nat
    requires level <= 2
  {
    (if level == 2 then vpn / 0x4_0000 else if level == 1 then vpn / 0x200 else vpn) % 0x200
  }

  predicate InRam(ram: seq<Byte>, addr: int) {
    RAM_BASE <= addr && addr + 8 <= RAM_BASE + |ram|
  }

  /** An entry outside RAM reads as an unmapped bus address does, as 0. */
  function PteAt(ram: seq<Byte>, addr: int): Pte {
    if InRam(ram, addr) then
      assert Pow256(8) == 0x1_0000_0000_0000_0000 by { EightBytes(); }
      ReadLe(ram, addr - RAM_BASE, 8)
    else 0
  }

  lemma EightBytes()
    ensures Pow256(8) == 0x1_0000_0000_0000_0000
  {
    assert Pow256(4) == 0x1_0000_0000;
    assert Pow256(6) == 0x100 * Pow256(5) == 0x1_0000 * Pow256(4);
    assert Pow256(8) == 0x100 * Pow256(7) == 0x1_0000 * Pow256(6);
  }

  datatype Leaf = NoLeaf | Leaf(addr: int, pte: Pte, level: nat)

  function TableOf(ppn: nat): int { ppn % 0x1000_0000_0000 * PAGE }

  function EntryAddr(table: int, vpn: nat, level: nat): int
    requires level <= 2
  {
    table + Index(vpn, level) * 8
  }

  lemma EntriesAreAligned(table: int, vpn: nat, level: nat, ppn: nat)
    requires level <= 2 && table % 8 == 0
    ensures EntryAddr(table, vpn, level) % 8 == 0 && TableOf(ppn) % 8 == 0
  {
  }

  /** The leaf entry the tables hold for a virtual page, before any permission is looked at. */
  function FindLeaf(ram: seq<Byte>, table: int, vpn: nat, level: nat): (l: Leaf)
    requires level <= 2
    ensures l.Leaf? ==> l.level <= level && V(l.pte) && IsLeafPte(l.pte) && !Reserved(l.pte)
                        && InRam(ram, l.addr) && PteAt(ram, l.addr) == l.pte
    decreases level
  {
    var addr := EntryAddr(table, vpn, level);
    var pte := PteAt(ram, addr);
    if !V(pte) || Reserved(pte) then NoLeaf
    else if IsLeafPte(pte) then Leaf(addr, pte, level)
    else if level == 0 then NoLeaf
    else FindLeaf(ram, TableOf(Ppn(pte)), vpn, level - 1)
  }

  predicate Permits(cfg: Config, r: bool, w: bool, x: bool, u: bool, access: Access) {
    && !(cfg.priv == User && !u)
    && !(cfg.priv == Supervisor && u && !cfg.sum)
    && match access
       case ReadAccess => r || (cfg.mxr && x)
       case WriteAccess => w
       case ExecAccess => x
  }

  /** Superpages must be aligned. */
  predicate Aligned(pte: Pte, level: nat) {
    if level == 2 then Ppn(pte) / 0x200 % 0x200 == 0 && Ppn(pte) % 0x200 == 0
    else if level == 1 then Ppn(pte) % 0x200 == 0
    else true
  }

  /** Pages covered by a leaf at `level`. */
  function Span(level: nat): nat {
    if level == 2 then 0x4_0000 else if level == 1 then 0x200 else 1
  }

  /** Frame number of page `vpn` under an aligned leaf. */
  function Frame(pte: Pte, vpn: nat, level: nat): nat {
    (Ppn(pte) + vpn % Span(level)) % 0x10_0000_0000_0000
  }

  datatype Outcome = Fault(code: nat) | Pa(addr: Word)

  function FaultCode(access: Access): nat {
    match access case ExecAccess => 12 case ReadAccess => 13 case WriteAccess => 15
  }

  datatype Walked = Walked(out: Outcome, ram: seq<Byte>)

  function SetPte(ram: seq<Byte>, addr: int, pte: Pte): (r: seq<Byte>)
    requires InRam(ram, addr)
    ensures |r| == |ram|
  {
    WriteLe(ram, addr - RAM_BASE, 8, pte)
  }

  /** The whole walk: fault code or physical address, and the tables afterwards. */
  function Walk(ram: seq<Byte>, cfg: Config, vaddr: Word, access: Access): (w: Walked)
    ensures |w.ram| == |ram|
    ensures w.out.Fault? ==> w.out.code == FaultCode(access) && w.ram == ram
  {
    var l := FindLeaf(ram, TableOf(cfg.rootPpn), vaddr / PAGE, 2);
    if l.NoLeaf? || !Permits(cfg, Rd(l.pte), Wr(l.pte), Ex(l.pte), Us(l.pte), access) || !Aligned(l.pte, l.level)
    then Walked(Fault(FaultCode(access)), ram)
    else Walked(Pa(Frame(l.pte, vaddr / PAGE, l.level) * PAGE + vaddr % PAGE),
                SetPte(ram, l.addr, Touched(l.pte, access == WriteAccess)))
  }

  /** `rv64_translate` with the lookup removed. */
  function TranslateSpec(ram: seq<Byte>, cfg: Config, vaddr: Word, access: Access): (w: Walked)
    ensures |w.ram| == |ram|
    ensures w.out.Fault? ==> w.out.code > 0 && w.ram == ram
  {
    if cfg.priv == Machine || cfg.mode == BARE then Walked(Pa(vaddr), ram) else Walk(ram, cfg, vaddr, access)
  }

  // Accessed and dirty bits do not change what the tables map

  lemma AlignedApart(a: int, b: int)
    requires a % 8 == 0 && b % 8 == 0 && a != b
    ensures a + 8 <= b || b + 8 <= a
  {
  }

  lemma PteAfterSet(ram: seq<Byte>, addr: int, pte: Pte, other: int)
    requires InRam(ram, addr) && addr % 8 == 0 && other % 8 == 0
    ensures PteAt(SetPte(ram, addr, pte), other) == if other == addr then pte else PteAt(ram, other)
  {
    hide ReadLe, WriteLe, Pow256;
    if other == addr {
      ReadBack(ram, addr - RAM_BASE, 8, pte);
      EightBytes();
    } else if InRam(ram, other) {
      AlignedApart(addr, other);
      ReadElsewhere(ram, addr - RAM_BASE, 8, pte, other - RAM_BASE, 8);
    }
  }

  /** The leaf of page `vpn` after the entry at `addr` has been touched. */
  function LeafAfter(l: Leaf, addr: int, write: bool): Leaf {
    if l.Leaf? && l.addr == addr then l.(pte := Touched(l.pte, write)) else l
  }

  /** Touching one leaf entry leaves every page's leaf in place, whatever tables the pages share
      and even if the entry is reached at several levels; only its own A and D bits change. */
  lemma {:induction false} TouchingKeepsLeaves(ram: seq<Byte>, addr: int, write: bool, table: int, vpn: nat, level: nat)
    requires level <= 2 && InRam(ram, addr) && addr % 8 == 0 && table % 8 == 0
    requires V(PteAt(ram, addr)) && IsLeafPte(PteAt(ram, addr)) && !Reserved(PteAt(ram, addr))
    ensures FindLeaf(SetPte(ram, addr, Touched(PteAt(ram, addr), write)), table, vpn, level)
         == LeafAfter(FindLeaf(ram, table, vpn, level), addr, write)
    decreases level
  {
    hide V, Rd, Wr, Ex, Us, Ac, Di, Ppn, Touched, SetPte, PteAt, EntryAddr, TableOf, InRam;
    var pte := PteAt(ram, addr);
    var here := EntryAddr(table, vpn, level);
    EntriesAreAligned(table, vpn, level, Ppn(PteAt(ram, here)));
    TouchedKeeps(pte, write);
    PteAfterSet(ram, addr, Touched(pte, write), here);
    var next := PteAt(ram, here);
    if here != addr && V(next) && !Reserved(next) && !IsLeafPte(next) && level > 0 {
      TouchingKeepsLeaves(ram, addr, write, TableOf(Ppn(next)), vpn, level - 1);
    }
  }

  lemma {:induction false} LeafIsAligned(ram: seq<Byte>, table: int, vpn: nat, level: nat)
    requires level <= 2 && table % 8 == 0
    ensures FindLeaf(ram, table, vpn, level).Leaf? ==> FindLeaf(ram, table, vpn, level).addr % 8 == 0
    decreases level
  {
    hide V, Rd, Wr, Ex, Ppn, PteAt, EntryAddr, TableOf, InRam;
    var pte := PteAt(ram, EntryAddr(table, vpn, level));
    EntriesAreAligned(table, vpn, level, Ppn(pte));
    if V(pte) && !Reserved(pte) && !IsLeafPte(pte) && level > 0 {
      LeafIsAligned(ram, TableOf(Ppn(pte)), vpn, level - 1);
    }
  }
}
