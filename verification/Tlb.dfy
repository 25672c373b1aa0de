/**
 The TLB of `rv64_translate`: what an entry may hold, when a lookup hits, and why a hit is
 as good as the walk it replaces.
 */
module Tlb {
  import opened Wrappers
  import opened Words
  import opened Memory
  import opened Sv39

  const TLB_SIZE: nat := 4096

  /** `host` is the offset into RAM that `host_base` points at, if it is set. */
  datatype Entry = Entry(valid: bool, vpn: nat, ppn: nat, r: bool, w: bool, x: bool, u: bool, level: nat, dirty: bool,
                         host: Option<nat>)

  const EMPTY: Entry := Entry(false, 0, 0, false, false, false, false, 0, false, None)

  function Or(a: Word, b: Word): Word { Bits(BitOr, a, b) }

  // The address arithmetic of the code, in its own shifts and ors

  lemma Or12(x: nat, d: nat)
    requires x < 0x10_0000_0000_0000 && d < 0x1000
    ensures x * 0x1000 < TWO_64 && Or(x * 0x1000, d) == x * 0x1000 + d
  {
    Powers();
    DoubledIs(x, 12);
    OrDisjoint(x, d, 12, 64);
  }

  lemma Or21(x: nat, d: nat)
    requires x < 0x800_0000_0000 && d < 0x20_0000
    ensures x * 0x20_0000 < TWO_64 && Or(x * 0x20_0000, d) == x * 0x20_0000 + d
  {
    Powers();
    DoubledIs(x, 21);
    OrDisjoint(x, d, 21, 64);
  }

  lemma Or30(x: nat, d: nat)
    requires x < 0x4_0000_0000 && d < 0x4000_0000
    ensures x * 0x4000_0000 < TWO_64 && Or(x * 0x4000_0000, d) == x * 0x4000_0000 + d
  {
    Powers();
    DoubledIs(x, 30);
    OrDisjoint(x, d, 30, 64);
  }

  lemma Powers()
    ensures Pow2(0) == 1 && Pow2(9) == 0x200 && Pow2(12) == 0x1000 && Pow2(18) == 0x4_0000 && Pow2(21) == 0x20_0000
    ensures Pow2(30) == 0x4000_0000 && Pow2(64) == TWO_64
  {
    Pow2Values();
    hide Pow2;
    Pow2Sum(4, 4);
    OnePower();
    Pow2Sum(8, 1);
    Pow2Sum(8, 4);
    Pow2Sum(9, 9);
    Pow2Sum(9, 12);
    Pow2Sum(9, 21);
  }

  lemma OnePower()
    ensures Pow2(0) == 1 && Pow2(1) == 2
  {
  }

  /** The or-ed address of the walk. */
  function WalkAddress(pte: Pte, vaddr: Word, level: nat): Word
  {
    var vpn1, vpn0, off := vaddr / 0x20_0000 % 0x200, vaddr / 0x1000 % 0x200, vaddr % 0x1000;
    if level == 2 then Or(Or(Or(Wrap(Ppn(pte) * 0x1000), vpn1 * 0x20_0000), vpn0 * 0x1000), off)
    else if level == 1 then Or(Or(Wrap(Ppn(pte) / 0x200 * 0x20_0000), vpn0 * 0x1000), off)
    else Or(Wrap(Ppn(pte) * 0x1000), off)
  }

  /** The or-ed address of a hit, whose offset may repeat bits of the cached frame. */
  function HitAddress(e: Entry, vaddr: Word): Word {
    Or(Wrap(e.ppn * 0x1000),
       if e.level == 2 then vaddr % 0x4000_0000 else if e.level == 1 then vaddr % 0x20_0000 else vaddr % 0x1000)
  }

  // Division facts, each stated once

  /** A superpage frame number is a multiple of its span. */
  lemma AlignedFrame(pte: Pte, level: nat)
    requires level <= 2 && Aligned(pte, level)
    ensures Ppn(pte) == Ppn(pte) / Span(level) * Span(level)
  {
    if level == 2 {
      var p := Ppn(pte);
      DivisionIs(p, 0x4_0000, p / 0x200 / 0x200, 0);
    }
  }

  /** Adding an index below the span of an aligned frame does not carry, even where the frame wraps. */
  lemma FrameParts(k: nat, i: nat, span: nat, size: nat)
    requires span > 0 && i < span && size == 0x10_0000_0000_0000 && size % span == 0
    ensures (k * span + i) % size == k % (size / span) * span + i
  {
    var q := size / span;
    assert size == q * span;
    assert k == q * (k / q) + k % q;
    var r := k % q * span + i;
    assert r < size by {
      assert (k % q + 1) * span <= q * span;
    }
    assert k * span + i == size * (k / q) + r by {
      assert k * span == (q * (k / q) + k % q) * span == q * span * (k / q) + k % q * span;
    }
    DivisionIs(k * span + i, size, k / q, r);
  }

  lemma WrapScaled(x: nat, s: nat, q: nat)
    requires s > 0 && q * s == TWO_64
    ensures Wrap(x * s) == x % q * s
  {
    assert q > 0;
    assert x == q * (x / q) + x % q;
    assert x * s == q * s * (x / q) + x % q * s by {
      assert x * s == (q * (x / q) + x % q) * s;
    }
    assert x % q * s < q * s by {
      assert (x % q + 1) * s <= q * s;
    }
    DivisionIs(x * s, TWO_64, x / q, x % q * s);
  }

  lemma IndexParts(vaddr: Word)
    ensures var vpn := vaddr / 0x1000;
            var vpn1, vpn0 := vaddr / 0x20_0000 % 0x200, vaddr / 0x1000 % 0x200;
            vpn % 0x200 == vpn0 && vpn % 0x4_0000 == vpn1 * 0x200 + vpn0
  {
    var vpn := vaddr / 0x1000;
    DivisionIs(vaddr, 0x20_0000, vpn / 0x200, vpn % 0x200 * 0x1000 + vaddr % 0x1000);
    DivisionIs(vpn, 0x4_0000, vpn / 0x200 / 0x200, vpn / 0x200 % 0x200 * 0x200 + vpn % 0x200);
  }

  lemma WalkAddressPage(pte: Pte, vaddr: Word)
    ensures WalkAddress(pte, vaddr, 0) == Frame(pte, vaddr / PAGE, 0) * PAGE + vaddr % PAGE
  {
    hide Or, Ppn;
    var vpn := vaddr / PAGE;
    assert vpn % Span(0) == 0;
    WrapScaled(Ppn(pte), 0x1000, 0x10_0000_0000_0000);
    Or12(Ppn(pte) % 0x10_0000_0000_0000, vaddr % 0x1000);
  }

  lemma WalkAddressMega(pte: Pte, vaddr: Word)
    requires Aligned(pte, 1)
    ensures WalkAddress(pte, vaddr, 1) == Frame(pte, vaddr / PAGE, 1) * PAGE + vaddr % PAGE
  {
    hide Or;
    var k, i := Ppn(pte) / 0x200, vaddr / 0x1000 % 0x200;
    var q := k % 0x800_0000_0000;
    AlignedFrame(pte, 1);
    WrapScaled(k, 0x20_0000, 0x800_0000_0000);
    Or21(q, i * 0x1000);
    Or12(q * 0x200 + i, vaddr % 0x1000);
    FrameParts(k, i, 0x200, 0x10_0000_0000_0000);
  }

  lemma WalkAddressGiga(pte: Pte, vaddr: Word)
    requires Aligned(pte, 2)
    ensures WalkAddress(pte, vaddr, 2) == Frame(pte, vaddr / PAGE, 2) * PAGE + vaddr % PAGE
  {
    hide Or;
    var k, i1, i0 := Ppn(pte) / 0x4_0000, vaddr / 0x20_0000 % 0x200, vaddr / 0x1000 % 0x200;
    var q := k % 0x4_0000_0000;
    AlignedFrame(pte, 2);
    IndexParts(vaddr);
    WrapScaled(k, 0x4000_0000, 0x4_0000_0000);
    Or30(q, i1 * 0x20_0000);
    Or21(q * 0x200 + i1, i0 * 0x1000);
    Or12(q * 0x4_0000 + (i1 * 0x200 + i0), vaddr % 0x1000);
    FrameParts(k, i1 * 0x200 + i0, 0x4_0000, 0x10_0000_0000_0000);
  }

  /** The walk's shifts and ors put frame and offset together. */
  lemma WalkAddressIs(pte: Pte, vaddr: Word, level: nat)
    requires level <= 2 && Aligned(pte, level)
    ensures WalkAddress(pte, vaddr, level) == Frame(pte, vaddr / PAGE, level) * PAGE + vaddr % PAGE
  {
    hide WalkAddress, Frame, Aligned;
    if level == 0 {
      WalkAddressPage(pte, vaddr);
    } else if level == 1 {
      WalkAddressMega(pte, vaddr);
    } else {
      WalkAddressGiga(pte, vaddr);
    }
  }

  /** Or-ing the page offset into an address that already has its upper bits. */
  lemma OrRepeats(hi: nat, c: nat, d: nat, m: nat, span: nat)
    requires span == Pow2(m) && m <= 18 && c < span && d < 0x1000 && hi * span + c < 0x10_0000_0000_0000
    ensures Or((hi * span + c) * 0x1000, c * 0x1000 + d) == (hi * span + c) * 0x1000 + d
  {
    hide Pow2, Doubled, OnBits, Wrap;
    Powers();
    var a := hi * span + c;
    DoubledIs(hi, m);
    DoubledIs(a, 12);
    DoubledIs(c, 12);
    assert Doubled(hi, m) + c == a && Doubled(a, 12) == a * 0x1000 && Doubled(c, 12) == c * 0x1000;
    OrAbsorbs(hi, c, d, 12, m, 64);
  }

  /** A hit's address: the cached frame of this page and the page offset. */
  lemma HitAddressIs(e: Entry, vaddr: Word, base: nat)
    requires e.level <= 2 && e.ppn < 0x10_0000_0000_0000
    requires e.ppn == base * Span(e.level) + vaddr / PAGE % Span(e.level)
    ensures HitAddress(e, vaddr) == e.ppn * PAGE + vaddr % PAGE
  {
    hide Or, Pow2;
    Powers();
    var span := Span(e.level);
    var c, d := vaddr / PAGE % span, vaddr % PAGE;
    assert Wrap(e.ppn * 0x1000) == e.ppn * 0x1000;
    OffsetParts(vaddr, span);
    OrRepeats(base, c, d, if e.level == 2 then 18 else if e.level == 1 then 9 else 0, span);
  }

  lemma OffsetParts(vaddr: Word, span: nat)
    requires span > 0
    ensures vaddr % (span * PAGE) == vaddr / PAGE % span * PAGE + vaddr % PAGE
  {
    var vpn, d := vaddr / PAGE, vaddr % PAGE;
    var c := vpn % span;
    assert vpn == span * (vpn / span) + c;
    assert vaddr == span * PAGE * (vpn / span) + (c * PAGE + d) by {
      assert vaddr == vpn * PAGE + d;
      assert span * (vpn / span) * PAGE == span * PAGE * (vpn / span);
    }
    assert c * PAGE + d < span * PAGE by {
      assert (c + 1) * PAGE <= span * PAGE;
    }
    DivisionIs(vaddr, span * PAGE, vpn / span, c * PAGE + d);
  }

  // Coherence

  function HostOf(ramSize: nat, ppn: nat): Option<nat> {
    if ppn * PAGE >= RAM_BASE && ppn * PAGE + PAGE <= RAM_BASE + ramSize then Some(ppn * PAGE - RAM_BASE) else None
  }

  /** The entry agrees with the leaf the tables hold for its page: frame, level, permissions,
      A set, and dirty only where D is set. */
  predicate AgreesWith(e: Entry, l: Leaf) {
    && l.Leaf? && Aligned(l.pte, l.level)
    && e.ppn == Frame(l.pte, e.vpn, l.level) && e.level == l.level
    && e.r == Rd(l.pte) && e.w == Wr(l.pte) && e.x == Ex(l.pte) && e.u == Us(l.pte)
    && Ac(l.pte) && (e.dirty ==> Di(l.pte))
  }

  predicate EntryCoherent(e: Entry, ram: seq<Byte>, table: int) {
    e.valid ==> AgreesWith(e, FindLeaf(ram, table, e.vpn, 2)) && e.host == HostOf(|ram|, e.ppn)
  }

  ghost predicate Coherent(tlb: seq<Entry>, ram: seq<Byte>, table: int) {
    && (forall i :: 0 <= i < |tlb| ==> EntryCoherent(tlb[i], ram, table))
    && (forall i :: 0 <= i < |tlb| && tlb[i].valid ==> tlb[i].vpn % TLB_SIZE == i)
  }

  /** Tag, permissions, and for a write the dirty bit. */
  predicate Hits(e: Entry, cfg: Config, vpn: nat, access: Access) {
    e.valid && e.vpn == vpn && Permits(cfg, e.r, e.w, e.x, e.u, access) && (access == WriteAccess ==> e.dirty)
  }

  /** Writing back the value an entry already has changes nothing. */
  lemma {:induction false} WriteSame(ram: seq<Byte>, off: nat, n: nat)
    requires off + n <= |ram|
    ensures WriteLe(ram, off, n, ReadLe(ram, off, n)) == ram
    decreases n
  {
    if n > 0 {
      var v := ReadLe(ram, off, n);
      DivisionIs(v, 0x100, ReadLe(ram, off + 1, n - 1), ram[off]);
      assert ram[off := v % 0x100] == ram;
      WriteSame(ram, off + 1, n - 1);
    }
  }

  /** The frame of an aligned leaf is its base plus the page's index below the span. */
  lemma FrameBase(pte: Pte, vpn: nat, level: nat) returns (base: nat)
    requires level <= 2 && Aligned(pte, level)
    ensures Frame(pte, vpn, level) == base * Span(level) + vpn % Span(level) < 0x10_0000_0000_0000
  {
    var k, span := Ppn(pte) / Span(level), Span(level);
    AlignedFrame(pte, level);
    FrameParts(k, vpn % span, span, 0x10_0000_0000_0000);
    base := k % (0x10_0000_0000_0000 / span);
  }

  /** A hit on a coherent entry gives the address the walk would give, and the walk would have
      changed nothing. */
  lemma HitIsWalk(e: Entry, ram: seq<Byte>, cfg: Config, vaddr: Word, access: Access)
    requires EntryCoherent(e, ram, TableOf(cfg.rootPpn)) && Hits(e, cfg, vaddr / PAGE, access)
    ensures Walk(ram, cfg, vaddr, access) == Walked(Pa(HitAddress(e, vaddr)), ram)
  {
    hide V, Rd, Wr, Ex, Us, Ppn, HitAddress, FindLeaf, Permits, ReadLe, WriteLe, Frame, Aligned, TableOf;
    var l := FindLeaf(ram, TableOf(cfg.rootPpn), e.vpn, 2);
    var base := FrameBase(l.pte, e.vpn, l.level);
    HitAddressIs(e, vaddr, base);
    assert Touched(l.pte, access == WriteAccess) == l.pte;
    WriteSame(ram, l.addr - RAM_BASE, 8);
  }

  /** The entry the walk installs. */
  function Filled(l: Leaf, vpn: nat, access: Access, ramSize: nat): Entry
    requires l.Leaf?
  {
    var ppn := Frame(l.pte, vpn, l.level);
    Entry(true, vpn, ppn, Rd(l.pte), Wr(l.pte), Ex(l.pte), Us(l.pte), l.level,
          Di(Touched(l.pte, access == WriteAccess)), HostOf(ramSize, ppn))
  }

  lemma AgreementSurvives(e: Entry, l: Leaf, addr: int, write: bool)
    requires AgreesWith(e, l)
    ensures AgreesWith(e, LeafAfter(l, addr, write))
  {
    hide V, Rd, Wr, Ex, Us, Ac, Di, Ppn, Touched;
    TouchedKeeps(l.pte, write);
  }

  /** Touching a leaf entry keeps every coherent TLB entry coherent. */
  lemma TouchingKeepsEntry(e: Entry, ram: seq<Byte>, table: int, addr: int, write: bool)
    requires EntryCoherent(e, ram, table) && table % 8 == 0 && InRam(ram, addr) && addr % 8 == 0
    requires V(PteAt(ram, addr)) && IsLeafPte(PteAt(ram, addr)) && !Reserved(PteAt(ram, addr))
    ensures EntryCoherent(e, SetPte(ram, addr, Touched(PteAt(ram, addr), write)), table)
  {
    hide AgreesWith, V, IsLeafPte, Reserved, Touched, FindLeaf, PteAt, LeafAfter, InRam;
    if e.valid {
      TouchingKeepsLeaves(ram, addr, write, table, e.vpn, 2);
      AgreementSurvives(e, FindLeaf(ram, table, e.vpn, 2), addr, write);
    }
  }

  /** The installed entry is coherent with the tables the walk leaves. */
  lemma FilledIsCoherent(ram: seq<Byte>, cfg: Config, vpn: nat, access: Access)
    requires var l := FindLeaf(ram, TableOf(cfg.rootPpn), vpn, 2); l.Leaf? && Aligned(l.pte, l.level)
    ensures var l := FindLeaf(ram, TableOf(cfg.rootPpn), vpn, 2);
            EntryCoherent(Filled(l, vpn, access, |ram|), SetPte(ram, l.addr, Touched(l.pte, access == WriteAccess)),
                          TableOf(cfg.rootPpn))
  {
    hide V, Rd, Wr, Ex, Us, Ac, Di, Ppn, Touched, FindLeaf, PteAt, SetPte, TableOf;
    var table := TableOf(cfg.rootPpn);
    var l := FindLeaf(ram, table, vpn, 2);
    EntriesAreAligned(0, vpn, 2, cfg.rootPpn);
    LeafIsAligned(ram, table, vpn, 2);
    TouchingKeepsLeaves(ram, l.addr, access == WriteAccess, table, vpn, 2);
    TouchedKeeps(l.pte, access == WriteAccess);
  }

  /** The coherence invariant survives a walk that touches an entry and fills a slot. */
  lemma WalkKeepsCoherence(tlb: seq<Entry>, ram: seq<Byte>, cfg: Config, vpn: nat, access: Access)
    requires |tlb| == TLB_SIZE && Coherent(tlb, ram, TableOf(cfg.rootPpn))
    requires var l := FindLeaf(ram, TableOf(cfg.rootPpn), vpn, 2); l.Leaf? && Aligned(l.pte, l.level)
    ensures var l := FindLeaf(ram, TableOf(cfg.rootPpn), vpn, 2);
            Coherent(tlb[vpn % TLB_SIZE := Filled(l, vpn, access, |ram|)],
                     SetPte(ram, l.addr, Touched(l.pte, access == WriteAccess)), TableOf(cfg.rootPpn))
  {
    hide EntryCoherent, FindLeaf, TableOf, Touched, SetPte, PteAt;
    var table := TableOf(cfg.rootPpn);
    var l := FindLeaf(ram, table, vpn, 2);
    EntriesAreAligned(0, vpn, 2, cfg.rootPpn);
    LeafIsAligned(ram, table, vpn, 2);
    FilledIsCoherent(ram, cfg, vpn, access);
    forall i | 0 <= i < |tlb| ensures EntryCoherent(tlb[i], SetPte(ram, l.addr, Touched(l.pte, access == WriteAccess)),
                                                    table) {
      TouchingKeepsEntry(tlb[i], ram, table, l.addr, access == WriteAccess);
    }
  }
}
