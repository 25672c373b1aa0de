/**
 The devices on the bus: what loads and stores of the UART, the timer, the interrupt controller and the virtio
 registers answer and change, and that repeating a page-crossing access there does no harm.
 */
module Bus {
  import opened Wrappers
  import opened Words
  import opened Memory
  import opened Sv39
  import opened Mmu
  import BitWords
  import Emit
  import Interp
  import Jit
  import Plic
  import RunLoop
  import System
  import Virtio

  type Word32 = x: int | 0 <= x < 0x1_0000_0000

  /** An index into a ring of 256, or the number of an interrupt source. */
  type Index = i: int | 0 <= i < 0x100

  type Source = i: int | 0 <= i < 64

  function Low32(x: Word): Word32 { x % TWO_32 }

  function High32(x: Word): Word32 {
    DivisionIs(x, TWO_32, x / TWO_32, x % TWO_32);
    x / TWO_32
  }

  function Join(low: Word32, high: Word32): Word { low + high * TWO_32 }

  // UART

  type RxBuffer = s: seq<Byte> | |s| == 0x100 witness seq(0x100, _ => 0)

  datatype Uart = Uart(rbr: Byte, ier: Byte, lcr: Byte, mcr: Byte, msr: Byte, scr: Byte, dll: Byte, dlm: Byte,
                       rxReady: bool, threPending: bool, rx: RxBuffer, head: Index, tail: Index, sent: seq<Byte>)

  predicate Dlab(u: Uart) { u.lcr / 0x80 % 2 == 1 }

  predicate RxIrq(ier: Byte) { ier % 2 == 1 }

  predicate ThreIrq(ier: Byte) { ier / 2 % 2 == 1 }

  /** `uart_load`. */
  function UartLoad(u: Uart, off: nat): (Byte, Uart) {
    if off == 0 then
      if Dlab(u) then (u.dll, u)
      else
        var v := if u.head != u.tail then u.(rbr := u.rx[u.tail], tail := (u.tail + 1) % 0x100) else u;
        (v.rbr, v.(rxReady := v.head != v.tail))
    else if off == 1 then (if Dlab(u) then u.dlm else u.ier, u)
    else if off == 2 then
      if u.rxReady && RxIrq(u.ier) then (4, u)
      else if ThreIrq(u.ier) then (2, u.(threPending := false))
      else (1, u)
    else (match off
          case 3 => u.lcr
          case 4 => u.mcr
          case 5 => 0x60 + if u.rxReady then 1 else 0
          case 6 => u.msr
          case 7 => u.scr
          case _ => 0, u)
  }

  /** `uart_store`. */
  function UartStore(u: Uart, off: nat, val: Word): Uart {
    match off
    case 0 =>
      if Dlab(u) then u.(dll := val % 0x100)
      else u.(sent := u.sent + [val % 0x100], threPending := u.threPending || ThreIrq(u.ier))
    case 1 =>
      if Dlab(u) then u.(dlm := val % 0x100) else u.(ier := val % 0x10, threPending := ThreIrq(val % 0x10))
    case 3 => u.(lcr := val % 0x100)
    case 4 => u.(mcr := val % 0x20)
    case 7 => u.(scr := val % 0x100)
    case _ => u
  }

  predicate UartInterrupts(u: Uart) {
    u.threPending || (u.rxReady && RxIrq(u.ier))
  }

  // Timer

  const MTIMECMP: nat := 0x4000
  const MTIME: nat := 0xBFF8

  datatype Clint = Clint(mtimecmp: Word, mtime: Word)

  /** `clint_load`; it answers 32 bits whatever the size. */
  function ClintLoad(c: Clint, off: nat): Word32 {
    if off == MTIMECMP then Low32(c.mtimecmp)
    else if off == MTIMECMP + 4 then High32(c.mtimecmp)
    else if off == MTIME then Low32(c.mtime)
    else if off == MTIME + 4 then High32(c.mtime)
    else 0
  }

  /** `clint_store`. */
  function ClintStore(c: Clint, off: nat, val: Word, size: nat): Clint {
    if off == MTIMECMP then c.(mtimecmp := if size == 8 then val else Join(Low32(val), High32(c.mtimecmp)))
    else if off == MTIMECMP + 4 then c.(mtimecmp := Join(Low32(c.mtimecmp), Low32(val)))
    else if off == MTIME then c.(mtime := if size == 8 then val else Join(Low32(val), High32(c.mtime)))
    else if off == MTIME + 4 then c.(mtime := Join(Low32(c.mtime), Low32(val)))
    else c
  }

  // Interrupt controller

  type Two = s: seq<Word32> | |s| == 2 witness [0, 0]

  type Priorities = s: seq<Word32> | |s| == 64 witness seq(64, _ => 0)

  /** Registers of two contexts; of each pair of words the first holds sources 0 to 31. */
  datatype Controller = Controller(priority: Priorities, pending: Two, enable0: Two, enable1: Two, threshold: Two,
                                   claim: Two)

  function Enable(p: Controller, ctx: nat): Two { if ctx == 0 then p.enable0 else p.enable1 }

  function WithBit(words: Two, i: Source): Two {
    WordBound();
    BitWords.StaysBelow(words[i / 32], i % 32, 32);
    words[i / 32 := BitWords.SetBit(words[i / 32], i % 32)]
  }

  function WithoutBit(words: Two, i: Source): Two {
    WordBound();
    BitWords.StaysBelow(words[i / 32], i % 32, 32);
    words[i / 32 := BitWords.ClearBit(words[i / 32], i % 32)]
  }

  lemma WordBound()
    ensures BitWords.Power(32) == TWO_32
  {
    assert BitWords.Power(16) == 0x1_0000 by { assert BitWords.Power(8) == 0x100; }
    assert BitWords.Power(24) == 0x100_0000;
  }

  /** The claim register. */
  function ClaimRead(p: Controller, ctx: nat): (Word32, Controller)
    requires ctx < 2
  {
    var i := Plic.ClaimIn(Plic.SetOf(p.pending), Plic.SetOf(Enable(p, ctx)));
    if i == 0 then (0, p) else (i, p.(pending := WithoutBit(p.pending, i), claim := p.claim[ctx := i]))
  }

  /** `plic_load`. */
  function PlicLoad(p: Controller, off: nat): (Word32, Controller) {
    if off < 0x1000 then (if off / 4 < 64 then p.priority[off / 4] else 0, p)
    else if off < 0x1080 then (if (off - 0x1000) / 4 < 2 then p.pending[(off - 0x1000) / 4] else 0, p)
    else if 0x2000 <= off < 0x2100 then
      var ctx := if off >= 0x2080 then 1 else 0;
      var idx := (off - 0x2000 - 0x80 * ctx) / 4;
      (if idx < 2 then Enable(p, ctx)[idx] else 0, p)
    else if 0x20_0000 <= off < 0x20_2000 then
      var ctx := if off >= 0x20_1000 then 1 else 0;
      var at := off - 0x20_0000 - 0x1000 * ctx;
      if at == 0 then (p.threshold[ctx], p) else if at == 4 then ClaimRead(p, ctx) else (0, p)
    else (0, p)
  }

  /** `plic_store`. */
  function PlicStore(p: Controller, off: nat, val: Word): Controller {
    if off < 0x1000 then (if off / 4 < 64 then p.(priority := p.priority[off / 4 := val % 8]) else p)
    else if 0x2000 <= off < 0x2100 then
      var ctx := if off >= 0x2080 then 1 else 0;
      var idx := (off - 0x2000 - 0x80 * ctx) / 4;
      if idx >= 2 then p
      else if ctx == 0 then p.(enable0 := p.enable0[idx := Low32(val)])
      else p.(enable1 := p.enable1[idx := Low32(val)])
    else if 0x20_0000 <= off < 0x20_2000 then
      var ctx := if off >= 0x20_1000 then 1 else 0;
      var at := off - 0x20_0000 - 0x1000 * ctx;
      if at == 0 then p.(threshold := p.threshold[ctx := val % 8])
      else if at == 4 then p.(claim := p.claim[ctx := 0])
      else p
    else p
  }

  // Virtio registers

  // Offsets as in section 4.2.2 of VIRTIO 1.1

  const QUEUE_NOTIFY: nat := 0x050
  const STATUS: nat := 0x070
  const CONFIG: nat := 0x100

  const NET: nat := 1
  const BLK: nat := 2

  type Word16 = x: int | 0 <= x < 0x1_0000

  datatype QueueRegs = QueueRegs(num: Word32, ready: Word32, desc: Word, avail: Word, used: Word, lastAvail: Word16)

  const NO_QUEUE := QueueRegs(0, 0, 0, 0, 0, 0)

  type Queues = s: seq<QueueRegs> | |s| == 4 witness [NO_QUEUE, NO_QUEUE, NO_QUEUE, NO_QUEUE]

  const NO_QUEUES: Queues := [NO_QUEUE, NO_QUEUE, NO_QUEUE, NO_QUEUE]

  /** `tracked`: the dirty callback is set; `reported`: the ranges it has been given. */
  datatype Card = Card(deviceId: Word32, irq: Source, status: Word32, intStatus: Word32, devFeaturesSel: Word32,
                       drvFeaturesSel: Word32, devFeatures: Word, drvFeatures: Word, queueSel: Word32,
                       configGen: Word32, queues: Queues, disk: seq<Byte>, tracked: bool,
                       reported: seq<Virtio.Range>)

  /** What the network device does with a queue is outside the model. */
  type NetQueue = (Card, nat, seq<Byte>) -> (Card, seq<Byte>)

  /** Capacity in sectors at 0, block size at 20. */
  function ConfigSpace(d: Card): (bytes: seq<Byte>)
    ensures |bytes| == 24
  {
    WriteLe(WriteLe(seq(24, _ => 0), 0, 8, |d.disk| / 512), 20, 4, 512)
  }

  /** `virtio_mmio_load`. */
  function VirtioLoad(d: Card, off: nat, size: nat): Word {
    if off >= CONFIG then
      if d.deviceId == BLK && off - CONFIG + size <= 24 then Wrap(ReadLe(ConfigSpace(d), off - CONFIG, size)) else 0
    else match off
      case 0x000 => 0x7472_6976
      case 0x004 => 2
      case 0x008 => d.deviceId
      case 0x00C => 0x554D_4551
      case 0x010 =>
        if d.devFeaturesSel == 0 then Low32(d.devFeatures)
        else if d.devFeaturesSel == 1 then High32(d.devFeatures)
        else 0
      case 0x034 => 256
      case 0x044 => if d.queueSel < 4 then d.queues[d.queueSel].ready else 0
      case 0x060 => d.intStatus
      case 0x070 => d.status
      case 0x0FC => d.configGen
      case _ => 0
  }

  /** The queue register of the selected queue that a store writes. */
  function WithRegister(q: QueueRegs, off: nat, val: Word): QueueRegs {
    match off
    case 0x038 => q.(num := Low32(val))
    case 0x044 => q.(ready := Low32(val))
    case 0x080 => q.(desc := Join(Low32(val), High32(q.desc)))
    case 0x084 => q.(desc := Join(Low32(q.desc), Low32(val)))
    case 0x090 => q.(avail := Join(Low32(val), High32(q.avail)))
    case 0x094 => q.(avail := Join(Low32(q.avail), Low32(val)))
    case 0x0A0 => q.(used := Join(Low32(val), High32(q.used)))
    case 0x0A4 => q.(used := Join(Low32(q.used), Low32(val)))
    case _ => q
  }

  function AndNot(x: Word32, mask: Word32): Word32 {
    Pow2Values();
    OnBits(BitAnd, x, TWO_32 - 1 - mask, 32)
  }

  /** A store of 0 to the status register: identity, disk and offered features stay, everything else is cleared,
      the dirty callback too. */
  function Reset(d: Card): Card {
    Card(d.deviceId, d.irq, 0, 0, 0, 0, d.devFeatures, 0, 0, 0, NO_QUEUES, d.disk, false, d.reported)
  }

  function QueueOf(q: QueueRegs): Virtio.Queue {
    Virtio.Queue(q.ready != 0, q.num, q.desc, q.avail, q.used)
  }

  /** The queue, disk and RAM after a notification of the block device. */
  function Processed(d: Card, q: QueueRegs, ram: seq<Byte>): (s: Virtio.State)
    requires q.num > 0
    ensures |s.ram| == |ram| && 0 <= s.lastAvail < TWO_16 && 0 <= s.intStatus < TWO_32
  {
    Virtio.Notify(Virtio.State(ram, d.disk, [], q.lastAvail, d.intStatus), QueueOf(q))
  }

  /** A notification of the block device, seen by the dirty callback if there is one. */
  function NotifyBlk(d: Card, i: nat, ram: seq<Byte>): (r: (Card, seq<Byte>))
    requires i < 4
    ensures |r.1| == |ram|
  {
    var q := d.queues[i];
    if q.ready == 0 || q.num == 0 then (d, ram) else
    var s := Processed(d, q, ram);
    (d.(disk := s.disk, intStatus := s.intStatus, queues := d.queues[i := q.(lastAvail := s.lastAvail)],
        reported := if d.tracked then d.reported + s.written else d.reported), s.ram)
  }

  /** `virtio_mmio_store`. */
  function VirtioStore(net: NetQueue, d: Card, ram: seq<Byte>, off: nat, val: Word): (Card, seq<Byte>) {
    if off == QUEUE_NOTIFY then
      if val >= 4 || d.queues[val].ready == 0 then (d, ram)
      else if d.deviceId == BLK then NotifyBlk(d, val, ram)
      else if d.deviceId == NET then net(d, val, ram)
      else (d, ram)
    else (SetRegister(d, off, val), ram)
  }

  function SetRegister(d: Card, off: nat, val: Word): Card {
    match off
    case 0x014 => d.(devFeaturesSel := Low32(val))
    case 0x020 =>
      if d.drvFeaturesSel == 0 then d.(drvFeatures := Join(Low32(val), High32(d.drvFeatures)))
      else if d.drvFeaturesSel == 1 then d.(drvFeatures := Join(Low32(d.drvFeatures), Low32(val)))
      else d
    case 0x024 => d.(drvFeaturesSel := Low32(val))
    case 0x030 => d.(queueSel := Low32(val))
    case 0x064 => d.(intStatus := AndNot(d.intStatus, Low32(val)))
    case 0x070 => if val == 0 then Reset(d) else d.(status := Low32(val))
    case _ =>
      if d.queueSel < 4
      then d.(queues := d.queues[d.queueSel := WithRegister(d.queues[d.queueSel], off, val)])
      else d
  }

  // The address map

  const CLINT_BASE: nat := 0x0200_0000
  const CLINT_SIZE: nat := 0x1_0000
  const PLIC_BASE: nat := 0x0C00_0000
  const PLIC_SIZE: nat := 0x0400_0000
  const UART_BASE: nat := 0x1000_0000
  const UART_SIZE: nat := 0x1000
  const VIRTIO_BASE: nat := 0x1000_1000
  const VIRTIO_SIZE: nat := 0x1000

  type Slots = s: seq<Option<Card>> | |s| == 2 witness [None, None]

  datatype Chips = Chips(uart: Uart, clint: Clint, plic: Controller, slots: Slots)

  predicate Within(addr: nat, base: nat, size: nat) { base <= addr < base + size }

  predicate InSlot(c: Chips, addr: nat) {
    Within(addr, VIRTIO_BASE, 2 * VIRTIO_SIZE) && c.slots[(addr - VIRTIO_BASE) / VIRTIO_SIZE].Some?
  }

  /** `bus_load` outside RAM; nothing answers 0. */
  function DeviceLoad(c: Chips, addr: Word, size: nat): (Word, Chips) {
    if Within(addr, UART_BASE, UART_SIZE) then
      var (v, u) := UartLoad(c.uart, addr - UART_BASE); (v, c.(uart := u))
    else if Within(addr, CLINT_BASE, CLINT_SIZE) then (ClintLoad(c.clint, addr - CLINT_BASE), c)
    else if Within(addr, PLIC_BASE, PLIC_SIZE) then
      var (v, p) := PlicLoad(c.plic, addr - PLIC_BASE); (v, c.(plic := p))
    else if InSlot(c, addr) then
      var at := addr - VIRTIO_BASE;
      (VirtioLoad(c.slots[at / VIRTIO_SIZE].value, at % VIRTIO_SIZE, size), c)
    else (0, c)
  }

  function Raised(c: Chips, irq: Source, on: bool): Chips {
    if on then c.(plic := c.plic.(pending := WithBit(c.plic.pending, irq))) else c
  }

  /** `bus_store` outside RAM; a device that has an interrupt raises its line with every store. */
  function DeviceStore(net: NetQueue, c: Chips, ram: seq<Byte>, addr: Word, size: nat, val: nat): (Chips, seq<Byte>) {
    var v := Wrap(val);
    if Within(addr, UART_BASE, UART_SIZE) then
      var u := UartStore(c.uart, addr - UART_BASE, v);
      (Raised(c.(uart := u), Plic.UART0_IRQ, UartInterrupts(u)), ram)
    else if Within(addr, CLINT_BASE, CLINT_SIZE) then
      (c.(clint := ClintStore(c.clint, addr - CLINT_BASE, v, size)), ram)
    else if Within(addr, PLIC_BASE, PLIC_SIZE) then (c.(plic := PlicStore(c.plic, addr - PLIC_BASE, v)), ram)
    else if InSlot(c, addr) then
      var at := addr - VIRTIO_BASE;
      var i := at / VIRTIO_SIZE;
      var (d, ram') := VirtioStore(net, c.slots[i].value, ram, at % VIRTIO_SIZE, v);
      (Raised(c.(slots := c.slots[i := Some(d)]), d.irq, d.intStatus != 0), ram')
    else (c, ram)
  }

  /** The devices of this bus. */
  function BusDevices(net: NetQueue): Devices<Chips> {
    Devices(DeviceLoad, (c, ram, addr, size, val) => DeviceStore(net, c, ram, addr, size, val))
  }

  // Repeated accesses at page ends

  /** No register that reacts to being read lies at the end of a page. */
  lemma EdgesAreQuiet(net: NetQueue)
    ensures System.QuietEdges(BusDevices(net))
  {
    hide Plic.ClaimIn, Plic.SetOf, VirtioLoad;
    forall c: Chips, pa: Word | System.Edge(pa) ensures BusDevices(net).load(c, pa, 1).1 == c {
      EdgeLoad(c, pa);
    }
  }

  lemma EdgeLoad(c: Chips, pa: Word)
    requires System.Edge(pa)
    ensures DeviceLoad(c, pa, 1).1 == c
  {
    hide VirtioLoad, ClaimRead;
    if Within(pa, UART_BASE, UART_SIZE) {
      assert pa - UART_BASE > 7;
      assert UartLoad(c.uart, pa - UART_BASE).1 == c.uart;
    } else if Within(pa, PLIC_BASE, PLIC_SIZE) {
      var off := pa - PLIC_BASE;
      assert off % PAGE > PAGE - 8;
      assert PlicLoad(c.plic, off).1 == c.plic;
    }
  }

  /** The line that a store at the end of a page raises. */
  function EdgeLine(c: Chips, pa: Word): Option<Source> {
    if Within(pa, UART_BASE, UART_SIZE) then (if UartInterrupts(c.uart) then Some(Plic.UART0_IRQ) else None)
    else if InSlot(c, pa) then
      var d := c.slots[(pa - VIRTIO_BASE) / VIRTIO_SIZE].value;
      if d.intStatus != 0 then Some(d.irq) else None
    else None
  }

  const MTIME_HIGH: Word := CLINT_BASE + MTIME + 4

  /** What a one-byte store at the end of a page does: the upper half of mtime, or a line that is raised. */
  function EdgeEffect(c: Chips, pa: Word, b: Byte): Chips {
    if pa == MTIME_HIGH then c.(clint := c.clint.(mtime := Join(Low32(c.clint.mtime), b)))
    else match EdgeLine(c, pa)
      case None => c
      case Some(irq) => Raised(c, irq, true)
  }

  lemma EdgeStore(net: NetQueue, c: Chips, ram: seq<Byte>, pa: Word, b: Byte)
    requires System.Edge(pa)
    ensures DeviceStore(net, c, ram, pa, 1, b) == (EdgeEffect(c, pa, b), ram)
  {
    hide WithBit, Join, UartStore, PlicStore, ClintStore, VirtioStore, UartInterrupts;
    if Within(pa, UART_BASE, UART_SIZE) {
      EdgeOfUart(c.uart, pa, b);
    } else if Within(pa, PLIC_BASE, PLIC_SIZE) {
      EdgeOfPlic(c.plic, pa, b);
    } else if Within(pa, CLINT_BASE, CLINT_SIZE) {
      EdgeOfTimer(c.clint, pa, b);
    } else if InSlot(c, pa) {
      var at := pa - VIRTIO_BASE;
      var i := at / VIRTIO_SIZE;
      EdgeOfCard(net, c.slots[i].value, ram, pa, b);
      assert c.(slots := c.slots[i := c.slots[i]]) == c;
    }
  }

  lemma EdgeOfUart(u: Uart, pa: Word, b: Byte)
    requires System.Edge(pa) && Within(pa, UART_BASE, UART_SIZE)
    ensures UartStore(u, pa - UART_BASE, b) == u
  {
    assert pa - UART_BASE > 7;
  }

  lemma EdgeOfPlic(p: Controller, pa: Word, b: Byte)
    requires System.Edge(pa) && Within(pa, PLIC_BASE, PLIC_SIZE)
    ensures PlicStore(p, pa - PLIC_BASE, b) == p
  {
    assert (pa - PLIC_BASE) % PAGE > PAGE - 8;
  }

  lemma EdgeOfCard(net: NetQueue, d: Card, ram: seq<Byte>, pa: Word, b: Byte)
    requires System.Edge(pa) && pa >= VIRTIO_BASE
    ensures VirtioStore(net, d, ram, (pa - VIRTIO_BASE) % VIRTIO_SIZE, b) == (d, ram)
  {
    var off := (pa - VIRTIO_BASE) % VIRTIO_SIZE;
    assert off > PAGE - 8;
    if d.queueSel < 4 {
      assert d.queues[d.queueSel := d.queues[d.queueSel]] == d.queues;
    }
  }

  lemma EdgeOfTimer(c: Clint, pa: Word, b: Byte)
    requires System.Edge(pa) && Within(pa, CLINT_BASE, CLINT_SIZE)
    ensures ClintStore(c, pa - CLINT_BASE, b, 1)
         == if pa == MTIME_HIGH then c.(mtime := Join(Low32(c.mtime), b)) else c
  {
    hide Join;
  }

  // Raising a line again

  lemma {:induction false} SetWhenTest(w: nat, i: nat)
    ensures BitWords.SetBit(w, i) == w <==> BitWords.TestBit(w, i)
    decreases i
  {
    if i > 0 {
      SetWhenTest(w / 2, i - 1);
    }
  }

  predicate HasBit(words: Two, i: Source) { BitWords.TestBit(words[i / 32], i % 32) }

  lemma BitStays(words: Two, i: Source, j: Source)
    ensures WithBit(words, i) == words <==> HasBit(words, i)
    ensures HasBit(WithBit(words, i), i) && (HasBit(words, j) ==> HasBit(WithBit(words, i), j))
  {
    hide BitWords.SetBit, BitWords.TestBit;
    SetWhenTest(words[i / 32], i % 32);
    BitWords.TestAfterSet(words[i / 32], i % 32, j % 32);
    BitWords.TestAfterSet(words[i / 32], i % 32, i % 32);
    assert words[i / 32 := words[i / 32]] == words;
    assert WithBit(words, i)[i / 32] == BitWords.SetBit(words[i / 32], i % 32);
  }

  /** When a byte stored at the end of a page has no effect any more. */
  predicate EdgeHeld(c: Chips, pa: Word, b: Byte) {
    if pa == MTIME_HIGH then High32(c.clint.mtime) == b
    else EdgeLine(c, pa).Some? ==> HasBit(c.plic.pending, EdgeLine(c, pa).value)
  }

  lemma HalvesJoin(x: Word, low: Word32, high: Word32)
    ensures Join(Low32(x), High32(x)) == x && Low32(Join(low, high)) == low && High32(Join(low, high)) == high
  {
    DivisionIs(Join(low, high), TWO_32, high, low);
  }

  lemma EdgeHeldIs(c: Chips, pa: Word, b: Byte)
    ensures EdgeEffect(c, pa, b) == c <==> EdgeHeld(c, pa, b)
  {
    hide WithBit, HasBit, Join, Low32, High32, EdgeLine;
    if pa == MTIME_HIGH {
      HalvesJoin(c.clint.mtime, Low32(c.clint.mtime), b);
    } else if EdgeLine(c, pa).Some? {
      BitStays(c.plic.pending, EdgeLine(c, pa).value, 0);
    }
  }

  lemma EdgeStays(c: Chips, pa: Word, b: Byte, pa': Word, b': Byte)
    ensures var c' := EdgeEffect(c, pa', b');
            EdgeHeld(c', pa', b') && (pa != pa' && EdgeHeld(c, pa, b) ==> EdgeHeld(c', pa, b))
  {
    hide WithBit, HasBit, Join, Low32, High32;
    if pa' == MTIME_HIGH {
      HalvesJoin(c.clint.mtime, Low32(c.clint.mtime), b');
    } else if EdgeLine(c, pa').Some? {
      var irq := EdgeLine(c, pa').value;
      BitStays(c.plic.pending, irq, irq);
      if EdgeLine(c, pa).Some? {
        BitStays(c.plic.pending, irq, EdgeLine(c, pa).value);
      }
    }
  }

  lemma WrittenIsHeld(net: NetQueue, c: Chips, pa: Word, b: Byte)
    requires System.Edge(pa)
    ensures System.Written(BusDevices(net), c, pa, b) <==> EdgeHeld(c, pa, b)
  {
    hide EdgeHeld, EdgeEffect, DeviceStore;
    EdgeHeldIs(c, pa, b);
    forall ram ensures BusDevices(net).store(c, ram, pa, 1, b) == (EdgeEffect(c, pa, b), ram) {
      EdgeStore(net, c, ram, pa, b);
    }
    var some: seq<Byte> := [];
    assert BusDevices(net).store(c, some, pa, 1, b) == (EdgeEffect(c, pa, b), some);
  }

  /** Bytes stored at page ends leave RAM alone, and are there to stay. */
  lemma EdgesAreSteady(net: NetQueue)
    ensures System.SteadyEdges(BusDevices(net))
  {
    hide EdgeHeld, EdgeEffect, DeviceStore, System.Written;
    var devices := BusDevices(net);
    forall c, ram, pa, b: Byte | System.Edge(pa)
      ensures devices.store(c, ram, pa, 1, b).1 == ram
      ensures System.Written(devices, devices.store(c, ram, pa, 1, b).0, pa, b)
    {
      EdgeStore(net, c, ram, pa, b);
      EdgeStays(c, pa, b, pa, b);
      WrittenIsHeld(net, EdgeEffect(c, pa, b), pa, b);
    }
    forall c, ram, pa, b: Byte, pa', b': Byte
      | System.Edge(pa) && System.Edge(pa') && pa != pa' && System.Written(devices, c, pa, b)
      ensures System.Written(devices, devices.store(c, ram, pa', 1, b').0, pa, b)
    {
      EdgeStore(net, c, ram, pa', b');
      EdgeStays(c, pa, b, pa', b');
      WrittenIsHeld(net, c, pa, b);
      WrittenIsHeld(net, EdgeEffect(c, pa', b'), pa, b);
    }
  }

  // What the accesses can reach

  /** The registers that react to being read: receive buffer, interrupt identification, and the two claims. */
  const REACTING: set<nat> := {UART_BASE, UART_BASE + 2, PLIC_BASE + 0x20_0004, PLIC_BASE + 0x20_1004}

  lemma OnlyFourReadsAct(c: Chips, addr: Word, size: nat)
    requires addr !in REACTING
    ensures DeviceLoad(c, addr, size).1 == c
  {
    hide VirtioLoad, ClaimRead;
  }

  /** A store reaches RAM only by notifying a queue. */
  lemma OnlyNotifyReachesRam(net: NetQueue, c: Chips, ram: seq<Byte>, addr: Word, size: nat, val: nat)
    requires addr < VIRTIO_BASE || (addr - VIRTIO_BASE) % VIRTIO_SIZE != QUEUE_NOTIFY
    ensures DeviceStore(net, c, ram, addr, size, val).1 == ram
  {
    hide Raised, SetRegister, UartStore, ClintStore, PlicStore;
  }

  lemma BusKeepsRamSize(net: NetQueue)
    requires forall d, i, ram :: |net(d, i, ram).1| == |ram|
    ensures KeepsRamSize(BusDevices(net))
  {
    hide Raised, SetRegister, UartStore, ClintStore, PlicStore, NotifyBlk;
    forall c, ram, addr, size, val ensures |DeviceStore(net, c, ram, addr, size, val).1| == |ram| {
    }
  }

  // Which answers fit the access

  /** Four bytes always hold the answer; one byte does at the UART, but not at the wider registers. */
  lemma AnswersFit(c: Chips, addr: Word)
    ensures DeviceLoad(c, addr, 4).0 < TWO_32
    ensures addr >= UART_BASE && addr < VIRTIO_BASE ==> DeviceLoad(c, addr, 1).0 < 0x100
  {
    hide VirtioLoad, UartLoad, ClintLoad, PlicLoad;
    if Within(addr, UART_BASE, UART_SIZE) {
      var v: Byte := UartLoad(c.uart, addr - UART_BASE).0;
    } else if Within(addr, PLIC_BASE, PLIC_SIZE) {
      var v: Word32 := PlicLoad(c.plic, addr - PLIC_BASE).0;
    } else if InSlot(c, addr) {
      CardFits(c.slots[(addr - VIRTIO_BASE) / VIRTIO_SIZE].value, (addr - VIRTIO_BASE) % VIRTIO_SIZE);
    }
  }

  lemma CardFits(d: Card, off: nat)
    ensures VirtioLoad(d, off, 4) < TWO_32
  {
    hide ConfigSpace;
    Virtio.Pow256Values();
  }

  /** The timer answers a byte load with 32 bits. */
  lemma TimeIsWide(c: Chips)
    requires Low32(c.clint.mtime) >= 0x100
    ensures DeviceLoad(c, CLINT_BASE + MTIME, 1).0 >= 0x100
  {
  }

  lemma {:induction false} BytesFit(devices: Devices<Chips>, cfg: Config, sys: Sys<Chips>, vaddr: Word, access: Access,
                                    i: nat, size: nat, acc: nat)
    requires i <= size && acc < Pow256(i)
    ensures LoadBytes(devices, cfg, sys, vaddr, access, i, size, acc).val < Pow256(size)
    decreases size - i
  {
    hide TranslateSpec, BusLoad, Wrap;
    if i < size {
      var w := TranslateSpec(sys.ram, cfg, Wrap(vaddr + i), access);
      if w.out.Pa? {
        var (b, sys') := BusLoad(devices, sys.(ram := w.ram), w.out.addr, 1);
        ByteAdded(acc, b, i);
        BytesFit(devices, cfg, sys', vaddr, access, i + 1, size, WithByte(acc, b, i));
      }
    }
  }

  lemma ByteAdded(acc: nat, b: nat, i: nat)
    requires acc < Pow256(i)
    ensures WithByte(acc, b, i) < Pow256(i + 1)
  {
    var top := b % 0x100;
    assert top * Pow256(i) <= 0xff * Pow256(i) by { Scaled(top, 0xff, Pow256(i)); }
  }

  lemma Scaled(a: nat, b: nat, p: nat)
    requires a <= b
    ensures a * p <= b * p
  {
  }

  /** So a four-byte load answers with four bytes, wherever it is served and also across a page. */
  lemma WordLoadFits(net: NetQueue, cfg: Config, sys: Sys<Chips>, vaddr: Word)
    ensures LoadSpec(BusDevices(net), cfg, sys, vaddr, 4, ReadAccess).val < TWO_32
  {
    hide TranslateSpec, DeviceLoad, ReadLe, LoadBytes;
    Virtio.Pow256Values();
    var w := TranslateSpec(sys.ram, cfg, vaddr, ReadAccess);
    if Crosses(vaddr, 4) {
      BytesFit(BusDevices(net), cfg, sys, vaddr, ReadAccess, 0, 4, 0);
    } else if w.out.Pa? {
      AnswersFit(sys.dev, w.out.addr);
    }
  }

  /** On this machine LWU is always in scope of the block compiler. */
  lemma LwuInScope(net: NetQueue, fetch: Fetch, fp: System.Fp<Chips>, junk: nat -> Word, g: Guest, w: Interp.InsnWord)
    requires Interp.Opcode(w) == 0x03 && Interp.Funct3(w) == 6
    ensures Emit.LoadInScope(BusEnv(net, fetch, fp, junk), g, w)
  {
    hide LoadSpec, BusDevices;
    var addr := Plus(g.x[Interp.Rs1(w)], Interp.ImmI(w));
    WordLoadFits(net, g.mem.cfg, g.mem.sys, addr);
    var v := LoadSpec(BusDevices(net), g.mem.cfg, g.mem.sys, addr, 4, ReadAccess).val;
    assert Wrap(v) == v;
  }

  // Page-crossing stores

  /** The bytes of a page-crossing store that go to RAM do not change the page tables. */
  ghost predicate RamBytesAvoidTables(net: NetQueue, cfg: Config, sys: Sys<Chips>, vaddr: Word, n: nat, val: nat)
    decreases n
  {
    n > 0 ==>
      var w := TranslateSpec(sys.ram, cfg, vaddr, WriteAccess);
      w.out.Pa? ==>
        var sys' := BusStore(BusDevices(net), sys.(ram := w.ram), w.out.addr, 1, val % 0x100);
        && (RamAddress(|sys.ram|, w.out.addr) ==> KeepsLeaves(w.ram, sys'.ram, TableOf(cfg.rootPpn)))
        && RamBytesAvoidTables(net, cfg, sys', Plus(vaddr, 1), n - 1, val / 0x100)
  }

  lemma OffsetStays(ram: seq<Byte>, cfg: Config, vaddr: Word, access: Access)
    ensures var w := TranslateSpec(ram, cfg, vaddr, access);
            w.out.Pa? ==> w.out.addr % PAGE == vaddr % PAGE && |w.ram| == |ram|
  {
    hide FindLeaf, Permits, Aligned, Touched, Frame, WriteLe;
    if System.Walks(cfg) && TranslateSpec(ram, cfg, vaddr, access).out.Pa? {
      var f := System.TranslationSettles(ram, cfg, vaddr, access);
      System.InFrame(f, vaddr % PAGE);
    }
  }

  /** The other bytes meet no queue notification, which lies in the middle of a page. */
  lemma {:induction false} RamBytesSuffice(net: NetQueue, cfg: Config, sys: Sys<Chips>, v: Word, n: nat, val: nat)
    requires (v % PAGE > PAGE - 8 && n <= 8) || v % PAGE + n <= 8
    requires RamBytesAvoidTables(net, cfg, sys, v, n, val)
    ensures BytesAvoidTables(BusDevices(net), cfg, sys, v, n, val)
    decreases n
  {
    hide TranslateSpec, KeepsLeaves, DeviceStore;
    if n > 0 {
      var w := TranslateSpec(sys.ram, cfg, v, WriteAccess);
      if w.out.Pa? {
        OffsetStays(sys.ram, cfg, v, WriteAccess);
        var pa := w.out.addr;
        var sys1 := BusStore(BusDevices(net), sys.(ram := w.ram), pa, 1, val % 0x100);
        if !RamAddress(|sys.ram|, pa) {
          assert pa < VIRTIO_BASE || (pa - VIRTIO_BASE) % VIRTIO_SIZE == pa % PAGE;
          OnlyNotifyReachesRam(net, sys.dev, w.ram, pa, 1, val % 0x100);
          NothingChanged(w.ram, TableOf(cfg.rootPpn));
        }
        System.NextByte(v);
        RamBytesSuffice(net, cfg, sys1, Plus(v, 1), n - 1, val / 0x100);
      }
    }
  }

  lemma NothingChanged(ram: seq<Byte>, table: int)
    ensures KeepsLeaves(ram, ram, table)
  {
  }

  // The run loop on this bus

  type Guest = Interp.Guest<System.Space<Chips>>

  type Fetch = Word -> Interp.Fetched

  /** A page-crossing store does not edit page tables, and an illegal floating-point instruction is found illegal
      again. */
  ghost predicate Repeatable(net: NetQueue, env: Interp.Env<System.Space<Chips>>, g: Guest) {
    match env.fetch(g.pc)
    case Insn(w, _, _) =>
      var op, size := Interp.Opcode(w), Interp.Size(Interp.Funct3(w));
      var to := Plus(g.x[Interp.Rs1(w)], Interp.ImmS(w));
      && (op == 0x23 && Crosses(to, size) ==>
            RamBytesAvoidTables(net, g.mem.cfg, g.mem.sys, to, size, g.x[Interp.Rs2(w)]))
      && (Interp.IsFp(op) ==> Jit.StableFp(env, g, w))
    case _ => true
  }

  lemma RepeatableOnBus(net: NetQueue, env: Interp.Env<System.Space<Chips>>, g: Guest)
    requires Repeatable(net, env, g)
    ensures System.Repeatable(BusDevices(net), env, g)
  {
    hide RamBytesAvoidTables, BytesAvoidTables, Jit.StableFp;
    match env.fetch(g.pc)
    case Insn(w, _, _) =>
      var size := Interp.Size(Interp.Funct3(w));
      var to := Plus(g.x[Interp.Rs1(w)], Interp.ImmS(w));
      if Interp.Opcode(w) == 0x23 && Crosses(to, size) {
        RamBytesSuffice(net, g.mem.cfg, g.mem.sys, to, size, g.x[Interp.Rs2(w)]);
      }
    case _ =>
  }

  function BusEnv(net: NetQueue, fetch: Fetch, fp: System.Fp<Chips>, junk: nat -> Word)
    : Interp.Env<System.Space<Chips>>
  {
    System.MmuEnv(BusDevices(net), fetch, fp, junk)
  }

  /** On this machine every load that faults does so again, with no further effect, and every store whose bytes do
      not edit page tables. */
  lemma BusFaultIsStable(net: NetQueue, fetch: Fetch, fp: System.Fp<Chips>, junk: nat -> Word, g: Guest)
    requires Repeatable(net, BusEnv(net, fetch, fp, junk), g)
    ensures Jit.StableFault(BusEnv(net, fetch, fp, junk), g)
  {
    hide Repeatable, System.Repeatable, System.QuietEdges, System.SteadyEdges, Jit.StableFault, System.Backed,
         System.MmuEnv;
    EdgesAreQuiet(net);
    EdgesAreSteady(net);
    RepeatableOnBus(net, BusEnv(net, fetch, fp, junk), g);
    System.MmuEnvIsBacked(BusDevices(net), fetch, fp, junk);
    System.MmuFaultIsStable(BusDevices(net), BusEnv(net, fetch, fp, junk), g);
  }

  /** On this machine the run loop asks nothing of the loads on its path, and of page-crossing stores only that
      they do not edit page tables: a fault that a block meets first is met again, whatever is mapped. */
  lemma BusPathInScope(net: NetQueue, fetch: Fetch, fp: System.Fp<Chips>, junk: nat -> Word,
                       trap: RunLoop.Trap<System.Space<Chips>>, g0: Guest, disabled: Word -> bool, maxInsns: nat,
                       bound: nat)
    requires forall m: nat :: m < bound ==>
               var p := RunLoop.Path(BusEnv(net, fetch, fp, junk), trap, g0, m);
               !p.stuck ==>
                 && Jit.StepInScope(BusEnv(net, fetch, fp, junk), p.g)
                 && Repeatable(net, BusEnv(net, fetch, fp, junk), p.g)
                 && RunLoop.NotCut(fetch, disabled, maxInsns, p.g.pc)
    ensures RunLoop.PathInScope(BusEnv(net, fetch, fp, junk), trap, g0, disabled, maxInsns, bound)
  {
    hide Jit.StepInScope, Repeatable, System.Repeatable, RunLoop.NotCut, RunLoop.Path, System.QuietEdges,
         System.SteadyEdges, System.MmuEnv;
    EdgesAreQuiet(net);
    EdgesAreSteady(net);
    var env := BusEnv(net, fetch, fp, junk);
    forall m: nat | m < bound && !RunLoop.Path(env, trap, g0, m).stuck
      ensures System.Repeatable(BusDevices(net), env, RunLoop.Path(env, trap, g0, m).g)
    {
      RepeatableOnBus(net, env, RunLoop.Path(env, trap, g0, m).g);
    }
    System.MmuPathInScope(BusDevices(net), fetch, fp, junk, trap, g0, disabled, maxInsns, bound);
  }
}
