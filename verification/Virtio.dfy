/**
 The virtio block device: what one queue notification does to guest RAM, disk and rings.

 Guest RAM starts at RAM_BASE. Ring indices have 16 bits and wrap; byte counts have 32.
 */
module Virtio {
  import opened Wrappers
  import opened Words
  import opened Memory
  import BitWords

  const SECTOR: int := 512

  const T_IN: nat := 0
  const T_OUT: nat := 1
  const T_FLUSH: nat := 4

  const S_OK: nat := 0
  const S_IOERR: nat := 1
  const S_UNSUPP: nat := 2

  type Bytes = seq<Byte>

  /** A virtqueue as the driver configured it. */
  datatype Queue = Queue(ready: bool, num: nat, desc: Word, avail: Word, used: Word)

  datatype Desc = Desc(addr: Word, len: nat, flags: nat, next: nat)

  /** A byte range of the disk, as passed to the dirty callback. */
  datatype Range = Range(off: nat, len: nat)

  // Guest memory

  /** The test of `guest_read` and `guest_write`. */
  predicate InRam(ram: Bytes, addr: nat, len: nat) {
    addr >= RAM_BASE && addr + len <= RAM_BASE + |ram|
  }

  function Splice(s: Bytes, off: nat, data: Bytes): (r: Bytes)
    requires off + |data| <= |s|
    ensures |r| == |s|
  {
    s[..off] + data + s[off + |data|..]
  }

  function GuestWrite(ram: Bytes, addr: nat, data: Bytes): (r: Bytes)
    ensures |r| == |ram|
  {
    if InRam(ram, addr, |data|) then Splice(ram, addr - RAM_BASE, data) else ram
  }

  function GuestWriteLe(ram: Bytes, addr: nat, n: nat, v: nat): (r: Bytes)
    ensures |r| == |ram|
  {
    if InRam(ram, addr, n) then WriteLe(ram, addr - RAM_BASE, n, v) else ram
  }

  function GuestReadLe(ram: Bytes, addr: nat, n: nat): nat
    requires InRam(ram, addr, n)
  {
    ReadLe(ram, addr - RAM_BASE, n)
  }

  // Descriptors

  predicate HasNext(d: Desc) { d.flags % 2 == 1 }

  predicate IsWritable(d: Desc) { d.flags / 2 % 2 == 1 }

  /** After the header: the last descriptor, or a writable one of a single byte. */
  predicate IsStatus(d: Desc) {
    !HasNext(d) || (IsWritable(d) && d.len == 1)
  }

  function ReadDesc(ram: Bytes, q: Queue, idx: nat): Option<Desc> {
    var at := q.desc + idx * 16;
    if InRam(ram, at, 16) then
      Some(DescAt(ram, at - RAM_BASE))
    else None
  }

  function DescAt(ram: Bytes, off: nat): Desc
    requires off + 16 <= |ram|
  {
    Pow256Values();
    Desc(ReadLe(ram, off, 8), ReadLe(ram, off + 8, 4), ReadLe(ram, off + 12, 2), ReadLe(ram, off + 14, 2))
  }

  lemma Pow256Values()
    ensures Pow256(1) == 0x100 && Pow256(2) == TWO_16 && Pow256(4) == TWO_32 && Pow256(8) == TWO_64
  {
    assert Pow256(4) == TWO_32;
  }

  // One request

  /** A request in progress: the locals of the descriptor loop and the memory it works on. */
  datatype Req = Req(ram: Bytes, disk: Bytes, written: seq<Range>, typ: nat, sector: Word, status: nat, phase: nat,
                     total: nat)

  function DiskOffset(sector: Word): Word { Wrap(sector * SECTOR) }

  function NextSector(sector: Word, len: nat): Word { Wrap(sector + len / SECTOR) }

  predicate OnDisk(disk: Bytes, sector: Word, len: nat) {
    DiskOffset(sector) + len <= |disk|
  }

  /** A data segment that the device can transfer. */
  predicate Transfers(r: Req, d: Desc) {
    OnDisk(r.disk, r.sector, d.len) && InRam(r.ram, d.addr, d.len)
  }

  function OnHeader(r: Req, d: Desc): (r': Req)
    ensures |r'.ram| == |r.ram| && |r'.disk| == |r.disk|
  {
    if d.len >= 16 && InRam(r.ram, d.addr, 16) then
      Pow256Values();
      r.(phase := 1, typ := GuestReadLe(r.ram, d.addr, 4), sector := GuestReadLe(r.ram, d.addr + 8, 8))
    else r.(status := S_IOERR)
  }

  /** A data segment moves bytes and advances the sector; a failure is recorded, not final. */
  function OnData(r: Req, d: Desc): (r': Req)
    ensures |r'.ram| == |r.ram| && |r'.disk| == |r.disk|
  {
    var off := DiskOffset(r.sector);
    if r.typ == T_IN then
      var s := if Transfers(r, d)
               then r.(ram := GuestWrite(r.ram, d.addr, r.disk[off..off + d.len]), total := (r.total + d.len) % TWO_32)
               else r.(status := S_IOERR);
      s.(sector := NextSector(r.sector, d.len))
    else if r.typ == T_OUT then
      var s := if Transfers(r, d)
               then r.(disk := Splice(r.disk, off, r.ram[d.addr - RAM_BASE..d.addr - RAM_BASE + d.len]),
                       written := r.written + [Range(off, d.len)], total := (r.total + d.len) % TWO_32)
               else r.(status := S_IOERR);
      s.(sector := NextSector(r.sector, d.len))
    else r.(status := if r.typ == T_FLUSH then S_OK else S_UNSUPP)
  }

  function OnDesc(r: Req, d: Desc): (r': Req)
    ensures |r'.ram| == |r.ram| && |r'.disk| == |r.disk|
  {
    if r.phase == 0 then OnHeader(r, d)
    else if IsStatus(d) then r.(phase := 2)
    else OnData(r, d)
  }

  /** The descriptor loop: it stops after a bad header, an unreadable or last descriptor, or `fuel` descriptors. */
  function Chain(r: Req, q: Queue, idx: nat, fuel: nat): (r': Req)
    ensures |r'.ram| == |r.ram| && |r'.disk| == |r.disk|
    decreases fuel
  {
    if fuel == 0 then r
    else match ReadDesc(r.ram, q, idx)
      case None => r.(status := S_IOERR)
      case Some(d) =>
        var r' := OnDesc(r, d);
        if r'.phase == 0 || !HasNext(d) then r' else Chain(r', q, d.next, fuel - 1)
  }

  /** The second walk, which looks for the status descriptor. Unreadable descriptors are skipped over:
      the previous one is used again. */
  function LastDesc(ram: Bytes, q: Queue, idx: nat, prev: Desc, fuel: nat): Desc
    decreases fuel
  {
    if fuel == 0 then prev
    else
      var d := match ReadDesc(ram, q, idx) case None => prev case Some(d) => d;
      if !HasNext(d) then d else LastDesc(ram, q, d.next, d, fuel - 1)
  }

  const NO_DESC := Desc(0, 0, 0, 0)

  /** The status byte, once there was a header. */
  function PutStatus(r: Req, q: Queue, head: nat): (ram: Bytes)
    ensures |ram| == |r.ram|
  {
    if r.phase == 0 then r.ram
    else GuestWriteLe(r.ram, LastDesc(r.ram, q, head, NO_DESC, q.num).addr, 1, r.status)
  }

  // The used ring

  function UsedIdx(ram: Bytes, q: Queue): (u: nat)
    ensures u < TWO_16
  {
    Pow256Values();
    if InRam(ram, q.used + 2, 2) then GuestReadLe(ram, q.used + 2, 2) else 0
  }

  function PutUsed(ram: Bytes, q: Queue, head: nat, total: nat): (r: Bytes)
    requires q.num > 0
    ensures |r| == |ram|
  {
    var u := UsedIdx(ram, q);
    var at := q.used + 4 + u % q.num * 8;
    var ram1 := if InRam(ram, at, 8) then GuestWriteLe(GuestWriteLe(ram, at, 4, head), at + 4, 4, total) else ram;
    GuestWriteLe(ram1, q.used + 2, 2, (u + 1) % TWO_16)
  }

  // The queue

  datatype State = State(ram: Bytes, disk: Bytes, written: seq<Range>, lastAvail: nat, intStatus: nat)

  function HeadAddr(q: Queue, at: nat): nat
    requires q.num > 0
  {
    q.avail + 4 + at % q.num * 2
  }

  function StartReq(s: State): Req {
    Req(s.ram, s.disk, s.written, 0, 0, S_OK, 0, 0)
  }

  /** The descriptor loop of the chain that starts at `head`. */
  function Served(s: State, q: Queue, head: nat): (r: Req)
    ensures |r.ram| == |s.ram| && |r.disk| == |s.disk|
  {
    Chain(StartReq(s), q, head, q.num)
  }

  /** One iteration of the queue loop. */
  function HandleOne(s: State, q: Queue, head: nat): (s': State)
    requires q.num > 0
    ensures |s'.ram| == |s.ram| && |s'.disk| == |s.disk|
    ensures s'.lastAvail == (s.lastAvail + 1) % TWO_16 && s'.intStatus == s.intStatus
  {
    var r := Served(s, q, head);
    State(PutUsed(PutStatus(r, q, head), q, head, r.total), r.disk, r.written, (s.lastAvail + 1) % TWO_16, s.intStatus)
  }

  /** Entries still to be consumed. */
  function Pending(lastAvail: nat, availIdx: nat): (n: nat)
    ensures n < TWO_16
  {
    (availIdx - lastAvail) % TWO_16
  }

  lemma PendingDrops(lastAvail: nat, availIdx: nat)
    requires lastAvail < TWO_16 && availIdx < TWO_16 && lastAvail != availIdx
    ensures Pending((lastAvail + 1) % TWO_16, availIdx) == Pending(lastAvail, availIdx) - 1
  {
  }

  function Consume(s: State, q: Queue, availIdx: nat): (s': State)
    requires q.num > 0 && s.lastAvail < TWO_16 && availIdx < TWO_16
    ensures |s'.ram| == |s.ram| && |s'.disk| == |s.disk| && s'.lastAvail < TWO_16 && s'.intStatus == s.intStatus
    decreases Pending(s.lastAvail, availIdx)
  {
    if s.lastAvail == availIdx || !InRam(s.ram, HeadAddr(q, s.lastAvail), 2) then s
    else
      PendingDrops(s.lastAvail, availIdx);
      Consume(HandleOne(s, q, GuestReadLe(s.ram, HeadAddr(q, s.lastAvail), 2)), q, availIdx)
  }

  /** `virtio_blk_process_queue`. */
  function Notify(s: State, q: Queue): (s': State)
    requires q.num > 0 && s.lastAvail < TWO_16
    ensures |s'.ram| == |s.ram| && |s'.disk| == |s.disk| && s'.lastAvail < TWO_16
    ensures s.intStatus < TWO_32 ==> s'.intStatus < TWO_32
  {
    if !q.ready || q.desc == 0 || !InRam(s.ram, q.avail + 2, 2) then s
    else
      Pow256Values();
      var t := Consume(s, q, GuestReadLe(s.ram, q.avail + 2, 2));
      FlagFits(t.intStatus);
      if t.lastAvail != s.lastAvail then t.(intStatus := BitWords.SetBit(t.intStatus, 0)) else t
  }

  lemma FlagFits(w: nat)
    ensures w < TWO_32 ==> BitWords.SetBit(w, 0) < TWO_32
  {
    assert w == 2 * (w / 2) + w % 2;
    assert TWO_32 == 2 * 0x8000_0000;
  }

  // The device

  class Device {
    const ram: array<Byte>
    const disk: array<Byte>
    var written: seq<Range>
    var queue: Queue
    var lastAvail: nat
    var intStatus: nat

    constructor (ram: array<Byte>, disk: array<Byte>, queue: Queue)
      ensures this.ram == ram && this.disk == disk && this.queue == queue
      ensures written == [] && lastAvail == 0 && intStatus == 0
    {
      this.ram, this.disk, this.queue := ram, disk, queue;
      written, lastAvail, intStatus := [], 0, 0;
    }

    ghost function Now(): State
      reads this, ram, disk
    {
      State(ram[..], disk[..], written, lastAvail, intStatus)
    }

    method IsInRam(addr: nat, len: nat) returns (b: bool)
      ensures b == InRam(ram[..], addr, len)
    {
      b := addr >= RAM_BASE && addr + len <= RAM_BASE + ram.Length;
    }

    /** A little-endian field of guest RAM. */
    method Field(addr: nat, n: nat) returns (v: nat)
      requires InRam(ram[..], addr, n)
      ensures v == GuestReadLe(ram[..], addr, n)
    {
      v := ReadLe(ram[..], addr - RAM_BASE, n);
    }

    method GuestStore(addr: nat, n: nat, v: nat)
      modifies ram
      ensures ram[..] == GuestWriteLe(old(ram[..]), addr, n, v)
    {
      var ok := IsInRam(addr, n);
      if !ok { return; }
      var off, u := addr - RAM_BASE, v;
      for i := 0 to n
        invariant WriteLe(ram[..], off + i, n - i, u) == WriteLe(old(ram[..]), off, n, v)
      {
        ghost var before := ram[..];
        ram[off + i] := u % 0x100;
        assert ram[..] == before[off + i := u % 0x100];
        u := u / 0x100;
      }
    }

    method LoadDesc(idx: nat) returns (d: Option<Desc>)
      ensures d == ReadDesc(ram[..], queue, idx)
    {
      hide ReadLe;
      var at := queue.desc + idx * 16;
      var ok := IsInRam(at, 16);
      if !ok { return None; }
      var addr, len := ReadLe(ram[..], at - RAM_BASE, 8), ReadLe(ram[..], at - RAM_BASE + 8, 4);
      var flags, next := ReadLe(ram[..], at - RAM_BASE + 12, 2), ReadLe(ram[..], at - RAM_BASE + 14, 2);
      Pow256Values();
      d := Some(Desc(addr, len, flags, next));
    }

    /** `memcpy` from disk to RAM. */
    method DiskToRam(off: nat, addr: nat, len: nat)
      requires ram != disk && off + len <= disk.Length && InRam(ram[..], addr, len)
      modifies ram
      ensures ram[..] == Splice(old(ram[..]), addr - RAM_BASE, disk[off..off + len])
    {
      var at := addr - RAM_BASE;
      forall i | 0 <= i < len {
        ram[at + i] := disk[off + i];
      }
    }

    method RamToDisk(addr: nat, off: nat, len: nat)
      requires ram != disk && off + len <= disk.Length && InRam(ram[..], addr, len)
      modifies disk
      ensures disk[..] == Splice(old(disk[..]), off, ram[addr - RAM_BASE..addr - RAM_BASE + len])
    {
      var at := addr - RAM_BASE;
      forall i | 0 <= i < len {
        disk[off + i] := ram[at + i];
      }
    }

    /** One data segment. */
    method Transfer(d: Desc, typ: nat, sector: Word, status0: nat, total0: nat, ghost phase: nat)
      returns (sector': Word, status: nat, total: nat)
      requires ram != disk
      modifies this`written, ram, disk
      ensures Req(ram[..], disk[..], written, typ, sector', status, phase, total)
           == OnData(old(Req(ram[..], disk[..], written, typ, sector, status0, phase, total0)), d)
    {
      hide GuestReadLe, Splice, NextSector, DiskOffset;
      var off := DiskOffset(sector);
      sector', status, total := sector, status0, total0;
      var inRam := IsInRam(d.addr, d.len);
      if typ == T_IN {
        if off + d.len > disk.Length || !inRam {
          status := S_IOERR;
        } else {
          DiskToRam(off, d.addr, d.len);
          total := (total + d.len) % TWO_32;
        }
        sector' := NextSector(sector, d.len);
      } else if typ == T_OUT {
        if off + d.len > disk.Length || !inRam {
          status := S_IOERR;
        } else {
          RamToDisk(d.addr, off, d.len);
          total := (total + d.len) % TWO_32;
          written := written + [Range(off, d.len)];
        }
        sector' := NextSector(sector, d.len);
      } else if typ == T_FLUSH {
        status := S_OK;
      } else {
        status := S_UNSUPP;
      }
    }

    /** The descriptor loop. */
    method WalkChain(head: nat) returns (status: nat, phase: nat, total: nat, ghost end: Req)
      requires ram != disk
      modifies this`written, ram, disk
      ensures end == Chain(old(StartReq(Now())), queue, head, queue.num)
      ensures end.ram == ram[..] && end.disk == disk[..] && end.written == written
      ensures end.status == status && end.phase == phase && end.total == total
    {
      hide OnData, OnHeader, ReadDesc;
      var typ, sector: Word, idx := 0, 0, head;
      status, phase, total := S_OK, 0, 0;
      ghost var start := StartReq(Now());
      var i := 0;
      while i < queue.num
        invariant 0 <= i <= queue.num && queue == old(queue)
        invariant Chain(Req(ram[..], disk[..], written, typ, sector, status, phase, total), queue, idx, queue.num - i)
               == Chain(start, queue, head, queue.num)
      {
        var found := LoadDesc(idx);
        if found.None? {
          status := S_IOERR;
          break;
        }
        var d := found.value;
        if phase == 0 {
          status, phase, typ, sector := Header(d, status, typ, sector, total);
          if phase == 0 { break; }
        } else if IsStatus(d) {
          phase := 2;
        } else {
          sector, status, total := Transfer(d, typ, sector, status, total, phase);
        }
        if !HasNext(d) { break; }
        idx, i := d.next, i + 1;
      }
      end := Req(ram[..], disk[..], written, typ, sector, status, phase, total);
    }

    method Header(d: Desc, status0: nat, typ0: nat, sector0: Word, ghost total: nat)
      returns (status: nat, phase: nat, typ: nat, sector: Word)
      ensures Req(ram[..], disk[..], written, typ, sector, status, phase, total)
           == OnHeader(Req(ram[..], disk[..], written, typ0, sector0, status0, 0, total), d)
    {
      status, phase, typ, sector := status0, 0, typ0, sector0;
      var inRam := IsInRam(d.addr, 16);
      if d.len < 16 || !inRam {
        status := S_IOERR;
        return;
      }
      Pow256Values();
      typ := Field(d.addr, 4);
      sector := Field(d.addr + 8, 8);
      phase := 1;
    }

    method FindLast(head: nat) returns (d: Desc)
      ensures d == LastDesc(ram[..], queue, head, NO_DESC, queue.num)
    {
      hide ReadDesc;
      var idx, i := head, 0;
      d := NO_DESC;
      while i < queue.num
        invariant 0 <= i <= queue.num
        invariant LastDesc(ram[..], queue, idx, d, queue.num - i) == LastDesc(ram[..], queue, head, NO_DESC, queue.num)
      {
        var found := LoadDesc(idx);
        if found.Some? { d := found.value; }
        if !HasNext(d) { break; }
        idx, i := d.next, i + 1;
      }
    }

    method AddUsed(head: nat, total: nat)
      requires queue.num > 0
      modifies ram
      ensures ram[..] == PutUsed(old(ram[..]), queue, head, total)
    {
      hide WriteLe, ReadLe;
      var u := 0;
      var readable := IsInRam(queue.used + 2, 2);
      if readable { u := Field(queue.used + 2, 2); }
      var at := queue.used + 4 + u % queue.num * 8;
      var writable := IsInRam(at, 8);
      if writable {
        GuestStore(at, 4, head);
        GuestStore(at + 4, 4, total);
      }
      GuestStore(queue.used + 2, 2, (u + 1) % TWO_16);
    }

    method HandleRequest(head: nat)
      requires queue.num > 0 && ram != disk
      modifies this, ram, disk
      ensures queue == old(queue) && Now() == HandleOne(old(Now()), queue, head)
    {
      hide Chain, LastDesc, PutUsed;
      var status, phase, total, end := WalkChain(head);
      if phase >= 1 {
        var last := FindLast(head);
        GuestStore(last.addr, 1, status);
      }
      AddUsed(head, total);
      lastAvail := (lastAvail + 1) % TWO_16;
    }

    /** `virtio_blk_process_queue`. */
    method ProcessQueue()
      requires queue.num > 0 && lastAvail < TWO_16 && ram != disk
      modifies this, ram, disk
      ensures queue == old(queue) && Now() == Notify(old(Now()), queue)
    {
      hide HandleOne, GuestReadLe;
      if !queue.ready || queue.desc == 0 { return; }
      var readable := IsInRam(queue.avail + 2, 2);
      if !readable { return; }
      var availIdx := Field(queue.avail + 2, 2);
      Pow256Values();
      HeadFits(ram[..], queue.avail + 2);
      var start := lastAvail;
      while lastAvail != availIdx
        invariant lastAvail < TWO_16 && queue == old(queue) && availIdx < TWO_16
        invariant Consume(Now(), queue, availIdx) == Consume(old(Now()), queue, availIdx)
        decreases Pending(lastAvail, availIdx)
      {
        readable := IsInRam(HeadAddr(queue, lastAvail), 2);
        if !readable { break; }
        var head := Field(HeadAddr(queue, lastAvail), 2);
        PendingDrops(lastAvail, availIdx);
        HandleRequest(head);
      }
      if lastAvail != start {
        intStatus := BitWords.SetBit(intStatus, 0);
      }
    }
  }

  lemma HeadFits(ram: Bytes, addr: nat)
    requires InRam(ram, addr, 2)
    ensures GuestReadLe(ram, addr, 2) < TWO_16
  {
    Pow256Values();
  }
}
