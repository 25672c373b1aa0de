/**
 The block device and the dirty bitmap together: every disk byte that a queue notification changes
 lies in a range it passed to the dirty callback, so notifications keep the bitmap's invariant.
 */
module DiskReports {
  import opened Words
  import opened Memory
  import opened Virtio
  import opened Persist
  import Bus

  /** The ranges reported between two states of the record cover the changes between two disks. */
  ghost predicate Reports(disk: Bytes, written: seq<Range>, disk': Bytes, written': seq<Range>) {
    written <= written' && Covers(disk, disk', written'[|written|..])
  }

  lemma ReportsNothing(disk: Bytes, written: seq<Range>)
    ensures Reports(disk, written, disk, written)
  {
  }

  lemma ReportedIn(a: seq<Range>, b: seq<Range>, i: nat)
    ensures Reported(a + b, i) <==> Reported(a, i) || Reported(b, i)
  {
    hide InRange;
    if Reported(a, i) {
      var k :| 0 <= k < |a| && InRange(a[k], i);
      assert InRange((a + b)[k], i);
    }
    if Reported(b, i) {
      var k :| 0 <= k < |b| && InRange(b[k], i);
      assert InRange((a + b)[|a| + k], i);
    }
  }

  lemma CoversBoth(d0: Bytes, d1: Bytes, d2: Bytes, a: seq<Range>, b: seq<Range>)
    requires Covers(d0, d1, a) && Covers(d1, d2, b)
    ensures Covers(d0, d2, a + b)
  {
    hide Reported;
    forall i | 0 <= i < |d0| && d2[i] != d0[i]
      ensures Reported(a + b, i)
    {
      ReportedIn(a, b, i);
    }
  }

  lemma ReportsBoth(d0: Bytes, w0: seq<Range>, d1: Bytes, w1: seq<Range>, d2: Bytes, w2: seq<Range>)
    requires Reports(d0, w0, d1, w1) && Reports(d1, w1, d2, w2)
    ensures Reports(d0, w0, d2, w2)
  {
    hide Covers;
    CoversBoth(d0, d1, d2, w1[|w0|..], w2[|w1|..]);
    assert w2[|w0|..] == w1[|w0|..] + w2[|w1|..];
  }

  lemma SpliceReports(disk: Bytes, off: nat, data: Bytes)
    requires off + |data| <= |disk|
    ensures Covers(disk, Splice(disk, off, data), [Range(off, |data|)])
  {
    var ranges := [Range(off, |data|)];
    forall i: nat | i < |disk| && Splice(disk, off, data)[i] != disk[i]
      ensures Reported(ranges, i)
    {
      InsideSplice(disk, off, data, i);
      assert InRange(ranges[0], i);
    }
  }

  lemma InsideSplice(disk: Bytes, off: nat, data: Bytes, i: nat)
    requires off + |data| <= |disk| && i < |disk| && Splice(disk, off, data)[i] != disk[i]
    ensures off <= i < off + |data|
  {
  }

  lemma DescReports(r: Req, d: Desc)
    ensures var r' := OnDesc(r, d); Reports(r.disk, r.written, r'.disk, r'.written)
  {
    hide Covers, Splice;
    var r' := OnDesc(r, d);
    if r'.written == r.written {
      assert r'.disk == r.disk;
      CoversNothing(r.disk);
      assert r'.written[|r.written|..] == [];
    } else {
      var off := DiskOffset(r.sector);
      var data := r.ram[d.addr - RAM_BASE..d.addr - RAM_BASE + d.len];
      SpliceReports(r.disk, off, data);
      assert r'.written[|r.written|..] == [Range(off, d.len)];
    }
  }

  lemma CoversNothing(disk: Bytes)
    ensures Covers(disk, disk, [])
  {
  }

  lemma {:induction false} ChainReports(r: Req, q: Queue, idx: nat, fuel: nat)
    ensures var r' := Chain(r, q, idx, fuel); Reports(r.disk, r.written, r'.disk, r'.written)
    decreases fuel
  {
    hide Reports, OnDesc, ReadDesc;
    ReportsNothing(r.disk, r.written);
    if fuel > 0 && ReadDesc(r.ram, q, idx).Some? {
      var d := ReadDesc(r.ram, q, idx).value;
      DescReports(r, d);
      var r1 := OnDesc(r, d);
      if r1.phase != 0 && HasNext(d) {
        ChainReports(r1, q, d.next, fuel - 1);
        var r2 := Chain(r1, q, d.next, fuel - 1);
        ReportsBoth(r.disk, r.written, r1.disk, r1.written, r2.disk, r2.written);
      }
    }
  }

  lemma {:induction false} ConsumeReports(s: State, q: Queue, availIdx: nat)
    requires q.num > 0 && s.lastAvail < TWO_16 && availIdx < TWO_16
    ensures var t := Consume(s, q, availIdx); Reports(s.disk, s.written, t.disk, t.written)
    decreases Pending(s.lastAvail, availIdx)
  {
    hide Reports, Chain, InRam, HeadAddr, PutUsed, PutStatus, GuestReadLe;
    ReportsNothing(s.disk, s.written);
    if s.lastAvail != availIdx && InRam(s.ram, HeadAddr(q, s.lastAvail), 2) {
      PendingDrops(s.lastAvail, availIdx);
      var head := GuestReadLe(s.ram, HeadAddr(q, s.lastAvail), 2);
      ChainReports(StartReq(s), q, head, q.num);
      var s1 := HandleOne(s, q, head);
      ConsumeReports(s1, q, availIdx);
      var t := Consume(s1, q, availIdx);
      ReportsBoth(s.disk, s.written, s1.disk, s1.written, t.disk, t.written);
    }
  }

  /** No disk byte changes unreported, whatever the driver put in the rings. */
  lemma NotifyReports(s: State, q: Queue)
    requires q.num > 0 && s.lastAvail < TWO_16
    ensures var t := Notify(s, q); Reports(s.disk, s.written, t.disk, t.written)
  {
    hide Reports, Consume, GuestReadLe, InRam;
    ReportsNothing(s.disk, s.written);
    if InRam(s.ram, q.avail + 2, 2) {
      assert GuestReadLe(s.ram, q.avail + 2, 2) < TWO_16 by { HeadFits(s.ram, q.avail + 2); }
      ConsumeReports(s, q, GuestReadLe(s.ram, q.avail + 2, 2));
    }
  }

  /** A notification followed through the callback keeps every clean block equal to its stored copy. */
  lemma NotifyKeepsBitmap(image: Bytes, store: Store, s: State, q: Queue)
    requires q.num > 0 && s.lastAvail < TWO_16 && Coherent(image, store) && store.disk == s.disk
    ensures var t := Notify(s, q);
            && s.written <= t.written && Covers(s.disk, t.disk, t.written[|s.written|..])
            && Coherent(image, Write(store, t.disk, t.written[|s.written|..]))
  {
    hide Coherent, Notify;
    CoherentSized(image, store);
    NotifyReports(s, q);
    var t := Notify(s, q);
    WriteKeeps(image, store, t.disk, t.written[|s.written|..]);
  }

  // The registers of the block device, over any run of stores

  datatype RegisterStore = RegisterStore(off: nat, val: Word)

  function StoreAll(net: Bus.NetQueue, d: Bus.Card, ram: Bytes, ops: seq<RegisterStore>): (Bus.Card, Bytes)
    decreases |ops|
  {
    if ops == [] then (d, ram) else
    var (d', ram') := Bus.VirtioStore(net, d, ram, ops[0].off, ops[0].val);
    StoreAll(net, d', ram', ops[1..])
  }

  predicate Resets(op: RegisterStore) { op.off == Bus.STATUS && op.val == 0 }

  lemma OneStore(net: Bus.NetQueue, d: Bus.Card, ram: Bytes, op: RegisterStore)
    requires d.deviceId == Bus.BLK
    ensures var d' := Bus.VirtioStore(net, d, ram, op.off, op.val).0;
            && d'.deviceId == Bus.BLK && |d'.disk| == |d.disk| && d'.tracked == (d.tracked && !Resets(op))
            && (d.tracked ==> Reports(d.disk, d.reported, d'.disk, d'.reported))
            && (!d.tracked ==> d'.reported == d.reported)
  {
    hide Reports, Notify;
    ReportsNothing(d.disk, d.reported);
    if op.off == Bus.QUEUE_NOTIFY && op.val < 4 && d.queues[op.val].ready != 0 && d.queues[op.val].num != 0 {
      var q := d.queues[op.val];
      var s := State(ram, d.disk, [], q.lastAvail, d.intStatus);
      NotifyReports(s, Bus.QueueOf(q));
      ReportsAppended(d.disk, d.reported, Notify(s, Bus.QueueOf(q)).disk, Notify(s, Bus.QueueOf(q)).written);
    }
  }

  lemma ReportsAppended(disk: Bytes, reported: seq<Range>, disk': Bytes, more: seq<Range>)
    requires Reports(disk, [], disk', more)
    ensures Reports(disk, reported, disk', reported + more)
  {
    hide Covers;
    assert more[0..] == more;
    assert (reported + more)[|reported|..] == more;
  }

  /** The dirty callback is set as long as no store has reset the device, and no longer. */
  lemma {:induction false} TrackedUnlessReset(net: Bus.NetQueue, d: Bus.Card, ram: Bytes, ops: seq<RegisterStore>)
    requires d.deviceId == Bus.BLK
    ensures StoreAll(net, d, ram, ops).0.tracked <==> d.tracked && forall i :: 0 <= i < |ops| ==> !Resets(ops[i])
    decreases |ops|
  {
    hide Bus.VirtioStore, Reports;
    if ops != [] {
      OneStore(net, d, ram, ops[0]);
      var (d', ram') := Bus.VirtioStore(net, d, ram, ops[0].off, ops[0].val);
      TrackedUnlessReset(net, d', ram', ops[1..]);
      assert forall i :: 0 < i < |ops| ==> ops[i] == ops[1..][i - 1];
    }
  }

  /** Until then every disk byte that a run of stores changes has been reported. */
  lemma {:induction false} RunReports(net: Bus.NetQueue, d: Bus.Card, ram: Bytes, ops: seq<RegisterStore>)
    requires d.deviceId == Bus.BLK && StoreAll(net, d, ram, ops).0.tracked
    ensures var d' := StoreAll(net, d, ram, ops).0;
            |d'.disk| == |d.disk| && Reports(d.disk, d.reported, d'.disk, d'.reported)
    decreases |ops|
  {
    hide Bus.VirtioStore, Reports;
    TrackedUnlessReset(net, d, ram, ops);
    ReportsNothing(d.disk, d.reported);
    if ops != [] {
      OneStore(net, d, ram, ops[0]);
      var (d1, ram1) := Bus.VirtioStore(net, d, ram, ops[0].off, ops[0].val);
      RunReports(net, d1, ram1, ops[1..]);
      var d2 := StoreAll(net, d1, ram1, ops[1..]).0;
      ReportsBoth(d.disk, d.reported, d1.disk, d1.reported, d2.disk, d2.reported);
    }
  }

  /** So, followed through the callback, such a run keeps every clean block equal to its stored copy. */
  lemma RunKeepsBitmap(image: Bytes, store: Store, net: Bus.NetQueue, d: Bus.Card, ram: Bytes, ops: seq<RegisterStore>)
    requires d.deviceId == Bus.BLK && StoreAll(net, d, ram, ops).0.tracked
    requires Coherent(image, store) && store.disk == d.disk
    ensures var d' := StoreAll(net, d, ram, ops).0;
            && d.reported <= d'.reported && Covers(d.disk, d'.disk, d'.reported[|d.reported|..])
            && Coherent(image, Write(store, d'.disk, d'.reported[|d.reported|..]))
  {
    hide Coherent, StoreAll;
    CoherentSized(image, store);
    RunReports(net, d, ram, ops);
    var d' := StoreAll(net, d, ram, ops).0;
    WriteKeeps(image, store, d'.disk, d'.reported[|d.reported|..]);
  }

  /** After a reset nothing is reported any more, while a notification changes disk and RAM as before. */
  lemma {:induction false} ResetSilences(net: Bus.NetQueue, d: Bus.Card, ram: Bytes, ops: seq<RegisterStore>)
    requires d.deviceId == Bus.BLK && !d.tracked
    ensures StoreAll(net, d, ram, ops).0.reported == d.reported
    decreases |ops|
  {
    hide Bus.VirtioStore, Reports;
    if ops != [] {
      OneStore(net, d, ram, ops[0]);
      var (d', ram') := Bus.VirtioStore(net, d, ram, ops[0].off, ops[0].val);
      ResetSilences(net, d', ram', ops[1..]);
    }
  }

  lemma SameWithoutReport(d: Bus.Card, i: nat, ram: Bytes)
    requires i < 4 && !d.tracked
    ensures var (silent, ram') := Bus.NotifyBlk(d, i, ram);
            var (loud, ram'') := Bus.NotifyBlk(d.(tracked := true), i, ram);
            ram' == ram'' && silent == loud.(tracked := false, reported := d.reported)
  {
    hide Notify;
  }

  // A case for every device: a driver that resets it before setting up its queue

  const QUEUE_REGISTERS: set<nat> := {0x038, 0x044, 0x080, 0x084, 0x090, 0x094, 0x0A0, 0x0A4}

  /** The stores that set up queue 0. */
  function SetUp(q: Bus.QueueRegs): seq<RegisterStore> {
    [RegisterStore(0x038, q.num)]
    + ([RegisterStore(0x080, Bus.Low32(q.desc))] + ([RegisterStore(0x084, Bus.High32(q.desc))]
    + ([RegisterStore(0x090, Bus.Low32(q.avail))] + ([RegisterStore(0x094, Bus.High32(q.avail))]
    + ([RegisterStore(0x0A0, Bus.Low32(q.used))] + ([RegisterStore(0x0A4, Bus.High32(q.used))]
    + [RegisterStore(0x044, q.ready)]))))))
  }

  function Registers(q: Bus.QueueRegs, ops: seq<RegisterStore>): Bus.QueueRegs
    decreases |ops|
  {
    if ops == [] then q else Registers(Bus.WithRegister(q, ops[0].off, ops[0].val), ops[1..])
  }

  lemma RegistersFrom(q: Bus.QueueRegs, op: RegisterStore, rest: seq<RegisterStore>)
    ensures Registers(q, [op] + rest) == Registers(Bus.WithRegister(q, op.off, op.val), rest)
    ensures Registers(q, [op]) == Bus.WithRegister(q, op.off, op.val)
  {
    assert ([op] + rest)[1..] == rest;
    assert [op][1..] == [];
  }

  lemma SetUpIs(q: Bus.QueueRegs)
    requires q.lastAvail == 0
    ensures Registers(Bus.NO_QUEUE, SetUp(q)) == q
  {
    hide Registers, Bus.Join, Bus.Low32, Bus.High32, Bus.WithRegister;
    var ops7 := [RegisterStore(0x044, q.ready)];
    var ops6 := [RegisterStore(0x0A4, Bus.High32(q.used))] + ops7;
    var ops5 := [RegisterStore(0x0A0, Bus.Low32(q.used))] + ops6;
    var ops4 := [RegisterStore(0x094, Bus.High32(q.avail))] + ops5;
    var ops3 := [RegisterStore(0x090, Bus.Low32(q.avail))] + ops4;
    var ops2 := [RegisterStore(0x084, Bus.High32(q.desc))] + ops3;
    var ops1 := [RegisterStore(0x080, Bus.Low32(q.desc))] + ops2;
    var q1 := Bus.WithRegister(Bus.NO_QUEUE, 0x038, q.num);
    RegistersFrom(Bus.NO_QUEUE, RegisterStore(0x038, q.num), ops1);
    var q3 := PairIs(q1, 0x080, q.desc, ops3);
    var q5 := PairIs(q3, 0x090, q.avail, ops5);
    var q7 := PairIs(q5, 0x0A0, q.used, ops7);
    RegistersFrom(q7, ops7[0], []);
    LastRegisters(q, q1, q3, q5, q7);
  }

  function WithAddress(q: Bus.QueueRegs, off: nat, x: Word): Bus.QueueRegs {
    if off == 0x080 then q.(desc := x) else if off == 0x090 then q.(avail := x) else q.(used := x)
  }

  /** The two halves of an address. */
  lemma PairIs(q: Bus.QueueRegs, off: nat, x: Word, rest: seq<RegisterStore>) returns (q': Bus.QueueRegs)
    requires off in {0x080, 0x090, 0x0A0}
    ensures q' == WithAddress(q, off, x)
    ensures Registers(q, [RegisterStore(off, Bus.Low32(x))] + ([RegisterStore(off + 4, Bus.High32(x))] + rest))
         == Registers(q', rest)
  {
    hide Registers, Bus.Join;
    var low, high := RegisterStore(off, Bus.Low32(x)), RegisterStore(off + 4, Bus.High32(x));
    RegistersFrom(q, low, [high] + rest);
    var q1 := Bus.WithRegister(q, off, low.val);
    RegistersFrom(q1, high, rest);
    q' := Bus.WithRegister(q1, off + 4, high.val);
    Bus.HalvesJoin(x, Bus.Low32(x),
                   Bus.High32(if off == 0x080 then q.desc else if off == 0x090 then q.avail else q.used));
  }

  lemma LastRegisters(q: Bus.QueueRegs, q1: Bus.QueueRegs, q3: Bus.QueueRegs, q5: Bus.QueueRegs, q7: Bus.QueueRegs)
    requires q.lastAvail == 0 && q1 == Bus.WithRegister(Bus.NO_QUEUE, 0x038, q.num)
    requires q3 == WithAddress(q1, 0x080, q.desc) && q5 == WithAddress(q3, 0x090, q.avail)
    requires q7 == WithAddress(q5, 0x0A0, q.used)
    ensures Bus.WithRegister(q7, 0x044, q.ready) == q
  {
  }

  lemma {:induction false} QueueStores(net: Bus.NetQueue, d: Bus.Card, ram: Bytes, ops: seq<RegisterStore>)
    requires d.queueSel == 0 && forall i :: 0 <= i < |ops| ==> ops[i].off in QUEUE_REGISTERS
    ensures StoreAll(net, d, ram, ops) == (d.(queues := d.queues[0 := Registers(d.queues[0], ops)]), ram)
    decreases |ops|
  {
    if ops == [] {
      assert d.queues[0 := d.queues[0]] == d.queues;
    } else {
      var q := Bus.WithRegister(d.queues[0], ops[0].off, ops[0].val);
      var d' := d.(queues := d.queues[0 := q]);
      assert Bus.VirtioStore(net, d, ram, ops[0].off, ops[0].val) == (d', ram);
      QueueStores(net, d', ram, ops[1..]);
      assert d'.queues[0 := Registers(q, ops[1..])] == d.queues[0 := Registers(q, ops[1..])];
    }
  }

  lemma {:induction false} StoreAllThen(net: Bus.NetQueue, d: Bus.Card, ram: Bytes, a: seq<RegisterStore>,
                                        b: seq<RegisterStore>)
    ensures var (d', ram') := StoreAll(net, d, ram, a); StoreAll(net, d, ram, a + b) == StoreAll(net, d', ram', b)
    decreases |a|
  {
    hide Bus.VirtioStore;
    if a == [] {
      assert a + b == b;
    } else {
      var (d1, ram1) := Bus.VirtioStore(net, d, ram, a[0].off, a[0].val);
      assert (a + b)[1..] == a[1..] + b;
      StoreAllThen(net, d1, ram1, a[1..], b);
    }
  }

  /** Whatever a notification would do, a driver that resets the device, sets up the same queue again and then
      notifies gets the same disk and RAM, and nothing is reported: its writes are not persisted. */
  lemma ResetLosesWrites(net: Bus.NetQueue, d: Bus.Card, ram: Bytes)
    requires d.deviceId == Bus.BLK && d.intStatus == 0 && d.queues[0].lastAvail == 0
    ensures var ops := [RegisterStore(Bus.STATUS, 0)] + (SetUp(d.queues[0]) + [RegisterStore(Bus.QUEUE_NOTIFY, 0)]);
            var (d', ram') := StoreAll(net, d, ram, ops);
            var (loud, ram'') := Bus.NotifyBlk(d, 0, ram);
            d'.disk == loud.disk && ram' == ram'' && d'.reported == d.reported && !d'.tracked
  {
    hide Notify, StoreAll, SetUp, Registers;
    var q, r := d.queues[0], Bus.Reset(d);
    var reset, notify := [RegisterStore(Bus.STATUS, 0)], [RegisterStore(Bus.QUEUE_NOTIFY, 0)];
    StoreAllThen(net, d, ram, reset, SetUp(q) + notify);
    StoreAllThen(net, r, ram, SetUp(q), notify);
    OnlyStore(net, d, ram, reset[0]);
    SetUpOffsets(q);
    QueueStores(net, r, ram, SetUp(q));
    SetUpIs(q);
    var r' := r.(queues := r.queues[0 := q]);
    OnlyStore(net, r', ram, notify[0]);
  }

  lemma SetUpOffsets(q: Bus.QueueRegs)
    ensures forall i :: 0 <= i < |SetUp(q)| ==> SetUp(q)[i].off in QUEUE_REGISTERS
  {
  }

  lemma OnlyStore(net: Bus.NetQueue, d: Bus.Card, ram: Bytes, op: RegisterStore)
    ensures StoreAll(net, d, ram, [op]) == Bus.VirtioStore(net, d, ram, op.off, op.val)
  {
    hide Bus.VirtioStore;
    assert [op][1..] == [];
  }
}
