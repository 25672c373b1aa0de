/**
 The rings of a virtqueue across one notification: every available entry is consumed and shows up
 in the used ring, in order, across the 16-bit wrap and whatever the chains look like.
 */
module VirtioRings {
  import opened Wrappers
  import opened Words
  import opened Memory
  import opened Virtio

  predicate Disjoint(a: nat, n: nat, b: nat, m: nat) { a + n <= b || b + m <= a }

  /** Clear of the descriptor table and both rings. */
  predicate Apart(addr: nat, n: nat, q: Queue) {
    && Disjoint(addr, n, q.desc, 16 * q.num)
    && Disjoint(addr, n, q.avail, 4 + 2 * q.num)
    && Disjoint(addr, n, q.used, 4 + 8 * q.num)
  }

  /** A queue in RAM whose three areas do not overlap; its size divides 2^16, as powers of two do. */
  predicate Laid(ram: Bytes, q: Queue) {
    && 0 < q.num <= TWO_16 && TWO_16 % q.num == 0
    && InRam(ram, q.desc, 16 * q.num) && InRam(ram, q.avail, 4 + 2 * q.num) && InRam(ram, q.used, 4 + 8 * q.num)
    && Disjoint(q.desc, 16 * q.num, q.avail, 4 + 2 * q.num)
    && Disjoint(q.desc, 16 * q.num, q.used, 4 + 8 * q.num)
    && Disjoint(q.avail, 4 + 2 * q.num, q.used, 4 + 8 * q.num)
  }

  function EntryDesc(ram: Bytes, q: Queue, i: nat): Desc
    requires Laid(ram, q) && i < q.num
  {
    DescAt(ram, q.desc + i * 16 - RAM_BASE)
  }

  function Head(ram: Bytes, q: Queue, at: nat): nat
    requires Laid(ram, q)
  {
    GuestReadLe(ram, HeadAddr(q, at), 2)
  }

  /** What the driver promises: links and heads stay inside the table, and no buffer (of at least the
      one byte that a status takes) overlaps the table or the rings. Chains may be cyclic. */
  ghost predicate Promised(ram: Bytes, q: Queue) {
    && Laid(ram, q)
    && (forall i {:trigger EntryDesc(ram, q, i)} :: 0 <= i < q.num ==> Sound(EntryDesc(ram, q, i), q))
    && (forall at: nat {:trigger Head(ram, q, at)} :: Head(ram, q, at) < q.num)
  }

  predicate Sound(d: Desc, q: Queue) {
    (HasNext(d) ==> d.next < q.num) && Apart(d.addr, d.len + 1, q)
  }

  predicate SameAt(a: Bytes, b: Bytes, addr: nat, n: nat) {
    |a| == |b| && forall i :: 0 <= i < |a| && addr <= RAM_BASE + i < addr + n ==> a[i] == b[i]
  }

  predicate SameTable(a: Bytes, b: Bytes, q: Queue) {
    SameAt(a, b, q.desc, 16 * q.num) && SameAt(a, b, q.avail, 4 + 2 * q.num)
  }

  predicate SameRings(a: Bytes, b: Bytes, q: Queue) {
    SameTable(a, b, q) && SameAt(a, b, q.used, 4 + 8 * q.num)
  }

  lemma ReadStays(a: Bytes, b: Bytes, addr: nat, n: nat, at: nat, m: nat)
    requires SameAt(a, b, addr, n) && addr <= at && at + m <= addr + n && InRam(a, at, m)
    ensures GuestReadLe(a, at, m) == GuestReadLe(b, at, m)
  {
    ReadSame(a, b, at - RAM_BASE, m);
  }

  lemma WriteStays(ram: Bytes, at: nat, n: nat, v: nat, addr: nat, m: nat)
    requires Disjoint(at, n, addr, m)
    ensures SameAt(ram, GuestWriteLe(ram, at, n, v), addr, m)
  {
  }

  lemma WriteApart(ram: Bytes, at: nat, n: nat, v: nat, q: Queue)
    requires Apart(at, n, q)
    ensures SameRings(ram, GuestWriteLe(ram, at, n, v), q)
  {
    hide GuestWriteLe, SameAt;
    WriteStays(ram, at, n, v, q.desc, 16 * q.num);
    WriteStays(ram, at, n, v, q.avail, 4 + 2 * q.num);
    WriteStays(ram, at, n, v, q.used, 4 + 8 * q.num);
  }

  lemma SpliceStays(ram: Bytes, at: nat, data: Bytes, addr: nat, m: nat)
    requires Disjoint(at, |data|, addr, m)
    ensures SameAt(ram, GuestWrite(ram, at, data), addr, m)
  {
  }

  lemma EntryStays(a: Bytes, b: Bytes, q: Queue, i: nat)
    requires Laid(a, q) && SameTable(a, b, q) && i < q.num
    ensures EntryDesc(b, q, i) == EntryDesc(a, q, i)
  {
    hide ReadLe, SameAt;
    var at := q.desc + i * 16;
    ReadStays(a, b, q.desc, 16 * q.num, at, 8);
    ReadStays(a, b, q.desc, 16 * q.num, at + 8, 4);
    ReadStays(a, b, q.desc, 16 * q.num, at + 12, 2);
    ReadStays(a, b, q.desc, 16 * q.num, at + 14, 2);
  }

  lemma HeadStays(a: Bytes, b: Bytes, q: Queue, at: nat)
    requires Laid(a, q) && SameTable(a, b, q)
    ensures Head(b, q, at) == Head(a, q, at)
  {
    hide GuestReadLe, SameAt;
    ReadStays(a, b, q.avail, 4 + 2 * q.num, HeadAddr(q, at), 2);
  }

  lemma PromiseStays(a: Bytes, b: Bytes, q: Queue)
    requires Promised(a, q) && SameTable(a, b, q)
    ensures Promised(b, q)
  {
    hide EntryDesc, Head, Sound;
    forall i {:trigger EntryDesc(b, q, i)} | 0 <= i < q.num
      ensures Sound(EntryDesc(b, q, i), q)
    {
      EntryStays(a, b, q, i);
    }
    forall at: nat
      ensures Head(b, q, at) < q.num
    {
      HeadStays(a, b, q, at);
    }
  }

  // Serving a request leaves table and rings alone

  lemma DescKeeps(r: Req, d: Desc, q: Queue)
    requires Sound(d, q)
    ensures SameRings(r.ram, OnDesc(r, d).ram, q)
  {
    hide SameAt, GuestWrite;
    SameRingsTrivial(r.ram, q);
    if r.phase != 0 && !IsStatus(d) && r.typ == T_IN && Transfers(r, d) {
      var off := DiskOffset(r.sector);
      var data := r.disk[off..off + d.len];
      SpliceStays(r.ram, d.addr, data, q.desc, 16 * q.num);
      SpliceStays(r.ram, d.addr, data, q.avail, 4 + 2 * q.num);
      SpliceStays(r.ram, d.addr, data, q.used, 4 + 8 * q.num);
    }
  }

  lemma SameRingsTrivial(a: Bytes, q: Queue)
    ensures SameRings(a, a, q)
  {
  }

  lemma SameRingsChain(a: Bytes, b: Bytes, c: Bytes, q: Queue)
    requires SameRings(a, b, q) && SameRings(b, c, q)
    ensures SameRings(a, c, q)
  {
  }

  lemma ReadDescIs(ram: Bytes, q: Queue, i: nat)
    requires Laid(ram, q) && i < q.num
    ensures ReadDesc(ram, q, i) == Some(EntryDesc(ram, q, i))
  {
    hide DescAt;
  }

  /** Chains of any shape, cyclic ones included. */
  lemma {:induction false} ChainKeeps(r: Req, q: Queue, idx: nat, fuel: nat)
    requires Promised(r.ram, q) && idx < q.num
    ensures SameRings(r.ram, Chain(r, q, idx, fuel).ram, q)
    decreases fuel
  {
    hide OnDesc, SameRings, Laid;
    SameRingsTrivial(r.ram, q);
    if fuel > 0 {
      ReadDescIs(r.ram, q, idx);
      var d := EntryDesc(r.ram, q, idx);
      DescKeeps(r, d, q);
      var r' := OnDesc(r, d);
      if r'.phase != 0 && HasNext(d) {
        TableOf(r.ram, r'.ram, q);
        PromiseStays(r.ram, r'.ram, q);
        ChainKeeps(r', q, d.next, fuel - 1);
        SameRingsChain(r.ram, r'.ram, Chain(r', q, d.next, fuel - 1).ram, q);
      }
    }
  }

  lemma TableOf(a: Bytes, b: Bytes, q: Queue)
    requires SameRings(a, b, q)
    ensures SameTable(a, b, q)
  {
  }

  lemma {:induction false} LastIsSound(ram: Bytes, q: Queue, idx: nat, prev: Desc, fuel: nat)
    requires Promised(ram, q) && idx < q.num && (fuel == 0 ==> Sound(prev, q))
    ensures Sound(LastDesc(ram, q, idx, prev, fuel), q)
    decreases fuel
  {
    hide Laid, EntryDesc;
    if fuel > 0 {
      ReadDescIs(ram, q, idx);
      var d := EntryDesc(ram, q, idx);
      assert Sound(d, q);
      if HasNext(d) {
        LastIsSound(ram, q, d.next, d, fuel - 1);
      }
    }
  }

  /** Request and status byte. */
  lemma RequestKeeps(s: State, q: Queue, head: nat)
    requires Promised(s.ram, q) && head < q.num
    ensures SameRings(s.ram, PutStatus(Served(s, q, head), q, head), q)
  {
    hide Chain, LastDesc, SameRings, Laid, GuestWriteLe;
    var r := Served(s, q, head);
    ChainKeeps(StartReq(s), q, head, q.num);
    TableOf(s.ram, r.ram, q);
    if r.phase != 0 {
      PromiseStays(s.ram, r.ram, q);
      LastIsSound(r.ram, q, head, NO_DESC, q.num) by { LaidNonempty(r.ram, q); }
      var d := LastDesc(r.ram, q, head, NO_DESC, q.num);
      WriteApart(r.ram, d.addr, 1, r.status, q);
      SameRingsChain(s.ram, r.ram, PutStatus(r, q, head), q);
    }
  }

  lemma LaidNonempty(ram: Bytes, q: Queue)
    requires Laid(ram, q)
    ensures q.num > 0
  {
  }

  // The used ring

  datatype Elem = Elem(id: nat, len: nat)

  function SlotAddr(q: Queue, j: nat): nat { q.used + 4 + j * 8 }

  function Slot(ram: Bytes, q: Queue, j: nat): Elem
    requires Laid(ram, q) && j < q.num
  {
    Elem(GuestReadLe(ram, SlotAddr(q, j), 4), GuestReadLe(ram, SlotAddr(q, j) + 4, 4))
  }

  function Slots(ram: Bytes, q: Queue): seq<Elem>
    requires Laid(ram, q)
  {
    seq(q.num, j requires 0 <= j < q.num => Slot(ram, q, j))
  }

  lemma WriteRead(ram: Bytes, at: nat, n: nat, v: nat)
    requires InRam(ram, at, n) && v < Pow256(n)
    ensures GuestReadLe(GuestWriteLe(ram, at, n, v), at, n) == v
  {
    hide ReadLe, WriteLe, Pow256;
    ReadBack(ram, at - RAM_BASE, n, v);
    DivisionIs(v, Pow256(n), 0, v);
  }

  lemma WriteReadElsewhere(ram: Bytes, at: nat, n: nat, v: nat, at': nat, m: nat)
    requires InRam(ram, at', m) && Disjoint(at, n, at', m)
    ensures GuestReadLe(GuestWriteLe(ram, at, n, v), at', m) == GuestReadLe(ram, at', m)
  {
    if InRam(ram, at, n) {
      ReadElsewhere(ram, at - RAM_BASE, n, v, at' - RAM_BASE, m);
    }
  }

  /** Writing one element. */
  function PutElem(ram: Bytes, q: Queue, j: nat, e: Elem): (r: Bytes)
    ensures |r| == |ram|
  {
    GuestWriteLe(GuestWriteLe(ram, SlotAddr(q, j), 4, e.id), SlotAddr(q, j) + 4, 4, e.len)
  }

  lemma PutElemSlot(ram: Bytes, q: Queue, j: nat, e: Elem, k: nat)
    requires Laid(ram, q) && j < q.num && k < q.num && e.id < TWO_32 && e.len < TWO_32
    ensures Slot(PutElem(ram, q, j, e), q, k) == if k == j then e else Slot(ram, q, k)
  {
    hide GuestReadLe, GuestWriteLe;
    Pow256Values();
    var a, b := SlotAddr(q, j), SlotAddr(q, k);
    var ram1 := GuestWriteLe(ram, a, 4, e.id);
    if k == j {
      WriteRead(ram, a, 4, e.id);
      WriteReadElsewhere(ram1, a + 4, 4, e.len, a, 4);
      WriteRead(ram1, a + 4, 4, e.len);
    } else {
      WriteReadElsewhere(ram, a, 4, e.id, b, 4);
      WriteReadElsewhere(ram, a, 4, e.id, b + 4, 4);
      WriteReadElsewhere(ram1, a + 4, 4, e.len, b, 4);
      WriteReadElsewhere(ram1, a + 4, 4, e.len, b + 4, 4);
    }
  }

  lemma UsedIdxIs(ram: Bytes, q: Queue)
    requires Laid(ram, q)
    ensures InRam(ram, q.used + 2, 2) && UsedIdx(ram, q) == GuestReadLe(ram, q.used + 2, 2)
  {
  }

  lemma PutUsedIs(ram: Bytes, q: Queue, head: nat, total: nat)
    requires Laid(ram, q)
    ensures var u := UsedIdx(ram, q);
            PutUsed(ram, q, head, total)
            == GuestWriteLe(PutElem(ram, q, u % q.num, Elem(head, total)), q.used + 2, 2, (u + 1) % TWO_16)
  {
    hide GuestWriteLe, GuestReadLe;
    var u := UsedIdx(ram, q);
    assert 0 <= u % q.num < q.num;
    assert SlotAddr(q, u % q.num) == q.used + 4 + u % q.num * 8;
  }

  /** Completion of a request, on the used ring as a sequence of elements. */
  lemma UsedAdvances(ram: Bytes, q: Queue, head: nat, total: nat)
    requires Laid(ram, q) && head < TWO_32 && total < TWO_32
    ensures var r, u := PutUsed(ram, q, head, total), UsedIdx(ram, q);
            UsedIdx(r, q) == (u + 1) % TWO_16 && Slots(r, q) == Slots(ram, q)[u % q.num := Elem(head, total)]
  {
    hide GuestWriteLe, GuestReadLe, UsedIdx, PutUsed, PutElem, Slot;
    var u := UsedIdx(ram, q);
    var j, e := u % q.num, Elem(head, total);
    var ram1 := PutElem(ram, q, j, e);
    var r := PutUsed(ram, q, head, total);
    PutUsedIs(ram, q, head, total);
    Pow256Values();
    UsedIdxIs(r, q);
    WriteRead(ram1, q.used + 2, 2, (u + 1) % TWO_16);
    forall k | 0 <= k < q.num
      ensures Slot(r, q, k) == if k == j then e else Slot(ram, q, k)
    {
      PutElemSlot(ram, q, j, e, k);
      SlotAfterIdx(ram1, q, (u + 1) % TWO_16, k);
    }
    assert Slots(r, q) == Slots(ram, q)[j := e];
  }

  lemma SlotAfterIdx(ram: Bytes, q: Queue, v: nat, k: nat)
    requires Laid(ram, q) && k < q.num
    ensures Slot(GuestWriteLe(ram, q.used + 2, 2, v), q, k) == Slot(ram, q, k)
  {
    hide GuestReadLe, GuestWriteLe;
    WriteReadElsewhere(ram, q.used + 2, 2, v, SlotAddr(q, k), 4);
    WriteReadElsewhere(ram, q.used + 2, 2, v, SlotAddr(q, k) + 4, 4);
  }

  lemma PutUsedKeeps(ram: Bytes, q: Queue, head: nat, total: nat)
    requires Laid(ram, q)
    ensures SameTable(ram, PutUsed(ram, q, head, total), q)
  {
    hide GuestWriteLe, UsedIdx, PutUsed, SameAt;
    PutUsedIs(ram, q, head, total);
    var u := UsedIdx(ram, q);
    var at := SlotAddr(q, u % q.num);
    assert 0 <= u % q.num < q.num;
    WriteBeside(ram, at, 4, head, q);
    var ram1 := GuestWriteLe(ram, at, 4, head);
    WriteBeside(ram1, at + 4, 4, total, q);
    var ram2 := GuestWriteLe(ram1, at + 4, 4, total);
    WriteBeside(ram2, q.used + 2, 2, (u + 1) % TWO_16, q);
    var ram3 := GuestWriteLe(ram2, q.used + 2, 2, (u + 1) % TWO_16);
    SameAtChain(ram, ram1, ram2, ram3, q.desc, 16 * q.num);
    SameAtChain(ram, ram1, ram2, ram3, q.avail, 4 + 2 * q.num);
  }

  lemma SameAtChain(a: Bytes, b: Bytes, c: Bytes, d: Bytes, addr: nat, n: nat)
    requires SameAt(a, b, addr, n) && SameAt(b, c, addr, n) && SameAt(c, d, addr, n)
    ensures SameAt(a, d, addr, n)
  {
  }

  /** Writes inside the used ring. */
  lemma WriteBeside(ram: Bytes, at: nat, n: nat, v: nat, q: Queue)
    requires Laid(ram, q) && q.used <= at && at + n <= q.used + 4 + 8 * q.num
    ensures SameTable(ram, GuestWriteLe(ram, at, n, v), q)
  {
    hide GuestWriteLe, SameAt;
    WriteStays(ram, at, n, v, q.desc, 16 * q.num);
    WriteStays(ram, at, n, v, q.avail, 4 + 2 * q.num);
  }

  // The whole notification

  /** The elements that a run of the queue loop completes, in order. */
  function Completed(s: State, q: Queue, availIdx: nat): (done: seq<Elem>)
    requires q.num > 0 && s.lastAvail < TWO_16 && availIdx < TWO_16
    decreases Pending(s.lastAvail, availIdx)
  {
    if s.lastAvail == availIdx || !InRam(s.ram, HeadAddr(q, s.lastAvail), 2) then []
    else
      PendingDrops(s.lastAvail, availIdx);
      var head := GuestReadLe(s.ram, HeadAddr(q, s.lastAvail), 2);
      [Elem(head, Served(s, q, head).total)] + Completed(HandleOne(s, q, head), q, availIdx)
  }

  /** The used ring after a sequence of completions. */
  function Fill(slots: seq<Elem>, u: nat, done: seq<Elem>): (r: seq<Elem>)
    requires |slots| > 0
    ensures |r| == |slots|
    decreases |done|
  {
    if done == [] then slots else Fill(slots[u % |slots| := done[0]], (u + 1) % TWO_16, done[1..])
  }

  /** The slot of the k-th completion. */
  function Index(u: nat, k: nat, n: nat): (i: nat)
    requires n > 0
    ensures i < n
  {
    (u + k) % n
  }

  predicate Misses(u: nat, m: nat, n: nat, j: nat)
    requires n > 0
  {
    forall k: nat :: k < m ==> Index(u, k, n) != j
  }

  lemma {:induction false} FillFrame(slots: seq<Elem>, u: nat, done: seq<Elem>, j: nat)
    requires j < |slots| && TWO_16 % |slots| == 0 && Misses(u, |done|, |slots|, j)
    ensures Fill(slots, u, done)[j] == slots[j]
    decreases |done|
  {
    if done != [] {
      var n := |slots|;
      assert Index(u, 0, n) != j;
      MissesNext(u, |done|, n, j);
      FillFrame(slots[u % n := done[0]], (u + 1) % TWO_16, done[1..], j);
    }
  }

  lemma MissesNext(u: nat, m: nat, n: nat, j: nat)
    requires n > 0 && TWO_16 % n == 0 && m > 0 && Misses(u, m, n, j)
    ensures Misses((u + 1) % TWO_16, m - 1, n, j)
  {
    hide Index;
    var u' := (u + 1) % TWO_16;
    forall k: nat | k < m - 1
      ensures Index(u', k, n) != j
    {
      NextIndex(u, k, n);
      assert Index(u, k + 1, n) != j;
    }
  }

  lemma NextIndex(u: nat, k: nat, n: nat)
    requires n > 0 && TWO_16 % n == 0
    ensures Index((u + 1) % TWO_16, k, n) == Index(u, k + 1, n)
  {
    var r, q := (u + 1) % TWO_16, (u + 1) / TWO_16;
    var m := TWO_16 / n;
    assert TWO_16 == n * m;
    var x := r + k;
    assert u + (k + 1) == n * m * q + x;
    assert n * m * q == n * (m * q);
    DivisionIs(u + (k + 1), n, m * q + x / n, x % n) by {
      assert x == n * (x / n) + x % n;
    }
  }

  lemma Distinct(u: nat, k: nat, n: nat)
    requires 0 < k < n
    ensures Index(u, k, n) != u % n
  {
    var q, r := u / n, u % n;
    assert u == n * q + r;
    if r + k < n {
      DivisionIs(u + k, n, q, r + k);
    } else {
      DivisionIs(u + k, n, q + 1, r + k - n);
    }
  }

  /** Up to a ring's worth of completions all stay in the used ring, in order. */
  lemma {:induction false} FillKeepsOrder(slots: seq<Elem>, u: nat, done: seq<Elem>, k: nat)
    requires k < |done| <= |slots| && TWO_16 % |slots| == 0
    ensures Fill(slots, u, done)[Index(u, k, |slots|)] == done[k]
    decreases |done|
  {
    hide Index;
    var n := |slots|;
    var slots' := slots[u % n := done[0]];
    if k == 0 {
      FirstStays(u, |done|, n);
      FillFrame(slots', (u + 1) % TWO_16, done[1..], u % n);
      FirstIndex(u, n);
    } else {
      NextIndex(u, k - 1, n);
      FillKeepsOrder(slots', (u + 1) % TWO_16, done[1..], k - 1);
    }
  }

  lemma FirstIndex(u: nat, n: nat)
    requires n > 0
    ensures Index(u, 0, n) == u % n
  {
  }

  lemma FirstStays(u: nat, m: nat, n: nat)
    requires n > 0 && TWO_16 % n == 0 && 0 < m <= n
    ensures Misses((u + 1) % TWO_16, m - 1, n, u % n)
  {
    hide Index;
    var u' := (u + 1) % TWO_16;
    forall k: nat | k < m - 1
      ensures Index(u', k, n) != u % n
    {
      NextIndex(u, k, n);
      Distinct(u, k + 1, n);
    }
  }

  lemma {:induction false} FillSplit(slots: seq<Elem>, u: nat, e: Elem, rest: seq<Elem>)
    requires |slots| > 0
    ensures Fill(slots, u, [e] + rest) == Fill(slots[u % |slots| := e], (u + 1) % TWO_16, rest)
  {
    assert ([e] + rest)[1..] == rest;
  }

  lemma HeadReadable(s: State, q: Queue)
    requires Laid(s.ram, q)
    ensures InRam(s.ram, HeadAddr(q, s.lastAvail), 2)
  {
  }

  /** One iteration of the queue loop, on the rings. */
  lemma IterationIs(s: State, q: Queue)
    requires Promised(s.ram, q) && s.lastAvail < TWO_16
    ensures var head := Head(s.ram, q, s.lastAvail);
            var t, r := HandleOne(s, q, head), Served(s, q, head);
            && Promised(t.ram, q) && SameTable(s.ram, t.ram, q)
            && UsedIdx(t.ram, q) == (UsedIdx(s.ram, q) + 1) % TWO_16
            && Slots(t.ram, q) == Slots(s.ram, q)[UsedIdx(s.ram, q) % q.num := Elem(head, r.total)]
  {
    hide UsedIdx, PutUsed, PutStatus, Served, Slots, Laid, SameAt;
    var head := Head(s.ram, q, s.lastAvail);
    var r := Served(s, q, head);
    var ram1 := PutStatus(r, q, head);
    RequestKeeps(s, q, head);
    UsedStays(s.ram, ram1, q);
    PromiseStays(s.ram, ram1, q);
    TotalFits(StartReq(s), q, head, q.num) by { LaidNonempty(s.ram, q); }
    SmallQueue(s.ram, q);
    assert r.total < TWO_32 by { ServedIs(s, q, head); }
    UsedAdvances(ram1, q, head, r.total);
    PutUsedKeeps(ram1, q, head, r.total);
    var t := HandleOne(s, q, head);
    PromiseStays(ram1, t.ram, q);
    SameTableChain(s.ram, ram1, t.ram, q);
  }

  lemma ServedIs(s: State, q: Queue, head: nat)
    ensures Served(s, q, head) == Chain(StartReq(s), q, head, q.num)
  {
  }

  lemma SmallQueue(ram: Bytes, q: Queue)
    requires Laid(ram, q)
    ensures 0 < q.num <= TWO_16
  {
  }

  lemma SameTableChain(a: Bytes, b: Bytes, c: Bytes, q: Queue)
    requires SameTable(a, b, q) && SameTable(b, c, q)
    ensures SameTable(a, c, q)
  {
  }

  lemma UsedStays(a: Bytes, b: Bytes, q: Queue)
    requires Laid(a, q) && SameRings(a, b, q)
    ensures Laid(b, q) && UsedIdx(b, q) == UsedIdx(a, q) && Slots(b, q) == Slots(a, q)
  {
    hide GuestReadLe, SameAt, Slot;
    LaidStays(a, b, q);
    ReadStays(a, b, q.used, 4 + 8 * q.num, q.used + 2, 2);
    forall j | 0 <= j < q.num
      ensures Slot(b, q, j) == Slot(a, q, j)
    {
      SlotStays(a, b, q, j);
    }
    assert Slots(b, q) == Slots(a, q);
  }

  lemma LaidStays(a: Bytes, b: Bytes, q: Queue)
    requires Laid(a, q) && SameRings(a, b, q)
    ensures Laid(b, q)
  {
  }

  lemma SlotStays(a: Bytes, b: Bytes, q: Queue, j: nat)
    requires Laid(a, q) && SameRings(a, b, q) && j < q.num
    ensures Laid(b, q) && Slot(b, q, j) == Slot(a, q, j)
  {
    hide GuestReadLe, SameAt;
    LaidStays(a, b, q);
    ReadStays(a, b, q.used, 4 + 8 * q.num, SlotAddr(q, j), 4);
    ReadStays(a, b, q.used, 4 + 8 * q.num, SlotAddr(q, j) + 4, 4);
  }

  lemma {:induction false} TotalFits(r: Req, q: Queue, idx: nat, fuel: nat)
    requires r.total < TWO_32
    ensures Chain(r, q, idx, fuel).total < TWO_32
    decreases fuel
  {
    hide ReadDesc, OnHeader, OnData;
    if fuel > 0 && ReadDesc(r.ram, q, idx).Some? {
      var d := ReadDesc(r.ram, q, idx).value;
      StepTotalFits(r, d);
      var r' := OnDesc(r, d);
      if r'.phase != 0 && HasNext(d) {
        TotalFits(r', q, d.next, fuel - 1);
      }
    }
  }

  lemma StepTotalFits(r: Req, d: Desc)
    requires r.total < TWO_32
    ensures OnDesc(r, d).total < TWO_32
  {
  }

  /** What the queue loop achieves, between its start and its end. */
  ghost predicate Drained(s: State, t: State, q: Queue, availIdx: nat, done: seq<Elem>) {
    && Laid(s.ram, q) && Laid(t.ram, q)
    && t.lastAvail == availIdx && t.intStatus == s.intStatus
    && |done| == Pending(s.lastAvail, availIdx)
    && UsedIdx(t.ram, q) == (UsedIdx(s.ram, q) + |done|) % TWO_16
    && Slots(t.ram, q) == Fill(Slots(s.ram, q), UsedIdx(s.ram, q), done)
    && InOrder(s, q, done)
  }

  ghost predicate InOrder(s: State, q: Queue, done: seq<Elem>)
    requires Laid(s.ram, q)
  {
    forall k: nat :: k < |done| ==> done[k].id == Head(s.ram, q, s.lastAvail + k)
  }

  lemma InOrderStep(s: State, s': State, q: Queue, total: nat, rest: seq<Elem>)
    requires Laid(s.ram, q) && SameTable(s.ram, s'.ram, q) && s'.lastAvail == (s.lastAvail + 1) % TWO_16
    requires Laid(s'.ram, q) && InOrder(s', q, rest)
    ensures InOrder(s, q, [Elem(Head(s.ram, q, s.lastAvail), total)] + rest)
  {
    hide SameAt, GuestReadLe;
    var done := [Elem(Head(s.ram, q, s.lastAvail), total)] + rest;
    forall k: nat | k < |done|
      ensures done[k].id == Head(s.ram, q, s.lastAvail + k)
    {
      if k > 0 {
        assert done[k] == rest[k - 1];
        HeadStays(s.ram, s'.ram, q, s'.lastAvail + (k - 1));
        NextIndex(s.lastAvail, k - 1, q.num);
      }
    }
  }

  lemma DrainedStep(s: State, s': State, t: State, q: Queue, availIdx: nat, total: nat, rest: seq<Elem>)
    requires Laid(s.ram, q) && SameTable(s.ram, s'.ram, q) && s.lastAvail < TWO_16 && availIdx < TWO_16
    requires s.lastAvail != availIdx && s'.lastAvail == (s.lastAvail + 1) % TWO_16 && s'.intStatus == s.intStatus
    requires Laid(s'.ram, q) && UsedIdx(s'.ram, q) == (UsedIdx(s.ram, q) + 1) % TWO_16
    requires var e := Elem(Head(s.ram, q, s.lastAvail), total);
             Slots(s'.ram, q) == Slots(s.ram, q)[UsedIdx(s.ram, q) % q.num := e]
    requires Drained(s', t, q, availIdx, rest)
    ensures Drained(s, t, q, availIdx, [Elem(Head(s.ram, q, s.lastAvail), total)] + rest)
  {
    hide UsedIdx, Fill, InOrder, SameAt, Head, Slot;
    var e := Elem(Head(s.ram, q, s.lastAvail), total);
    PendingDrops(s.lastAvail, availIdx);
    InOrderStep(s, s', q, total, rest);
    FillSplit(Slots(s.ram, q), UsedIdx(s.ram, q), e, rest);
    StepIndex(UsedIdx(s.ram, q), |rest|);
  }

  lemma StepIndex(u: nat, n: nat)
    ensures ((u + 1) % TWO_16 + n) % TWO_16 == (u + (n + 1)) % TWO_16
  {
  }

  lemma DrainedAlready(s: State, q: Queue)
    requires Laid(s.ram, q) && s.lastAvail < TWO_16
    ensures Drained(s, s, q, s.lastAvail, [])
  {
    hide Slots;
  }

  /** The queue loop drains the available ring. */
  lemma {:induction false} ConsumeDrains(s: State, q: Queue, availIdx: nat)
    requires Promised(s.ram, q) && 0 < q.num && s.lastAvail < TWO_16 && availIdx < TWO_16
    ensures Drained(s, Consume(s, q, availIdx), q, availIdx, Completed(s, q, availIdx))
    decreases Pending(s.lastAvail, availIdx)
  {
    hide HandleOne, UsedIdx, Slots, Served, Laid, SameTable, Drained, GuestReadLe;
    if s.lastAvail == availIdx {
      DrainedAlready(s, q);
    } else {
      HeadReadable(s, q);
      PendingDrops(s.lastAvail, availIdx);
      var head := Head(s.ram, q, s.lastAvail);
      var s' := HandleOne(s, q, head);
      IterationIs(s, q);
      ConsumeDrains(s', q, availIdx);
      HandledIs(s, q, head);
      DrainedStep(s, s', Consume(s', q, availIdx), q, availIdx, Served(s, q, head).total, Completed(s', q, availIdx));
    }
  }

  lemma HandledIs(s: State, q: Queue, head: nat)
    requires q.num > 0
    ensures HandleOne(s, q, head).intStatus == s.intStatus
  {
  }

  /** One notification of a well-formed queue consumes every available entry and raises the interrupt
      if there was one; the used index advances by their number; and unless the driver made more
      available than the ring holds, each head is in the used ring, in order. */
  lemma NotifyDrains(s: State, q: Queue)
    requires Promised(s.ram, q) && 0 < q.num && q.ready && q.desc != 0 && s.lastAvail < TWO_16
    ensures var t, n := Notify(s, q), Pending(s.lastAvail, AvailIdx(s.ram, q));
            && Laid(t.ram, q) && t.lastAvail == AvailIdx(s.ram, q)
            && UsedIdx(t.ram, q) == (UsedIdx(s.ram, q) + n) % TWO_16
            && t.intStatus == (if n > 0 then BitWords.SetBit(s.intStatus, 0) else s.intStatus)
            && (n <= q.num ==> OrderKept(s, t.ram, q, n))
  {
    hide Consume, Slots, UsedIdx, Fill, Laid, Completed, OrderKept, InOrder, Promised, Slot, Head, GuestReadLe;
    assert Laid(s.ram, q) by { PromiseIsLaid(s.ram, q); }
    AvailIdxReadable(s.ram, q);
    var availIdx := AvailIdx(s.ram, q);
    ConsumeDrains(s, q, availIdx);
    var t, done := Consume(s, q, availIdx), Completed(s, q, availIdx);
    if |done| <= q.num {
      OrderFollows(s, t, q, availIdx, done);
    }
    InterruptOnly(s, t, q, |done|);
  }

  predicate HeadKept(s: State, ram': Bytes, q: Queue, k: nat)
    requires Laid(s.ram, q) && Laid(ram', q)
  {
    Slot(ram', q, Index(UsedIdx(s.ram, q), k, q.num)).id == Head(s.ram, q, s.lastAvail + k)
  }

  lemma PromiseIsLaid(ram: Bytes, q: Queue)
    requires Promised(ram, q)
    ensures Laid(ram, q)
  {
  }

  ghost predicate OrderKept(s: State, ram': Bytes, q: Queue, n: nat)
    requires Laid(s.ram, q) && Laid(ram', q) && n <= q.num
  {
    forall k: nat :: k < n ==> HeadKept(s, ram', q, k)
  }

  lemma OrderFollows(s: State, t: State, q: Queue, availIdx: nat, done: seq<Elem>)
    requires Laid(s.ram, q) && Drained(s, t, q, availIdx, done) && |done| <= q.num
    ensures OrderKept(s, t.ram, q, |done|)
  {
    hide UsedIdx, Fill, Slot, Head, Index;
    forall k: nat | k < |done|
      ensures HeadKept(s, t.ram, q, k)
    {
      FillKeepsOrder(Slots(s.ram, q), UsedIdx(s.ram, q), done, k);
      var j := Index(UsedIdx(s.ram, q), k, q.num);
      assert Slots(t.ram, q)[j] == done[k];
    }
  }

  function AvailIdx(ram: Bytes, q: Queue): (a: nat)
    ensures a < TWO_16
  {
    Pow256Values();
    if InRam(ram, q.avail + 2, 2) then GuestReadLe(ram, q.avail + 2, 2) else 0
  }

  lemma AvailIdxReadable(ram: Bytes, q: Queue)
    requires Laid(ram, q)
    ensures InRam(ram, q.avail + 2, 2)
  {
  }

  /** Raising the interrupt leaves the rest of the state alone. */
  lemma InterruptOnly(s: State, t: State, q: Queue, n: nat)
    requires s.lastAvail < TWO_16 && t.lastAvail < TWO_16 && n == Pending(s.lastAvail, t.lastAvail)
    ensures n > 0 <==> s.lastAvail != t.lastAvail
  {
  }
}
