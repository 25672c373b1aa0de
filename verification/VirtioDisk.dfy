/**
 What block requests do to the disk: the status they report, and that sectors written through one
 segmentation read back the same through any other.
 */
module VirtioDisk {
  import opened Wrappers
  import opened Words
  import opened Memory
  import opened Virtio
  import opened VirtioRings

  /** The descriptors that the descriptor loop visits. */
  function Visited(ram: Bytes, q: Queue, idx: nat, fuel: nat): seq<Desc>
    decreases fuel
  {
    if fuel == 0 then []
    else match ReadDesc(ram, q, idx)
      case None => []
      case Some(d) => [d] + (if HasNext(d) then Visited(ram, q, d.next, fuel - 1) else [])
  }

  /** Serving them one after the other. */
  function Serve(r: Req, ds: seq<Desc>): (r': Req)
    ensures |r'.ram| == |r.ram| && |r'.disk| == |r.disk|
    decreases |ds|
  {
    if ds == [] then r
    else
      var r' := OnDesc(r, ds[0]);
      if r'.phase == 0 then r' else Serve(r', ds[1..])
  }

  lemma {:induction false} VisitedStays(a: Bytes, b: Bytes, q: Queue, idx: nat, fuel: nat)
    requires Promised(a, q) && SameTable(a, b, q) && idx < q.num
    ensures Visited(b, q, idx, fuel) == Visited(a, q, idx, fuel)
    decreases fuel
  {
    hide SameTable, Laid, EntryDesc;
    if fuel > 0 {
      PromiseStays(a, b, q);
      PromiseIsLaid(a, q);
      ReadDescIs(a, q, idx);
      ReadDescIs(b, q, idx);
      EntryStays(a, b, q, idx);
      var d := EntryDesc(a, q, idx);
      assert Sound(d, q);
      if HasNext(d) {
        VisitedStays(a, b, q, d.next, fuel - 1);
      }
    }
  }

  /** The loop re-reads the table after every transfer; on a well-formed queue that changes nothing. */
  lemma {:induction false} ChainServes(r: Req, q: Queue, idx: nat, fuel: nat)
    requires Promised(r.ram, q) && idx < q.num
    ensures Chain(r, q, idx, fuel) == Serve(r, Visited(r.ram, q, idx, fuel))
    decreases fuel
  {
    hide OnDesc, SameTable, Serve, Promised, ReadDesc;
    if fuel > 0 {
      var d := SoundEntry(r.ram, q, idx);
      var r' := OnDesc(r, d);
      ServeStep(r, d, if HasNext(d) then Visited(r.ram, q, d.next, fuel - 1) else []);
      if r'.phase != 0 && HasNext(d) {
        PromisedAfter(r, d, q);
        VisitedStays(r.ram, r'.ram, q, d.next, fuel - 1);
        ChainServes(r', q, d.next, fuel - 1);
      }
    }
    ServeNothing(r);
  }

  lemma SoundEntry(ram: Bytes, q: Queue, idx: nat) returns (d: Desc)
    requires Promised(ram, q) && idx < q.num
    ensures ReadDesc(ram, q, idx) == Some(d) && Sound(d, q)
  {
    hide Laid, EntryDesc;
    PromiseIsLaid(ram, q);
    ReadDescIs(ram, q, idx);
    d := EntryDesc(ram, q, idx);
  }

  lemma PromisedAfter(r: Req, d: Desc, q: Queue)
    requires Promised(r.ram, q) && Sound(d, q)
    ensures Promised(OnDesc(r, d).ram, q) && SameTable(r.ram, OnDesc(r, d).ram, q)
  {
    hide OnDesc, SameTable;
    DescKeeps(r, d, q);
    TableOf(r.ram, OnDesc(r, d).ram, q);
    PromiseStays(r.ram, OnDesc(r, d).ram, q);
  }

  lemma ServeStep(r: Req, d: Desc, rest: seq<Desc>)
    ensures Serve(r, [d] + rest) == var r' := OnDesc(r, d); if r'.phase == 0 then r' else Serve(r', rest)
    ensures Serve(OnDesc(r, d), []) == OnDesc(r, d)
  {
    assert ([d] + rest)[1..] == rest;
  }

  lemma ServeNothing(r: Req)
    ensures Serve(r, []) == r
  {
  }

  // Status

  /** Every data segment lies on the disk and in RAM, the sector advancing by whole sectors. */
  predicate AllTransfer(ram: Bytes, disk: Bytes, sector: Word, ds: seq<Desc>)
    decreases |ds|
  {
    ds == [] ||
    (if IsStatus(ds[0]) then AllTransfer(ram, disk, sector, ds[1..])
     else OnDisk(disk, sector, ds[0].len) && InRam(ram, ds[0].addr, ds[0].len)
          && AllTransfer(ram, disk, NextSector(sector, ds[0].len), ds[1..]))
  }

  lemma {:induction false} TransferSizesOnly(ram: Bytes, disk: Bytes, ram': Bytes, disk': Bytes, sector: Word,
                                             ds: seq<Desc>)
    requires |ram| == |ram'| && |disk| == |disk'|
    ensures AllTransfer(ram, disk, sector, ds) == AllTransfer(ram', disk', sector, ds)
    decreases |ds|
  {
    hide OnDisk, NextSector;
    if ds != [] {
      assert OnDisk(disk, sector, ds[0].len)
             == OnDisk(disk', sector, ds[0].len) by { OnDiskSize(disk, disk', sector, ds[0].len); }
      TransferSizesOnly(ram, disk, ram', disk', sector, ds[1..]);
      TransferSizesOnly(ram, disk, ram', disk', NextSector(sector, ds[0].len), ds[1..]);
    }
  }

  lemma OnDiskSize(disk: Bytes, disk': Bytes, sector: Word, len: nat)
    requires |disk| == |disk'|
    ensures OnDisk(disk, sector, len) == OnDisk(disk', sector, len)
  {
  }

  /** A read or write request reports failure if and only if some data segment failed. */
  lemma {:induction false} StatusExact(r: Req, ds: seq<Desc>)
    requires r.phase > 0 && (r.typ == T_IN || r.typ == T_OUT)
    ensures Serve(r, ds).status == if AllTransfer(r.ram, r.disk, r.sector, ds) then r.status else S_IOERR
    ensures Serve(r, ds).phase > 0
    decreases |ds|
  {
    hide OnDesc;
    if ds != [] {
      var r' := OnDesc(r, ds[0]);
      StepStatus(r, ds[0]);
      StatusExact(r', ds[1..]);
      TransferSizesOnly(r.ram, r.disk, r'.ram, r'.disk, r'.sector, ds[1..]);
    }
  }

  lemma StepStatus(r: Req, d: Desc)
    requires r.phase > 0 && (r.typ == T_IN || r.typ == T_OUT)
    ensures var r' := OnDesc(r, d);
            && r'.phase > 0 && r'.typ == r.typ
            && r'.sector == (if IsStatus(d) then r.sector else NextSector(r.sector, d.len))
            && r'.status == (if IsStatus(d) || Transfers(r, d) then r.status else S_IOERR)
  {
    hide DiskOffset, NextSector;
  }

  predicate HasData(ds: seq<Desc>) {
    exists i :: 0 <= i < |ds| && !IsStatus(ds[i])
  }

  /** Requests of other types move nothing; the unsupported ones say so as soon as they carry data. */
  lemma {:induction false} OtherTypes(r: Req, ds: seq<Desc>)
    requires r.phase > 0 && r.typ != T_IN && r.typ != T_OUT
    ensures var r' := Serve(r, ds);
            && r'.ram == r.ram && r'.disk == r.disk && r'.written == r.written && r'.total == r.total
            && r'.status == (if !HasData(ds) then r.status else if r.typ == T_FLUSH then S_OK else S_UNSUPP)
    decreases |ds|
  {
    if ds != [] {
      OtherTypes(OnDesc(r, ds[0]), ds[1..]);
      DataFirst(ds);
    }
  }

  lemma DataFirst(ds: seq<Desc>)
    requires ds != []
    ensures HasData(ds) <==> !IsStatus(ds[0]) || HasData(ds[1..])
  {
    if HasData(ds) && IsStatus(ds[0]) {
      var i :| 0 <= i < |ds| && !IsStatus(ds[i]);
      assert ds[1..][i - 1] == ds[i];
    }
    if HasData(ds[1..]) {
      var i :| 0 <= i < |ds[1..]| && !IsStatus(ds[1..][i]);
      assert ds[i + 1] == ds[1..][i];
    }
  }

  // Data

  function Total(segs: seq<Desc>): nat {
    if segs == [] then 0 else segs[0].len + Total(segs[1..])
  }

  predicate Segments(ram: Bytes, segs: seq<Desc>) {
    forall i :: 0 <= i < |segs| ==> IsSegment(ram, segs[i])
  }

  /** A data descriptor in RAM of whole sectors. */
  predicate IsSegment(ram: Bytes, d: Desc) {
    !IsStatus(d) && InRam(ram, d.addr, d.len) && d.len % SECTOR == 0
  }

  function Piece(ram: Bytes, d: Desc): Bytes
    requires InRam(ram, d.addr, d.len)
  {
    ram[d.addr - RAM_BASE..d.addr - RAM_BASE + d.len]
  }

  /** The bytes of the segments, in order. */
  function Gather(ram: Bytes, segs: seq<Desc>): (data: Bytes)
    requires Segments(ram, segs)
    ensures |data| == Total(segs)
  {
    if segs == [] then [] else assert IsSegment(ram, segs[0]); Piece(ram, segs[0]) + Gather(ram, segs[1..])
  }

  lemma SpliceTwice(s: Bytes, off: nat, a: Bytes, b: Bytes)
    requires off + |a| + |b| <= |s|
    ensures Splice(Splice(s, off, a), off + |a|, b) == Splice(s, off, a + b)
  {
  }

  lemma SpliceNothing(s: Bytes, off: nat)
    requires off <= |s|
    ensures Splice(s, off, []) == s
  {
  }

  lemma SectorFits(sector: nat, len: nat, n: nat)
    requires len % SECTOR == 0 && sector * SECTOR + len <= n < TWO_64
    ensures DiskOffset(sector) == sector * SECTOR && NextSector(sector, len) == sector + len / SECTOR
    ensures (sector + len / SECTOR) * SECTOR == sector * SECTOR + len
  {
  }

  /** The disk ranges that consecutive segments cover. */
  function Ranges(at: nat, segs: seq<Desc>): seq<Range>
    decreases |segs|
  {
    if segs == [] then [] else [Range(at, segs[0].len)] + Ranges(at + segs[0].len, segs[1..])
  }

  lemma TotalWraps(t: nat, a: nat, b: nat)
    ensures ((t + a) % TWO_32 + b) % TWO_32 == (t + (a + b)) % TWO_32
  {
  }

  /** What a write leaves behind: the segments' bytes on consecutive sectors, reported range by range. */
  lemma {:induction false} WriteServed(r: Req, segs: seq<Desc>)
    requires r.phase > 0 && r.typ == T_OUT && Segments(r.ram, segs) && r.total < TWO_32
    requires r.sector * SECTOR + Total(segs) <= |r.disk| < TWO_64
    ensures var r', at := Serve(r, segs), r.sector * SECTOR;
            && r'.disk == Splice(r.disk, at, Gather(r.ram, segs)) && r'.written == r.written + Ranges(at, segs)
            && r'.ram == r.ram && r'.status == r.status && r'.phase == r.phase && r'.typ == r.typ
            && r'.total == (r.total + Total(segs)) % TWO_32
    decreases |segs|
  {
    hide Splice, DiskOffset, NextSector, InRam, Piece, OnDesc, Gather, OnDisk;
    var at := r.sector * SECTOR;
    if segs == [] {
      SpliceNothing(r.disk, at);
      assert Gather(r.ram, segs) == [] by { GatherStep(r.ram, segs); }
    } else {
      var d := segs[0];
      var r' := OnDesc(r, d);
      assert IsSegment(r.ram, d);
      SectorFits(r.sector, d.len, |r.disk|);
      FitsOnDisk(r.disk, r.sector, d.len);
      WriteStep(r, d);
      WriteServed(r', segs[1..]);
      GatherStep(r.ram, segs);
      SpliceTwice(r.disk, at, Piece(r.ram, d), Gather(r.ram, segs[1..]));
      TotalWraps(r.total, d.len, Total(segs[1..]));
      assert r.written + [Range(at, d.len)] + Ranges(at + d.len, segs[1..]) == r.written + Ranges(at, segs);
    }
  }

  lemma FitsOnDisk(disk: Bytes, sector: Word, len: nat)
    requires sector * SECTOR + len <= |disk| < TWO_64
    ensures OnDisk(disk, sector, len)
  {
  }

  lemma GatherStep(ram: Bytes, segs: seq<Desc>)
    requires Segments(ram, segs)
    ensures segs == [] ==> Gather(ram, segs) == []
    ensures segs != [] ==> IsSegment(ram, segs[0]) && |Piece(ram, segs[0])| == segs[0].len
    ensures segs != [] ==> Gather(ram, segs) == Piece(ram, segs[0]) + Gather(ram, segs[1..])
  {
    if segs != [] { assert IsSegment(ram, segs[0]); }
  }

  lemma WriteStep(r: Req, d: Desc)
    requires r.phase > 0 && r.typ == T_OUT && IsSegment(r.ram, d) && OnDisk(r.disk, r.sector, d.len)
    ensures OnDesc(r, d) == r.(disk := Splice(r.disk, DiskOffset(r.sector), Piece(r.ram, d)),
                               written := r.written + [Range(DiskOffset(r.sector), d.len)],
                               total := (r.total + d.len) % TWO_32,
                               sector := NextSector(r.sector, d.len))
  {
    hide Splice, DiskOffset, NextSector;
  }

  /** Storing data into the segments, in order. */
  function Scatter(ram: Bytes, segs: seq<Desc>, data: Bytes): (ram': Bytes)
    requires Segments(ram, segs) && |data| == Total(segs)
    ensures |ram'| == |ram|
    decreases |segs|
  {
    if segs == [] then ram
    else
      assert IsSegment(ram, segs[0]);
      var ram1 := GuestWrite(ram, segs[0].addr, data[..segs[0].len]);
      SegmentsBySize(ram, ram1, segs[1..]);
      Scatter(ram1, segs[1..], data[segs[0].len..])
  }

  lemma SegmentsBySize(ram: Bytes, ram': Bytes, segs: seq<Desc>)
    requires Segments(ram, segs) && |ram| == |ram'|
    ensures Segments(ram', segs)
  {
    forall i | 0 <= i < |segs|
      ensures IsSegment(ram', segs[i])
    {
      assert IsSegment(ram, segs[i]);
    }
  }

  /** What a read leaves behind. */
  lemma {:induction false} ReadServed(r: Req, segs: seq<Desc>)
    requires r.phase > 0 && r.typ == T_IN && Segments(r.ram, segs) && r.total < TWO_32
    requires r.sector * SECTOR + Total(segs) <= |r.disk| < TWO_64
    ensures var r', at := Serve(r, segs), r.sector * SECTOR;
            && r'.ram == Scatter(r.ram, segs, r.disk[at..at + Total(segs)]) && r'.disk == r.disk
              && r'.written == r.written
            && r'.status == r.status && r'.phase == r.phase && r'.typ == r.typ
            && r'.total == (r.total + Total(segs)) % TWO_32
    decreases |segs|
  {
    hide DiskOffset, NextSector, InRam, GuestWrite, OnDesc, OnDisk, Scatter;
    var at := r.sector * SECTOR;
    ScatterStep(r.ram, segs, r.disk[at..at + Total(segs)]);
    if segs != [] {
      var d := segs[0];
      var r' := OnDesc(r, d);
      assert IsSegment(r.ram, d);
      SectorFits(r.sector, d.len, |r.disk|);
      FitsOnDisk(r.disk, r.sector, d.len);
      ReadStep(r, d);
      SegmentsBySize(r.ram, r'.ram, segs[1..]);
      ReadServed(r', segs[1..]);
      TotalWraps(r.total, d.len, Total(segs[1..]));
      SliceSplits(r.disk, at, d.len, Total(segs[1..]));
    }
  }

  lemma SliceSplits(s: Bytes, at: nat, a: nat, b: nat)
    requires at + a + b <= |s|
    ensures s[at..at + (a + b)][..a] == s[at..at + a] && s[at..at + (a + b)][a..] == s[at + a..at + a + b]
  {
  }

  lemma ScatterStep(ram: Bytes, segs: seq<Desc>, data: Bytes)
    requires Segments(ram, segs) && |data| == Total(segs)
    ensures segs == [] ==> Scatter(ram, segs, data) == ram
    ensures segs != [] ==>
              var ram1 := GuestWrite(ram, segs[0].addr, data[..segs[0].len]);
              Segments(ram1, segs[1..]) && Scatter(ram, segs, data) == Scatter(ram1, segs[1..], data[segs[0].len..])
  {
    if segs != [] { SegmentsBySize(ram, GuestWrite(ram, segs[0].addr, data[..segs[0].len]), segs[1..]); }
  }

  lemma ReadStep(r: Req, d: Desc)
    requires r.phase > 0 && r.typ == T_IN && IsSegment(r.ram, d) && OnDisk(r.disk, r.sector, d.len)
    ensures OnDesc(r, d) == r.(ram := GuestWrite(r.ram, d.addr,
                                                 r.disk[DiskOffset(r.sector)..DiskOffset(r.sector) + d.len]),
                               total := (r.total + d.len) % TWO_32,
                               sector := NextSector(r.sector, d.len))
  {
    hide GuestWrite, DiskOffset, NextSector;
  }

  // Reading back

  /** The segments do not overlap. */
  predicate Separate(segs: seq<Desc>) {
    forall i, j :: 0 <= i < j < |segs| ==> Disjoint(segs[i].addr, segs[i].len, segs[j].addr, segs[j].len)
  }

  predicate ClearOf(segs: seq<Desc>, addr: nat, n: nat) {
    forall i :: 0 <= i < |segs| ==> Disjoint(segs[i].addr, segs[i].len, addr, n)
  }

  lemma SameAtTrans(a: Bytes, b: Bytes, c: Bytes, addr: nat, n: nat)
    requires SameAt(a, b, addr, n) && SameAt(b, c, addr, n)
    ensures SameAt(a, c, addr, n)
  {
  }

  lemma {:induction false} ScatterApart(ram: Bytes, segs: seq<Desc>, data: Bytes, addr: nat, n: nat)
    requires Segments(ram, segs) && |data| == Total(segs) && ClearOf(segs, addr, n)
    ensures SameAt(ram, Scatter(ram, segs, data), addr, n)
    decreases |segs|
  {
    hide GuestWrite, InRam, Scatter;
    ScatterStep(ram, segs, data);
    if segs != [] {
      var ram1 := GuestWrite(ram, segs[0].addr, data[..segs[0].len]);
      SpliceStays(ram, segs[0].addr, data[..segs[0].len], addr, n);
      ScatterApart(ram1, segs[1..], data[segs[0].len..], addr, n);
      SameAtTrans(ram, ram1, Scatter(ram, segs, data), addr, n);
    }
  }

  lemma PieceStays(a: Bytes, b: Bytes, d: Desc)
    requires InRam(a, d.addr, d.len) && SameAt(a, b, d.addr, d.len)
    ensures Piece(b, d) == Piece(a, d)
  {
  }

  lemma PieceWritten(ram: Bytes, d: Desc, data: Bytes)
    requires InRam(ram, d.addr, d.len) && |data| == d.len
    ensures Piece(GuestWrite(ram, d.addr, data), d) == data
  {
  }

  /** Gathering what was scattered. */
  lemma {:induction false} GatherScatter(ram: Bytes, segs: seq<Desc>, data: Bytes)
    requires Segments(ram, segs) && |data| == Total(segs) && Separate(segs)
    ensures Segments(Scatter(ram, segs, data), segs) && Gather(Scatter(ram, segs, data), segs) == data
    decreases |segs|
  {
    hide GuestWrite, InRam, Scatter, Piece, SameAt, Gather;
    ScatterStep(ram, segs, data);
    var ram' := Scatter(ram, segs, data);
    SegmentsBySize(ram, ram', segs);
    GatherStep(ram', segs);
    if segs != [] {
      var d := segs[0];
      assert IsSegment(ram, d);
      var ram1 := GuestWrite(ram, d.addr, data[..d.len]);
      GatherScatter(ram1, segs[1..], data[d.len..]);
      PieceWritten(ram, d, data[..d.len]);
      ScatterApart(ram1, segs[1..], data[d.len..], d.addr, d.len);
      assert InRam(ram1, d.addr, d.len) by { InRamBySize(ram, ram1, d.addr, d.len); }
      PieceStays(ram1, ram', d);
      assert data == data[..d.len] + data[d.len..];
    }
  }

  lemma InRamBySize(a: Bytes, b: Bytes, addr: nat, n: nat)
    requires InRam(a, addr, n) && |a| == |b|
    ensures InRam(b, addr, n)
  {
  }

  lemma {:induction false} GatherStays(a: Bytes, b: Bytes, segs: seq<Desc>)
    requires Segments(a, segs) && forall i :: 0 <= i < |segs| ==> SameAt(a, b, segs[i].addr, segs[i].len)
    requires |a| == |b|
    ensures Segments(b, segs) && Gather(b, segs) == Gather(a, segs)
    decreases |segs|
  {
    hide InRam, Piece, Gather, SameAt;
    SegmentsBySize(a, b, segs);
    GatherStep(a, segs);
    GatherStep(b, segs);
    if segs != [] {
      assert IsSegment(a, segs[0]);
      PieceStays(a, b, segs[0]);
      GatherStays(a, b, segs[1..]);
    }
  }

  // Whole requests

  /** A header, further descriptors, and a last one for the status. */
  ghost predicate IsChain(ram: Bytes, q: Queue, head: nat, h: Desc, segs: seq<Desc>, st: Desc) {
    && Promised(ram, q) && head < q.num
    && Visited(ram, q, head, q.num) == [h] + (segs + [st])
    && h.len >= 16 && InRam(ram, h.addr, 16) && HasNext(h)
    && !HasNext(st) && InRam(ram, st.addr, 1)
  }

  /** A chain whose descriptors in between are data segments of whole sectors in RAM. */
  ghost predicate IsRequest(ram: Bytes, q: Queue, head: nat, h: Desc, segs: seq<Desc>, st: Desc) {
    IsChain(ram, q, head, h, segs, st) && Segments(ram, segs)
  }

  function TypeOf(ram: Bytes, h: Desc): nat
    requires InRam(ram, h.addr, 16)
  {
    GuestReadLe(ram, h.addr, 4)
  }

  function SectorOf(ram: Bytes, h: Desc): (s: Word)
    requires InRam(ram, h.addr, 16)
  {
    Pow256Values();
    GuestReadLe(ram, h.addr + 8, 8)
  }

  lemma PhaseStays(r: Req, d: Desc)
    requires r.phase > 0
    ensures OnDesc(r, d).phase > 0
  {
  }

  lemma {:induction false} ServeAppend(r: Req, a: seq<Desc>, b: seq<Desc>)
    requires r.phase > 0
    ensures Serve(r, a + b) == Serve(Serve(r, a), b)
    decreases |a|
  {
    hide OnDesc;
    if a == [] {
      assert a + b == b;
    } else {
      assert (a + b)[1..] == a[1..] + b;
      PhaseStays(r, a[0]);
      ServeAppend(OnDesc(r, a[0]), a[1..], b);
    }
  }

  /** Header, data, status: what is left is the effect of the data segments. */
  lemma RequestServed(s: State, q: Queue, head: nat, h: Desc, segs: seq<Desc>, st: Desc)
    requires IsChain(s.ram, q, head, h, segs, st)
    ensures var r1 := StartReq(s).(phase := 1, typ := TypeOf(s.ram, h), sector := SectorOf(s.ram, h));
            Served(s, q, head) == Serve(r1, segs).(phase := 2) && Serve(r1, segs).phase > 0
  {
    hide Serve, Promised, Segments, InRam, GuestReadLe;
    var r0 := StartReq(s);
    var r1 := r0.(phase := 1, typ := TypeOf(s.ram, h), sector := SectorOf(s.ram, h));
    ChainServes(r0, q, head, q.num);
    ServeStep(r0, h, segs + [st]);
    ServeAppend(r1, segs, [st]);
    PhaseKept(r1, segs);
    assert [st] + [] == [st];
    ServeStep(Serve(r1, segs), st, []);
  }

  lemma {:induction false} PhaseKept(r: Req, ds: seq<Desc>)
    requires r.phase > 0
    ensures Serve(r, ds).phase > 0
    decreases |ds|
  {
    hide OnDesc;
    if ds != [] {
      PhaseStays(r, ds[0]);
      PhaseKept(OnDesc(r, ds[0]), ds[1..]);
    }
  }

  lemma {:induction false} LastVisited(ram: Bytes, q: Queue, idx: nat, prev: Desc, fuel: nat)
    requires var ds := Visited(ram, q, idx, fuel); ds != [] && !HasNext(ds[|ds| - 1])
    ensures LastDesc(ram, q, idx, prev, fuel) == Visited(ram, q, idx, fuel)[|Visited(ram, q, idx, fuel)| - 1]
    decreases fuel
  {
    hide ReadDesc;
    if fuel > 0 {
      var d := ReadDesc(ram, q, idx).value;
      if HasNext(d) {
        LastVisited(ram, q, d.next, d, fuel - 1);
      }
    }
  }

  lemma PutUsedApart(ram: Bytes, q: Queue, head: nat, total: nat, addr: nat, n: nat)
    requires Laid(ram, q) && Disjoint(addr, n, q.used, 4 + 8 * q.num)
    ensures SameAt(ram, PutUsed(ram, q, head, total), addr, n)
  {
    hide GuestWriteLe, UsedIdx, PutUsed, SameAt;
    PutUsedIs(ram, q, head, total);
    var u := UsedIdx(ram, q);
    var at := SlotAddr(q, u % q.num);
    assert 0 <= u % q.num < q.num;
    var ram1 := GuestWriteLe(ram, at, 4, head);
    var ram2 := GuestWriteLe(ram1, at + 4, 4, total);
    WriteStays(ram, at, 4, head, addr, n);
    WriteStays(ram1, at + 4, 4, total, addr, n);
    WriteStays(ram2, q.used + 2, 2, (u + 1) % TWO_16, addr, n);
    SameAtChain(ram, ram1, ram2, GuestWriteLe(ram2, q.used + 2, 2, (u + 1) % TWO_16), addr, n);
  }

  lemma {:induction false} VisitedSound(ram: Bytes, q: Queue, idx: nat, fuel: nat, i: nat)
    requires Promised(ram, q) && idx < q.num && i < |Visited(ram, q, idx, fuel)|
    ensures Sound(Visited(ram, q, idx, fuel)[i], q)
    decreases fuel
  {
    hide Promised, ReadDesc;
    var d := SoundEntry(ram, q, idx);
    if i > 0 {
      VisitedSound(ram, q, d.next, fuel - 1, i - 1);
    }
  }

  /** After the chain was served: the status byte, then the used ring. */
  lemma FinishKeeps(s: State, q: Queue, head: nat, h: Desc, segs: seq<Desc>, st: Desc, addr: nat, n: nat)
    requires IsChain(s.ram, q, head, h, segs, st) && q.num > 0
    requires Disjoint(st.addr, 1, addr, n) && Disjoint(addr, n, q.used, 4 + 8 * q.num)
    ensures SameAt(Served(s, q, head).ram, HandleOne(s, q, head).ram, addr, n)
  {
    hide Promised, PutUsed, InRam, Visited, LastDesc, GuestWriteLe, SameAt, Served;
    var r := Served(s, q, head);
    var ram1 := GuestWriteLe(r.ram, st.addr, 1, r.status);
    StatusGoes(s, q, head, h, segs, st);
    WriteStays(r.ram, st.addr, 1, r.status, addr, n);
    LaidBySize(s.ram, ram1, q);
    PutUsedApart(ram1, q, head, r.total, addr, n);
    SameAtTrans(r.ram, ram1, PutUsed(ram1, q, head, r.total), addr, n);
  }

  lemma LaidBySize(a: Bytes, b: Bytes, q: Queue)
    requires Promised(a, q) && |a| == |b|
    ensures Laid(b, q)
  {
  }

  lemma StatusGoes(s: State, q: Queue, head: nat, h: Desc, segs: seq<Desc>, st: Desc)
    requires IsChain(s.ram, q, head, h, segs, st) && q.num > 0
    ensures var r := Served(s, q, head);
            r.phase > 0 && PutStatus(r, q, head) == GuestWriteLe(r.ram, st.addr, 1, r.status)
  {
    hide Promised, InRam, LastDesc, GuestWriteLe, Served, Visited, SameRings;
    var r := Served(s, q, head);
    RequestServed(s, q, head, h, segs, st);
    ChainKeeps(StartReq(s), q, head, q.num);
    assert Served(s, q, head) == Chain(StartReq(s), q, head, q.num) by { ServedIs(s, q, head); }
    TableOf(s.ram, r.ram, q);
    VisitedStays(s.ram, r.ram, q, head, q.num);
    LastVisited(r.ram, q, head, NO_DESC, q.num);
  }

  /** The status byte that the driver finds. */
  lemma StatusArrives(s: State, q: Queue, head: nat, h: Desc, segs: seq<Desc>, st: Desc)
    requires IsChain(s.ram, q, head, h, segs, st) && q.num > 0 && Served(s, q, head).status < 0x100
    ensures InRam(HandleOne(s, q, head).ram, st.addr, 1)
    ensures GuestReadLe(HandleOne(s, q, head).ram, st.addr, 1) == Served(s, q, head).status
  {
    hide Promised, PutUsed, Visited, LastDesc, GuestWriteLe, SameAt, Served, ReadLe;
    var r := Served(s, q, head);
    var ram1 := GuestWriteLe(r.ram, st.addr, 1, r.status);
    StatusGoes(s, q, head, h, segs, st);
    Pow256Values();
    WriteRead(r.ram, st.addr, 1, r.status);
    LaidBySize(s.ram, ram1, q);
    VisitedSound(s.ram, q, head, q.num, |segs| + 1);
    assert ([h] + (segs + [st]))[|segs| + 1] == st;
    PutUsedApart(ram1, q, head, r.total, st.addr, 1);
    ReadStays(ram1, HandleOne(s, q, head).ram, st.addr, 1, st.addr, 1);
  }

  /** The driver finds status OK after a read or write if and only if every data segment lay on the disk and
      in RAM. */
  lemma StatusByteExact(s: State, q: Queue, head: nat, h: Desc, segs: seq<Desc>, st: Desc)
    requires IsChain(s.ram, q, head, h, segs, st) && q.num > 0
    requires TypeOf(s.ram, h) == T_IN || TypeOf(s.ram, h) == T_OUT
    ensures var t := HandleOne(s, q, head);
            && InRam(t.ram, st.addr, 1)
            && (GuestReadLe(t.ram, st.addr, 1) == S_OK <==> AllTransfer(s.ram, s.disk, SectorOf(s.ram, h), segs))
  {
    hide Promised, InRam, Serve, GuestReadLe, Served, PutUsed, PutStatus, AllTransfer, Visited;
    var r1 := StartReq(s).(phase := 1, typ := TypeOf(s.ram, h), sector := SectorOf(s.ram, h));
    RequestServed(s, q, head, h, segs, st);
    StatusExact(r1, segs);
    StatusArrives(s, q, head, h, segs, st);
  }

  /** A request whose segments fit on the disk succeeds, and moves all of their bytes. */
  predicate Fits(s: State, h: Desc, segs: seq<Desc>)
    requires InRam(s.ram, h.addr, 16)
  {
    SectorOf(s.ram, h) * SECTOR + Total(segs) <= |s.disk| < TWO_64
  }

  lemma WriteRequest(s: State, q: Queue, head: nat, h: Desc, segs: seq<Desc>, st: Desc)
    requires IsRequest(s.ram, q, head, h, segs, st) && TypeOf(s.ram, h) == T_OUT && Fits(s, h, segs) && q.num > 0
    ensures var t, at := HandleOne(s, q, head), SectorOf(s.ram, h) * SECTOR;
            && t.disk == Splice(s.disk, at, Gather(s.ram, segs)) && t.written == s.written + Ranges(at, segs)
            && Served(s, q, head).total == Total(segs) % TWO_32
            && InRam(t.ram, st.addr, 1) && GuestReadLe(t.ram, st.addr, 1) == S_OK
  {
    hide Promised, Segments, InRam, Serve, GuestReadLe, Splice, Served, PutUsed, PutStatus;
    var r1 := StartReq(s).(phase := 1, typ := TypeOf(s.ram, h), sector := SectorOf(s.ram, h));
    RequestServed(s, q, head, h, segs, st);
    WriteServed(r1, segs);
    StatusArrives(s, q, head, h, segs, st);
  }

  lemma ReadRequest(s: State, q: Queue, head: nat, h: Desc, segs: seq<Desc>, st: Desc)
    requires IsRequest(s.ram, q, head, h, segs, st) && TypeOf(s.ram, h) == T_IN && Fits(s, h, segs) && q.num > 0
    requires Separate(segs) && ClearOf(segs, st.addr, 1)
    ensures var t, at := HandleOne(s, q, head), SectorOf(s.ram, h) * SECTOR;
            && t.disk == s.disk && t.written == s.written && Segments(t.ram, segs)
            && Served(s, q, head).total == Total(segs) % TWO_32
            && Gather(t.ram, segs) == s.disk[at..at + Total(segs)]
            && InRam(t.ram, st.addr, 1) && GuestReadLe(t.ram, st.addr, 1) == S_OK
  {
    hide Promised, Segments, InRam, Serve, GuestReadLe, Served, PutUsed, PutStatus, Gather, Scatter, SameAt, Separate;
    var at := SectorOf(s.ram, h) * SECTOR;
    var data := s.disk[at..at + Total(segs)];
    var r1 := StartReq(s).(phase := 1, typ := TypeOf(s.ram, h), sector := SectorOf(s.ram, h));
    RequestServed(s, q, head, h, segs, st);
    ReadServed(r1, segs);
    StatusArrives(s, q, head, h, segs, st);
    GatherScatter(s.ram, segs, data);
    var r, t := Served(s, q, head), HandleOne(s, q, head);
    forall i | 0 <= i < |segs|
      ensures SameAt(r.ram, t.ram, segs[i].addr, segs[i].len)
    {
      SegmentIsApart(s.ram, q, head, h, segs, st, i);
      FinishKeeps(s, q, head, h, segs, st, segs[i].addr, segs[i].len);
    }
    GatherStays(r.ram, t.ram, segs);
  }

  lemma SegmentIsApart(ram: Bytes, q: Queue, head: nat, h: Desc, segs: seq<Desc>, st: Desc, i: nat)
    requires IsChain(ram, q, head, h, segs, st) && i < |segs|
    ensures Disjoint(segs[i].addr, segs[i].len, q.used, 4 + 8 * q.num)
  {
    hide Promised, InRam, Visited;
    VisitedSound(ram, q, head, q.num, i + 1);
    assert ([h] + (segs + [st]))[i + 1] == segs[i];
  }

  lemma RequestShape(ram: Bytes, q: Queue, head: nat, h: Desc, segs: seq<Desc>, st: Desc)
    requires IsRequest(ram, q, head, h, segs, st)
    ensures InRam(ram, h.addr, 16) && Segments(ram, segs)
  {
  }

  lemma SpliceRead(s: Bytes, off: nat, data: Bytes)
    requires off + |data| <= |s|
    ensures Splice(s, off, data)[off..off + |data|] == data
    ensures forall i :: 0 <= i < |s| && !(off <= i < off + |data|) ==> Splice(s, off, data)[i] == s[i]
  {
  }

  /** Sectors written through one segmentation are read back unchanged through any other, by any
      later request on any queue, whatever happened to guest RAM in between; the rest of the disk is
      as it was. */
  lemma WriteThenRead(s: State, q: Queue, head: nat, h: Desc, segs: seq<Desc>, st: Desc,
                      s': State, q': Queue, head': nat, h': Desc, segs': seq<Desc>, st': Desc)
    requires IsRequest(s.ram, q, head, h, segs, st) && TypeOf(s.ram, h) == T_OUT && Fits(s, h, segs) && q.num > 0
    requires IsRequest(s'.ram, q', head', h', segs', st') && TypeOf(s'.ram, h') == T_IN && q'.num > 0
    requires Separate(segs') && ClearOf(segs', st'.addr, 1)
    requires s'.disk == HandleOne(s, q, head).disk
    requires SectorOf(s'.ram, h') == SectorOf(s.ram, h) && Total(segs') == Total(segs)
    ensures Segments(HandleOne(s', q', head').ram, segs')
    ensures Gather(HandleOne(s', q', head').ram, segs') == Gather(s.ram, segs)
    ensures var at := SectorOf(s.ram, h) * SECTOR;
            forall i :: 0 <= i < |s.disk| && !(at <= i < at + Total(segs)) ==> s'.disk[i] == s.disk[i]
  {
    hide IsRequest, HandleOne, Separate, ClearOf, GuestReadLe, Splice, Gather, Segments;
    RequestShape(s.ram, q, head, h, segs, st);
    RequestShape(s'.ram, q', head', h', segs', st');
    var at := SectorOf(s.ram, h) * SECTOR;
    WriteRequest(s, q, head, h, segs, st);
    ReadRequest(s', q', head', h', segs', st');
    SpliceRead(s.disk, at, Gather(s.ram, segs));
  }
}
