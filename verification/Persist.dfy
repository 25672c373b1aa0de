/**
 Write-back persistence of the disk: a bitmap of dirty 4 KiB blocks, flushes of at most 256 blocks
 into the `vm_blocks` table, and the overlay of that table on the base image at boot.
 */
module Persist {
  import opened Memory
  import opened BitWords
  import opened Virtio

  const BLOCK: int := 4096
  const FLUSH_LIMIT: nat := 256

  type Blocks = map<nat, Bytes>

  /** The worker's disk and bitmap, and the table in the database. */
  datatype Store = Store(disk: Bytes, bitmap: Bytes, blocks: Blocks)

  function BlockCount(size: nat): nat { (size + BLOCK - 1) / BLOCK }

  function BlockLen(size: nat, b: nat): nat
    requires b < BlockCount(size)
  {
    if b * BLOCK + BLOCK > size then size - b * BLOCK else BLOCK
  }

  function BlockOf(disk: Bytes, b: nat): (data: Bytes)
    requires b < BlockCount(|disk|)
    ensures |data| == BlockLen(|disk|, b)
  {
    disk[b * BLOCK..b * BLOCK + BlockLen(|disk|, b)]
  }

  // The bitmap

  predicate HasBit(bitmap: Bytes, b: nat) { b / 8 < |bitmap| }

  predicate IsDirty(bitmap: Bytes, b: nat)
    requires HasBit(bitmap, b)
  {
    TestBit(bitmap[b / 8], b % 8)
  }

  function SetDirty(bitmap: Bytes, b: nat): (r: Bytes)
    requires HasBit(bitmap, b)
    ensures |r| == |bitmap|
  {
    SetStaysByte(bitmap[b / 8], b % 8);
    bitmap[b / 8 := SetBit(bitmap[b / 8], b % 8)]
  }

  function ClearDirty(bitmap: Bytes, b: nat): (r: Bytes)
    requires HasBit(bitmap, b)
    ensures |r| == |bitmap|
  {
    SetStaysByte(bitmap[b / 8], b % 8);
    bitmap[b / 8 := ClearBit(bitmap[b / 8], b % 8)]
  }

  lemma DirtyAfter(bitmap: Bytes, b: nat, c: nat)
    requires HasBit(bitmap, b) && HasBit(bitmap, c)
    ensures IsDirty(SetDirty(bitmap, b), c) == (b == c || IsDirty(bitmap, c))
    ensures IsDirty(ClearDirty(bitmap, b), c) == (b != c && IsDirty(bitmap, c))
  {
    if b / 8 == c / 8 {
      TestAfterSet(bitmap[b / 8], b % 8, c % 8);
      TestAfterClear(bitmap[b / 8], b % 8, c % 8);
      assert b == c <==> b % 8 == c % 8;
    }
  }

  /** The number of dirty blocks among the first `n`. */
  function DirtyCount(bitmap: Bytes, n: nat): (d: nat)
    requires n <= 8 * |bitmap|
    ensures d <= n
  {
    if n == 0 then 0 else DirtyCount(bitmap, n - 1) + (if IsDirty(bitmap, n - 1) then 1 else 0)
  }

  predicate Sized(s: Store) {
    8 * |s.bitmap| >= BlockCount(|s.disk|)
  }

  // The dirty callback

  function FirstBlock(off: nat): nat { off / BLOCK }

  function EndBlock(off: nat, len: nat): nat { (off + len + BLOCK - 1) / BLOCK }

  /** Marking consecutive blocks. */
  function Mark(bitmap: Bytes, from: nat, to: nat): (r: Bytes)
    requires to <= 8 * |bitmap|
    ensures |r| == |bitmap|
    decreases if from < to then to - from else 0
  {
    if from >= to then bitmap else Mark(SetDirty(bitmap, from), from + 1, to)
  }

  lemma {:induction false} MarkIs(bitmap: Bytes, from: nat, to: nat, b: nat)
    requires to <= 8 * |bitmap| && HasBit(bitmap, b)
    ensures IsDirty(Mark(bitmap, from, to), b) == (from <= b < to || IsDirty(bitmap, b))
    decreases if from < to then to - from else 0
  {
    if from < to {
      DirtyAfter(bitmap, from, b);
      MarkIs(SetDirty(bitmap, from), from + 1, to, b);
    }
  }

  /** `vm_dirty_callback`. */
  function Callback(bitmap: Bytes, r: Range): (bitmap': Bytes)
    requires EndBlock(r.off, r.len) <= 8 * |bitmap|
    ensures |bitmap'| == |bitmap|
  {
    if r.len == 0 then bitmap else Mark(bitmap, FirstBlock(r.off), EndBlock(r.off, r.len))
  }

  lemma BlocksOfRange(size: nat, r: Range)
    requires r.off + r.len <= size
    ensures EndBlock(r.off, r.len) <= BlockCount(size)
  {
  }

  // Flushing

  /** The flush loop from block `b` on, with `flushed` blocks written so far. */
  function FlushFrom(s: Store, b: nat, flushed: nat): (s': Store)
    requires Sized(s)
    ensures s'.disk == s.disk && |s'.bitmap| == |s.bitmap|
    decreases if b < BlockCount(|s.disk|) then BlockCount(|s.disk|) - b else 0
  {
    if b >= BlockCount(|s.disk|) then s
    else if !IsDirty(s.bitmap, b) then FlushFrom(s, b + 1, flushed)
    else
      var s1 := Save(s, b);
      if flushed + 1 >= FLUSH_LIMIT then s1 else FlushFrom(s1, b + 1, flushed + 1)
  }

  /** Writing one block to the table and clearing its bit. */
  function Save(s: Store, b: nat): (s': Store)
    requires Sized(s) && b < BlockCount(|s.disk|)
    ensures s'.disk == s.disk && |s'.bitmap| == |s.bitmap|
  {
    s.(bitmap := ClearDirty(s.bitmap, b), blocks := s.blocks[b := BlockOf(s.disk, b)])
  }

  /** `worker_flush_dirty_blocks`. */
  function Flush(s: Store): (s': Store)
    requires Sized(s)
    ensures s'.disk == s.disk && |s'.bitmap| == |s.bitmap|
  {
    FlushFrom(s, 0, 0)
  }

  // Boot

  /** What the database holds for a block. */
  function Saved(image: Bytes, blocks: Blocks, b: nat): Bytes
    requires b < BlockCount(|image|)
  {
    if b in blocks then blocks[b] else BlockOf(image, b)
  }

  datatype Row = Row(blk: nat, data: Bytes)

  /** The overlay loop; rows that do not fit are skipped. */
  function Overlay(disk: Bytes, rows: seq<Row>): (r: Bytes)
    ensures |r| == |disk|
    decreases |rows|
  {
    if rows == [] then disk
    else
      var off := rows[0].blk * BLOCK;
      Overlay(if off + |rows[0].data| <= |disk| then Splice(disk, off, rows[0].data) else disk, rows[1..])
  }

  /** The rows of the table, in any order. */
  ghost predicate RowsOf(blocks: Blocks, rows: seq<Row>) {
    && (forall i, j :: 0 <= i < j < |rows| ==> rows[i].blk != rows[j].blk)
    && (forall i :: 0 <= i < |rows| ==> rows[i].blk in blocks && rows[i].data == blocks[rows[i].blk])
    && (forall b :: b in blocks ==> exists i :: 0 <= i < |rows| && rows[i].blk == b)
  }

  // The invariant

  /** Every clean block equals its stored copy, and the table holds whole blocks of this disk. */
  ghost predicate Coherent(image: Bytes, s: Store) {
    && Sized(s) && |image| == |s.disk|
    && (forall b: nat {:trigger s.blocks[b]} {:trigger b in s.blocks} :: b in s.blocks ==>
          b < BlockCount(|s.disk|) && |s.blocks[b]| == BlockLen(|s.disk|, b))
    && (forall b: nat {:trigger Clean(image, s, b)} :: b < BlockCount(|s.disk|) ==> Clean(image, s, b))
  }

  predicate Clean(image: Bytes, s: Store, b: nat)
    requires Sized(s) && |image| == |s.disk| && b < BlockCount(|s.disk|)
  {
    IsDirty(s.bitmap, b) || Saved(image, s.blocks, b) == BlockOf(s.disk, b)
  }

  lemma SaveKeeps(image: Bytes, s: Store, b: nat)
    requires Coherent(image, s) && b < BlockCount(|s.disk|)
    ensures Coherent(image, Save(s, b))
  {
    hide IsDirty, ClearDirty;
    var s' := Save(s, b);
    forall c: nat | c < BlockCount(|s.disk|)
      ensures Clean(image, s', c)
    {
      assert Clean(image, s, c);
      DirtyAfter(s.bitmap, b, c);
    }
  }

  /** A flush keeps the invariant. */
  lemma {:induction false} FlushKeeps(image: Bytes, s: Store, b: nat, flushed: nat)
    requires Coherent(image, s)
    ensures Coherent(image, FlushFrom(s, b, flushed))
    decreases if b < BlockCount(|s.disk|) then BlockCount(|s.disk|) - b else 0
  {
    hide Coherent, Save;
    assert Sized(s) && |image| == |s.disk| by { CoherentSized(image, s); }
    if b < BlockCount(|s.disk|) {
      if !IsDirty(s.bitmap, b) {
        FlushKeeps(image, s, b + 1, flushed);
      } else {
        SaveKeeps(image, s, b);
        if flushed + 1 < FLUSH_LIMIT {
          FlushKeeps(image, Save(s, b), b + 1, flushed + 1);
        }
      }
    }
  }

  lemma CoherentSized(image: Bytes, s: Store)
    requires Coherent(image, s)
    ensures Sized(s) && |image| == |s.disk|
  {
  }

  lemma {:induction false} CountSame(a: Bytes, b: Bytes, n: nat)
    requires n <= 8 * |a| && |a| == |b|
    requires forall c: nat :: c < n ==> IsDirty(a, c) == IsDirty(b, c)
    ensures DirtyCount(a, n) == DirtyCount(b, n)
  {
    if n > 0 {
      CountSame(a, b, n - 1);
    }
  }

  /** Clearing one bit. */
  lemma {:induction false} CountCleared(bitmap: Bytes, b: nat, n: nat)
    requires n <= 8 * |bitmap| && b < n && IsDirty(bitmap, b)
    ensures DirtyCount(ClearDirty(bitmap, b), n) == DirtyCount(bitmap, n) - 1
  {
    hide IsDirty, ClearDirty;
    DirtyAfter(bitmap, b, n - 1);
    if b < n - 1 {
      CountCleared(bitmap, b, n - 1);
    } else {
      forall c: nat | c < n - 1
        ensures IsDirty(ClearDirty(bitmap, b), c) == IsDirty(bitmap, c)
      {
        DirtyAfter(bitmap, b, c);
      }
      CountSame(ClearDirty(bitmap, b), bitmap, n - 1);
    }
  }

  function Min(a: nat, b: nat): nat { if a < b then a else b }

  /** Nothing dirty below the loop's position. */
  predicate CleanBelow(s: Store, b: nat)
    requires Sized(s)
  {
    forall c: nat :: c < b && c < BlockCount(|s.disk|) ==> !IsDirty(s.bitmap, c)
  }

  lemma {:induction false} NothingBelow(bitmap: Bytes, n: nat)
    requires n <= 8 * |bitmap|
    ensures DirtyCount(bitmap, n) == 0 <==> forall c: nat :: c < n ==> !IsDirty(bitmap, c)
  {
    if n > 0 {
      NothingBelow(bitmap, n - 1);
    }
  }

  /** Each flush reduces `d` dirty blocks by the smaller of `d` and 256. */
  lemma {:induction false} FlushReduces(s: Store, b: nat, flushed: nat)
    requires Sized(s) && CleanBelow(s, b) && flushed < FLUSH_LIMIT && b <= BlockCount(|s.disk|)
    ensures var n := BlockCount(|s.disk|);
            DirtyCount(FlushFrom(s, b, flushed).bitmap, n)
            == DirtyCount(s.bitmap, n) - Min(DirtyCount(s.bitmap, n), FLUSH_LIMIT - flushed)
    decreases if b < BlockCount(|s.disk|) then BlockCount(|s.disk|) - b else 0
  {
    hide IsDirty, ClearDirty, BlockCount, BlockOf, DirtyCount;
    var n := BlockCount(|s.disk|);
    if b == n {
      NothingBelow(s.bitmap, n);
    } else if !IsDirty(s.bitmap, b) {
      FlushReduces(s, b + 1, flushed);
    } else {
      var s1 := Save(s, b);
      CountCleared(s.bitmap, b, n);
      if flushed + 1 < FLUSH_LIMIT {
        forall c: nat | c < b + 1 && c < n
          ensures !IsDirty(s1.bitmap, c)
        {
          DirtyAfter(s.bitmap, b, c);
        }
        FlushReduces(s1, b + 1, flushed + 1);
      }
    }
  }

  /** `k` flushes with no writes in between. */
  function Flushes(s: Store, k: nat): (s': Store)
    requires Sized(s)
    ensures s'.disk == s.disk && |s'.bitmap| == |s.bitmap|
  {
    if k == 0 then s else Flush(Flushes(s, k - 1))
  }

  function Dirty(s: Store): nat
    requires Sized(s)
  {
    DirtyCount(s.bitmap, BlockCount(|s.disk|))
  }

  lemma {:induction false} FlushesReduce(image: Bytes, s: Store, k: nat)
    requires Coherent(image, s)
    ensures Coherent(image, Flushes(s, k)) && Dirty(Flushes(s, k)) == Dirty(s) - Min(Dirty(s), FLUSH_LIMIT * k)
  {
    hide Coherent, DirtyCount, FlushFrom;
    if k > 0 {
      CoherentSized(image, s);
      FlushesReduce(image, s, k - 1);
      var t := Flushes(s, k - 1);
      FlushKeeps(image, t, 0, 0);
      FlushReduces(t, 0, 0);
    } else { CoherentSized(image, s); }
  }

  // Guest writes

  predicate InRange(r: Range, i: nat) { r.off <= i < r.off + r.len }

  /** `disk'` differs from `disk` only inside the ranges reported to the dirty callback. */
  ghost predicate Covers(disk: Bytes, disk': Bytes, ranges: seq<Range>) {
    && |disk'| == |disk|
    && (forall k :: 0 <= k < |ranges| ==> ranges[k].off + ranges[k].len <= |disk|)
    && (forall i :: 0 <= i < |disk| && disk'[i] != disk[i] ==> Reported(ranges, i))
  }

  predicate Reported(ranges: seq<Range>, i: nat) {
    exists k :: 0 <= k < |ranges| && InRange(ranges[k], i)
  }

  /** The callback, range by range. */
  function MarkAll(bitmap: Bytes, size: nat, ranges: seq<Range>): (bitmap': Bytes)
    requires BlockCount(size) <= 8 * |bitmap| && forall k :: 0 <= k < |ranges| ==> ranges[k].off + ranges[k].len <= size
    ensures |bitmap'| == |bitmap|
    decreases |ranges|
  {
    if ranges == [] then bitmap
    else
      BlocksOfRange(size, ranges[0]);
      MarkAll(Callback(bitmap, ranges[0]), size, ranges[1..])
  }

  lemma CallbackIs(bitmap: Bytes, size: nat, r: Range, b: nat)
    requires r.off + r.len <= size && BlockCount(size) <= 8 * |bitmap| && HasBit(bitmap, b)
    ensures EndBlock(r.off, r.len) <= 8 * |bitmap|
    ensures IsDirty(bitmap, b) ==> IsDirty(Callback(bitmap, r), b)
    ensures (exists i: nat :: InRange(r, i) && i / BLOCK == b)
            <==> r.len > 0 && FirstBlock(r.off) <= b < EndBlock(r.off, r.len)
    ensures r.len > 0 && FirstBlock(r.off) <= b < EndBlock(r.off, r.len) ==> IsDirty(Callback(bitmap, r), b)
    ensures IsDirty(Callback(bitmap, r), b) ==>
              IsDirty(bitmap, b) || (r.len > 0 && FirstBlock(r.off) <= b < EndBlock(r.off, r.len))
  {
    hide IsDirty;
    BlocksOfRange(size, r);
    MarkIs(bitmap, FirstBlock(r.off), EndBlock(r.off, r.len), b);
    RangeMeetsBlock(r, b);
  }

  /** The callback's block interval is exactly the set of blocks that the range touches. */
  lemma RangeMeetsBlock(r: Range, b: nat)
    ensures (exists i: nat :: InRange(r, i) && i / BLOCK == b)
            <==> r.len > 0 && FirstBlock(r.off) <= b < EndBlock(r.off, r.len)
  {
    if r.len > 0 && FirstBlock(r.off) <= b < EndBlock(r.off, r.len) {
      var i := if r.off < b * BLOCK then b * BLOCK else r.off;
      assert InRange(r, i) && i / BLOCK == b;
    }
  }

  /** A block is dirty afterwards exactly if it was before or some range touches it. */
  lemma {:induction false} MarkAllIs(bitmap: Bytes, size: nat, ranges: seq<Range>, b: nat)
    requires BlockCount(size) <= 8 * |bitmap| && forall k :: 0 <= k < |ranges| ==> ranges[k].off + ranges[k].len <= size
    requires HasBit(bitmap, b)
    ensures IsDirty(MarkAll(bitmap, size, ranges), b)
        <==> IsDirty(bitmap, b) || exists k :: 0 <= k < |ranges| && Touches(ranges[k], b)
    decreases |ranges|
  {
    hide IsDirty, BlockCount, Callback, Touches;
    if ranges != [] {
      var r := ranges[0];
      TouchesIs(bitmap, size, r, b);
      MarkAllIs(Callback(bitmap, r), size, ranges[1..], b);
      if IsDirty(MarkAll(bitmap, size, ranges), b) && !IsDirty(bitmap, b) && !Touches(r, b) {
        var k :| 0 <= k < |ranges[1..]| && Touches(ranges[1..][k], b);
        assert Touches(ranges[k + 1], b);
      }
      if k :| 0 <= k < |ranges| && Touches(ranges[k], b) {
        if k > 0 { assert Touches(ranges[1..][k - 1], b); }
      }
    }
  }

  ghost predicate Touches(r: Range, b: nat) {
    exists i: nat :: InRange(r, i) && i / BLOCK == b
  }

  lemma TouchesIs(bitmap: Bytes, size: nat, r: Range, b: nat)
    requires r.off + r.len <= size && BlockCount(size) <= 8 * |bitmap| && HasBit(bitmap, b)
    ensures EndBlock(r.off, r.len) <= 8 * |bitmap|
    ensures IsDirty(Callback(bitmap, r), b) <==> IsDirty(bitmap, b) || Touches(r, b)
  {
    hide IsDirty, Callback, InRange;
    CallbackIs(bitmap, size, r, b);
  }

  /** A guest write, callback included. */
  function Write(s: Store, disk': Bytes, ranges: seq<Range>): (s': Store)
    requires Sized(s) && forall k :: 0 <= k < |ranges| ==> ranges[k].off + ranges[k].len <= |s.disk|
    ensures |s'.bitmap| == |s.bitmap|
  {
    s.(disk := disk', bitmap := MarkAll(s.bitmap, |s.disk|, ranges))
  }

  lemma WriteKeeps(image: Bytes, s: Store, disk': Bytes, ranges: seq<Range>)
    requires Coherent(image, s) && Covers(s.disk, disk', ranges)
    ensures Coherent(image, Write(s, disk', ranges))
  {
    hide IsDirty, MarkAll, Saved, Reported;
    var s' := Write(s, disk', ranges);
    forall b: nat | b < BlockCount(|s.disk|)
      ensures Clean(image, s', b)
    {
      assert Clean(image, s, b);
      MarkAllIs(s.bitmap, |s.disk|, ranges, b);
      if !IsDirty(s'.bitmap, b) {
        BlockUntouched(s.disk, disk', ranges, b);
      }
    }
  }

  lemma BlockUntouched(disk: Bytes, disk': Bytes, ranges: seq<Range>, b: nat)
    requires Covers(disk, disk', ranges) && b < BlockCount(|disk|)
    requires !exists k :: 0 <= k < |ranges| && Touches(ranges[k], b)
    ensures BlockOf(disk', b) == BlockOf(disk, b)
  {
    hide InRange;
    forall i: nat | b * BLOCK <= i < b * BLOCK + BlockLen(|disk|, b)
      ensures disk'[i] == disk[i]
    {
      BlockOfByte(i, b, |disk|);
      Unreported(ranges, i, b);
    }
  }

  lemma Unreported(ranges: seq<Range>, i: nat, b: nat)
    requires !(exists k :: 0 <= k < |ranges| && Touches(ranges[k], b)) && i / BLOCK == b
    ensures !Reported(ranges, i)
  {
    forall k | 0 <= k < |ranges|
      ensures !InRange(ranges[k], i)
    {
      assert !Touches(ranges[k], b);
    }
  }

  lemma BlockOfByte(i: nat, b: nat, size: nat)
    requires b < BlockCount(size) && b * BLOCK <= i < b * BLOCK + BlockLen(size, b)
    ensures i / BLOCK == b
  {
  }

  // Rebuilding the disk

  predicate GoodRow(size: nat, row: Row) {
    row.blk < BlockCount(size) && |row.data| == BlockLen(size, row.blk)
  }

  predicate GoodRows(size: nat, rows: seq<Row>) {
    && (forall i :: 0 <= i < |rows| ==> GoodRow(size, rows[i]))
    && (forall i, j :: 0 <= i < j < |rows| ==> rows[i].blk != rows[j].blk)
  }

  lemma RowPut(disk: Bytes, row: Row, b: nat)
    requires GoodRow(|disk|, row) && b < BlockCount(|disk|)
    ensures row.blk * BLOCK + |row.data| <= |disk|
    ensures BlockOf(Splice(disk, row.blk * BLOCK, row.data), b) == if b == row.blk then row.data else BlockOf(disk, b)
  {
    var at, n := row.blk * BLOCK, |row.data|;
    var d := Splice(disk, at, row.data);
    assert at + n <= |disk|;
    if b == row.blk {
      assert d[at..at + n] == row.data;
    } else {
      var lo, hi := b * BLOCK, b * BLOCK + BlockLen(|disk|, b);
      assert hi <= at || at + n <= lo;
      assert forall i :: lo <= i < hi ==> d[i] == disk[i];
      assert d[lo..hi] == disk[lo..hi];
    }
  }

  lemma OverlayStep(disk: Bytes, rows: seq<Row>)
    requires rows != [] && GoodRow(|disk|, rows[0])
    ensures rows[0].blk * BLOCK + |rows[0].data| <= |disk|
    ensures Overlay(disk, rows) == Overlay(Splice(disk, rows[0].blk * BLOCK, rows[0].data), rows[1..])
  {
  }

  lemma {:induction false} OverlayMisses(disk: Bytes, rows: seq<Row>, b: nat)
    requires GoodRows(|disk|, rows) && b < BlockCount(|disk|) && forall i :: 0 <= i < |rows| ==> rows[i].blk != b
    ensures BlockOf(Overlay(disk, rows), b) == BlockOf(disk, b)
    decreases |rows|
  {
    hide GoodRow, Splice, BlockOf, Overlay;
    if rows != [] {
      OverlayStep(disk, rows);
      RowPut(disk, rows[0], b);
      OverlayMisses(Splice(disk, rows[0].blk * BLOCK, rows[0].data), rows[1..], b);
    } else {
      OverlayNothing(disk);
    }
  }

  lemma OverlayNothing(disk: Bytes)
    ensures Overlay(disk, []) == disk
  {
  }

  lemma {:induction false} OverlayHits(disk: Bytes, rows: seq<Row>, i: nat)
    requires GoodRows(|disk|, rows) && i < |rows| && GoodRow(|disk|, rows[i])
    ensures BlockOf(Overlay(disk, rows), rows[i].blk) == rows[i].data
    decreases |rows|
  {
    hide Splice, BlockOf, Overlay, BlockLen, BlockCount;
    OverlayStep(disk, rows);
    var disk1 := Splice(disk, rows[0].blk * BLOCK, rows[0].data);
    RowPut(disk, rows[0], rows[i].blk);
    if i == 0 {
      OverlayMisses(disk1, rows[1..], rows[0].blk);
    } else {
      OverlayHits(disk1, rows[1..], i - 1);
    }
  }

  /** Boot reads every block from the rows, or else from the image. */
  lemma RowsRestore(image: Bytes, blocks: Blocks, rows: seq<Row>, b: nat)
    requires GoodRows(|image|, rows) && RowsOf(blocks, rows) && b < BlockCount(|image|)
    ensures BlockOf(Overlay(image, rows), b) == Saved(image, blocks, b)
  {
    hide BlockOf, Overlay, BlockLen, BlockCount;
    if b in blocks {
      var i :| 0 <= i < |rows| && rows[i].blk == b;
      OverlayHits(image, rows, i);
    } else {
      OverlayMisses(image, rows, b);
    }
  }

  lemma OverlayIs(image: Bytes, s: Store, rows: seq<Row>, b: nat)
    requires Coherent(image, s) && RowsOf(s.blocks, rows) && b < BlockCount(|image|)
    ensures BlockOf(Overlay(image, rows), b) == Saved(image, s.blocks, b)
  {
    hide BlockOf, Overlay, BlockCount, Coherent, GoodRow, RowsOf, Saved;
    GoodTable(image, s, rows);
    RowsRestore(image, s.blocks, rows, b);
  }

  lemma GoodTable(image: Bytes, s: Store, rows: seq<Row>)
    requires Coherent(image, s) && RowsOf(s.blocks, rows)
    ensures GoodRows(|image|, rows)
  {
    hide BlockLen, BlockCount, IsDirty, Clean;
    forall i | 0 <= i < |rows|
      ensures GoodRow(|image|, rows[i])
    {
      assert rows[i].blk in s.blocks;
    }
  }

  /** A crash loses at most the blocks that are dirty. */
  lemma CrashKeepsCleanBlocks(image: Bytes, s: Store, rows: seq<Row>, b: nat)
    requires Coherent(image, s) && RowsOf(s.blocks, rows) && b < BlockCount(|image|) && !IsDirty(s.bitmap, b)
    ensures BlockOf(Overlay(image, rows), b) == BlockOf(s.disk, b)
  {
    hide BlockOf, Overlay, IsDirty;
    OverlayIs(image, s, rows, b);
    assert Clean(image, s, b);
  }

  lemma BlocksAreAll(a: Bytes, b: Bytes)
    requires |a| == |b| && forall k: nat :: k < BlockCount(|a|) ==> BlockOf(a, k) == BlockOf(b, k)
    ensures a == b
  {
    forall i | 0 <= i < |a|
      ensures a[i] == b[i]
    {
      var k := i / BLOCK;
      assert k < BlockCount(|a|);
      assert BlockOf(a, k)[i - k * BLOCK] == a[i];
      assert BlockOf(b, k)[i - k * BLOCK] == b[i];
    }
  }

  /** Boot after everything was flushed restores the disk exactly. */
  lemma CleanBootRestores(image: Bytes, s: Store, rows: seq<Row>)
    requires Coherent(image, s) && Dirty(s) == 0 && RowsOf(s.blocks, rows)
    ensures Overlay(image, rows) == s.disk
  {
    hide BlockOf, Overlay, IsDirty, BlockCount, Clean;
    CoherentSized(image, s);
    NothingBelow(s.bitmap, BlockCount(|s.disk|));
    forall k: nat | k < BlockCount(|image|)
      ensures BlockOf(Overlay(image, rows), k) == BlockOf(s.disk, k)
    {
      assert HasBit(s.bitmap, k);
      assert !IsDirty(s.bitmap, k);
      CrashKeepsCleanBlocks(image, s, rows, k);
    }
    BlocksAreAll(Overlay(image, rows), s.disk);
  }

  /** The worker after a boot: rebuilt disk, zeroed bitmap. */
  function Booted(image: Bytes, blocks: Blocks, rows: seq<Row>, bitmap: Bytes): Store {
    Store(Overlay(image, rows), bitmap, blocks)
  }

  predicate Zeroed(bitmap: Bytes) { forall i :: 0 <= i < |bitmap| ==> bitmap[i] == 0 }

  lemma BootKeeps(image: Bytes, s: Store, rows: seq<Row>, bitmap: Bytes)
    requires Coherent(image, s) && RowsOf(s.blocks, rows) && 8 * |bitmap| >= BlockCount(|image|) && Zeroed(bitmap)
    ensures Coherent(image, Booted(image, s.blocks, rows, bitmap))
  {
    hide BlockOf, Overlay, Saved, BlockCount, BlockLen, IsDirty;
    var t := Booted(image, s.blocks, rows, bitmap);
    forall b: nat | b < BlockCount(|image|)
      ensures Clean(image, t, b)
    {
      OverlayIs(image, s, rows, b);
    }
  }

  // Other VMs

  /** The whole table, by VM; `Store` holds the rows of VM 1. */
  type Table = map<int, Blocks>

  const FLUSH_VM: int := 1

  function RowsFor(table: Table, vm: int): Blocks { if vm in table then table[vm] else map[] }

  /** Flushes name VM 1 in their statement, whichever VM was booted. */
  function FlushTable(table: Table, s: Store, k: nat): Table
    requires Sized(s)
  {
    table[FLUSH_VM := Flushes(s, k).blocks]
  }

  predicate WholeBlocks(size: nat, blocks: Blocks) {
    forall b: nat :: b in blocks ==> GoodRow(size, Row(b, blocks[b]))
  }

  lemma WholeRows(size: nat, blocks: Blocks, rows: seq<Row>)
    requires WholeBlocks(size, blocks) && RowsOf(blocks, rows)
    ensures GoodRows(size, rows)
  {
    hide GoodRow;
    forall i | 0 <= i < |rows|
      ensures GoodRow(size, rows[i])
    {
      assert rows[i] == Row(rows[i].blk, blocks[rows[i].blk]);
    }
  }

  /** The order in which a boot reads the rows does not matter. */
  lemma RowOrderIsIrrelevant(image: Bytes, blocks: Blocks, rows: seq<Row>, rows': seq<Row>)
    requires WholeBlocks(|image|, blocks) && RowsOf(blocks, rows) && RowsOf(blocks, rows')
    ensures Overlay(image, rows) == Overlay(image, rows')
  {
    hide BlockOf, Overlay, BlockCount, GoodRow, RowsOf, Saved;
    WholeRows(|image|, blocks, rows);
    WholeRows(|image|, blocks, rows');
    forall b: nat | b < BlockCount(|image|)
      ensures BlockOf(Overlay(image, rows), b) == BlockOf(Overlay(image, rows'), b)
    {
      RowsRestore(image, blocks, rows, b);
      RowsRestore(image, blocks, rows', b);
    }
    BlocksAreAll(Overlay(image, rows), Overlay(image, rows'));
  }

  /** Boot VM `vm` (reading `rows`), let it run to the store `t`, flush, and boot it again (reading `rows'`): VM 1
      finds the disk it left, every other VM the disk that its first boot found. */
  lemma RebootFinds(image: Bytes, table: Table, vm: int, rows: seq<Row>, t: Store, k: nat, rows': seq<Row>)
    requires WholeBlocks(|image|, RowsFor(table, vm)) && RowsOf(RowsFor(table, vm), rows)
    requires Sized(t) && RowsOf(RowsFor(FlushTable(table, t, k), vm), rows')
    requires vm == FLUSH_VM ==> Coherent(image, t) && Dirty(Flushes(t, k)) == 0
    ensures Overlay(image, rows') == if vm == FLUSH_VM then t.disk else Overlay(image, rows)
  {
    hide Coherent, RowsOf, Overlay, Flushes, DirtyCount, WholeBlocks;
    if vm == FLUSH_VM {
      FlushesReduce(image, t, k);
      CleanBootRestores(image, Flushes(t, k), rows');
    } else {
      RowOrderIsIrrelevant(image, RowsFor(table, vm), rows, rows');
    }
  }

  /** So a reboot after a full flush restores the guest's disk if and only if the VM is number 1 or the guest has
      left the disk as its boot found it. */
  lemma OnlyVmOneRestores(image: Bytes, table: Table, vm: int, rows: seq<Row>, t: Store, k: nat, rows': seq<Row>)
    requires WholeBlocks(|image|, RowsFor(table, vm)) && RowsOf(RowsFor(table, vm), rows)
    requires Sized(t) && RowsOf(RowsFor(FlushTable(table, t, k), vm), rows')
    requires vm == FLUSH_VM ==> Coherent(image, t) && Dirty(Flushes(t, k)) == 0
    ensures Overlay(image, rows') == t.disk <==> vm == FLUSH_VM || t.disk == Overlay(image, rows)
  {
    hide Overlay, RowsOf, Coherent, DirtyCount, Flushes, WholeBlocks;
    RebootFinds(image, table, vm, rows, t, k, rows');
  }

  /** A case: VM 2 with a one-byte disk writes it. The flush stores the block under VM 1; VM 2 boots the old disk,
      and a boot of VM 1 would find VM 2's. */
  lemma VmTwoLosesItsWrite(rows: seq<Row>)
    requires var t := Store([1], [1], map[]); Sized(t) && RowsOf(RowsFor(FlushTable(map[], t, 1), 2), rows)
    ensures var t := Store([1], [1], map[]);
            && Dirty(t) == 1 && Dirty(Flushes(t, 1)) == 0 && Overlay([0], rows) == [0] != t.disk
            && RowsFor(FlushTable(map[], t, 1), FLUSH_VM) == map[0 := [1]]
  {
    hide RowsOf, Overlay;
    var t := Store([1], [1], map[]);
    NoRows(rows);
    OverlayNothing([0]);
    assert IsDirty(t.bitmap, 0) && BlockCount(1) == 1;
    DirtyAfter(t.bitmap, 0, 0);
    var s1 := Save(t, 0);
    assert BlockOf(t.disk, 0) == [1];
    assert FlushFrom(s1, 1, 1) == s1;
    assert FlushFrom(t, 0, 0) == s1;
    assert Flushes(t, 1) == Flush(Flushes(t, 0)) == s1;
    assert DirtyCount(s1.bitmap, 1) == DirtyCount(s1.bitmap, 0) == 0;
  }

  lemma NoRows(rows: seq<Row>)
    requires RowsOf(map[], rows)
    ensures rows == []
  {
    if rows != [] {
      RowIsIn(map[], rows);
    }
  }

  lemma RowIsIn(blocks: Blocks, rows: seq<Row>)
    requires RowsOf(blocks, rows) && rows != []
    ensures blocks != map[]
  {
    assert rows[0].blk in blocks;
  }

  // What VM 1 finds after any VM's flushes

  /** Block `b` has been flushed between `s` and `t`. */
  predicate Flushed(s: Store, t: Store, b: nat)
    requires Sized(s) && |t.bitmap| == |s.bitmap|
  {
    b < BlockCount(|s.disk|) && IsDirty(s.bitmap, b) && !IsDirty(t.bitmap, b)
  }

  /** From `s` to `t` the row of a block changes exactly if it is flushed, and then to the disk's block. */
  predicate RowMoves(s: Store, t: Store, b: nat) {
    && Sized(s) && |t.bitmap| == |s.bitmap| && t.disk == s.disk
    && (b < BlockCount(|s.disk|) && IsDirty(t.bitmap, b) ==> IsDirty(s.bitmap, b))
    && if Flushed(s, t, b) then b in t.blocks && t.blocks[b] == BlockOf(s.disk, b)
       else (b in t.blocks <==> b in s.blocks) && (b in s.blocks ==> t.blocks[b] == s.blocks[b])
  }

  lemma SaveMoves(s: Store, c: nat, b: nat)
    requires Sized(s) && c < BlockCount(|s.disk|) && IsDirty(s.bitmap, c)
    ensures RowMoves(s, Save(s, c), b)
  {
    hide IsDirty, BlockOf;
    if b < BlockCount(|s.disk|) {
      DirtyAfter(s.bitmap, c, b);
    }
  }

  lemma MovesOn(s: Store, t: Store, u: Store, b: nat)
    requires RowMoves(s, t, b) && RowMoves(t, u, b)
    ensures RowMoves(s, u, b)
  {
    hide IsDirty, BlockOf;
  }

  lemma {:induction false} FlushFromMoves(s: Store, c: nat, flushed: nat, b: nat)
    requires Sized(s)
    ensures RowMoves(s, FlushFrom(s, c, flushed), b)
    decreases if c < BlockCount(|s.disk|) then BlockCount(|s.disk|) - c else 0
  {
    hide IsDirty, BlockOf, RowMoves, BlockCount;
    if c >= BlockCount(|s.disk|) {
      MovesNowhere(s, b);
    } else if !IsDirty(s.bitmap, c) {
      FlushFromMoves(s, c + 1, flushed, b);
    } else {
      SaveMoves(s, c, b);
      var s1 := Save(s, c);
      if flushed + 1 < FLUSH_LIMIT {
        FlushFromMoves(s1, c + 1, flushed + 1, b);
        MovesOn(s, s1, FlushFrom(s1, c + 1, flushed + 1), b);
      }
    }
  }

  lemma MovesNowhere(s: Store, b: nat)
    requires Sized(s)
    ensures RowMoves(s, s, b)
  {
  }

  /** Any number of flushes. */
  lemma {:induction false} FlushesMove(s: Store, k: nat, b: nat)
    requires Sized(s)
    ensures RowMoves(s, Flushes(s, k), b)
  {
    hide RowMoves, FlushFrom;
    if k == 0 {
      MovesNowhere(s, b);
    } else {
      FlushesMove(s, k - 1, b);
      var t := Flushes(s, k - 1);
      FlushFromMoves(t, 0, 0, b);
      MovesOn(s, t, Flush(t), b);
    }
  }

  /** Rows that reach no further than their block. */
  predicate ShortRows(rows: seq<Row>) {
    && (forall i :: 0 <= i < |rows| ==> |rows[i].data| <= BLOCK)
    && (forall i, j :: 0 <= i < j < |rows| ==> rows[i].blk != rows[j].blk)
  }

  /** A row lies within a disk of this size; the overlay skips the others. */
  predicate RowFits(size: nat, row: Row) { row.blk * BLOCK + |row.data| <= size }

  function PutRow(disk: Bytes, row: Row): (r: Bytes)
    ensures |r| == |disk|
  {
    if RowFits(|disk|, row) then Splice(disk, row.blk * BLOCK, row.data) else disk
  }

  lemma OverlayPuts(disk: Bytes, rows: seq<Row>)
    requires rows != []
    ensures Overlay(disk, rows) == Overlay(PutRow(disk, rows[0]), rows[1..])
  {
  }

  /** The byte at `i` after one row. */
  lemma PutByte(disk: Bytes, row: Row, i: nat)
    requires i < |disk| && |row.data| <= BLOCK
    ensures PutRow(disk, row)[i]
         == if row.blk == i / BLOCK && RowFits(|disk|, row)
           && i % BLOCK < |row.data| then row.data[i % BLOCK] else disk[i]
  {
    var at := row.blk * BLOCK;
    assert i == i / BLOCK * BLOCK + i % BLOCK;
  }

  lemma {:induction false} ByteMisses(disk: Bytes, rows: seq<Row>, i: nat)
    requires ShortRows(rows) && i < |disk| && forall r :: 0 <= r < |rows| ==> rows[r].blk != i / BLOCK
    ensures Overlay(disk, rows)[i] == disk[i]
    decreases |rows|
  {
    hide PutRow;
    if rows != [] {
      OverlayPuts(disk, rows);
      PutByte(disk, rows[0], i);
      ByteMisses(PutRow(disk, rows[0]), rows[1..], i);
    }
  }

  lemma {:induction false} ByteHits(disk: Bytes, rows: seq<Row>, r: nat, i: nat)
    requires ShortRows(rows) && i < |disk| && r < |rows| && rows[r].blk == i / BLOCK
    ensures Overlay(disk, rows)[i]
         == if RowFits(|disk|, rows[r]) && i % BLOCK < |rows[r].data| then rows[r].data[i % BLOCK] else disk[i]
    decreases |rows|
  {
    hide PutRow, Overlay;
    OverlayPuts(disk, rows);
    PutByte(disk, rows[0], i);
    if r == 0 {
      ByteMisses(PutRow(disk, rows[0]), rows[1..], i);
    } else {
      ByteHits(PutRow(disk, rows[0]), rows[1..], r - 1, i);
    }
  }

  /** The byte at `i` of a disk booted from an image and the rows of a table. */
  function ByteFound(image: Bytes, blocks: Blocks, i: nat): Byte
    requires i < |image|
  {
    var b := i / BLOCK;
    if b in blocks && RowFits(|image|, Row(b, blocks[b])) && i % BLOCK < |blocks[b]| then blocks[b][i % BLOCK]
    else image[i]
  }

  lemma BootFinds(image: Bytes, blocks: Blocks, rows: seq<Row>, i: nat)
    requires RowsOf(blocks, rows) && i < |image| && forall b :: b in blocks ==> |blocks[b]| <= BLOCK
    ensures Overlay(image, rows)[i] == ByteFound(image, blocks, i)
  {
    hide Overlay;
    var b := i / BLOCK;
    if b in blocks {
      var r :| 0 <= r < |rows| && rows[r].blk == b;
      assert rows[r] == Row(b, blocks[b]);
      ByteHits(image, rows, r, i);
    } else {
      ByteMisses(image, rows, i);
    }
  }

  /** The rows of VM 1 after any VM, with any disk, has been flushed any number of times: a boot of VM 1 finds the
      flushed blocks of that disk where they fit, and every other byte as it would have found it before. */
  lemma VmOneFinds(image: Bytes, table: Table, rows: seq<Row>, t: Store, k: nat, rows': seq<Row>, i: nat)
    requires Sized(t) && t.blocks == RowsFor(table, FLUSH_VM) && forall b :: b in t.blocks ==> |t.blocks[b]| <= BLOCK
    requires RowsOf(RowsFor(table, FLUSH_VM), rows) && RowsOf(RowsFor(FlushTable(table, t, k), FLUSH_VM), rows')
    requires i < |image|
    ensures Overlay(image, rows')[i] ==
            if !Flushed(t, Flushes(t, k), i / BLOCK) then Overlay(image, rows)[i]
            else if i < |t.disk| && i / BLOCK * BLOCK + BlockLen(|t.disk|, i / BLOCK) <= |image| then t.disk[i]
            else image[i]
  {
    hide Overlay, RowsOf, IsDirty, Flushes;
    var blocks := RowsFor(FlushTable(table, t, k), FLUSH_VM);
    forall b | b in blocks ensures |blocks[b]| <= BLOCK {
      FlushesMove(t, k, b);
    }
    FlushesMove(t, k, i / BLOCK);
    BootFinds(image, t.blocks, rows, i);
    BootFinds(image, blocks, rows', i);
  }

  // Whole runs

  datatype Event =
    | GuestWrite(disk: Bytes, ranges: seq<Range>)
    | FlushTick
    | Restart(rows: seq<Row>, bitmap: Bytes)

  ghost predicate Possible(image: Bytes, s: Store, e: Event) {
    match e
    case GuestWrite(disk, ranges) => Covers(s.disk, disk, ranges)
    case FlushTick => true
    case Restart(rows, bitmap) => RowsOf(s.blocks, rows) && 8 * |bitmap| >= BlockCount(|image|) && Zeroed(bitmap)
  }

  function Next(image: Bytes, s: Store, e: Event): Store
    requires Sized(s)
    requires e.GuestWrite? ==> forall k :: 0 <= k < |e.ranges| ==> e.ranges[k].off + e.ranges[k].len <= |s.disk|
  {
    match e
    case GuestWrite(disk, ranges) => Write(s, disk, ranges)
    case FlushTick => Flush(s)
    case Restart(rows, bitmap) => Booted(image, s.blocks, rows, bitmap)
  }

  /** The stores that a run of possible events leads to. */
  ghost predicate Leads(image: Bytes, s: Store, events: seq<Event>, t: Store)
    decreases |events|
  {
    if events == [] then t == s
    else
      && Sized(s) && Possible(image, s, events[0])
      && Leads(image, Next(image, s, events[0]), events[1..], t)
  }

  lemma {:induction false} RunKeeps(image: Bytes, s: Store, events: seq<Event>, t: Store)
    requires Coherent(image, s) && Leads(image, s, events, t)
    ensures Coherent(image, t)
    decreases |events|
  {
    hide Coherent, Write, Flush, FlushFrom, Booted, RowsOf;
    if events != [] {
      match events[0] {
        case GuestWrite(disk, ranges) => WriteKeeps(image, s, disk, ranges);
        case FlushTick => FlushKeeps(image, s, 0, 0); FlushIs(s);
        case Restart(rows, bitmap) => BootKeeps(image, s, rows, bitmap);
      }
      RunKeeps(image, Next(image, s, events[0]), events[1..], t);
    }
  }

  lemma FlushIs(s: Store)
    requires Sized(s)
    ensures Flush(s) == FlushFrom(s, 0, 0)
  {
  }

  /** After any run of writes, flushes and restarts, enough flushes empty the bitmap, and the next
      boot then finds the disk exactly as it was. */
  lemma NothingIsLost(image: Bytes, s: Store, events: seq<Event>, t: Store, k: nat, rows: seq<Row>)
    requires Coherent(image, s) && Leads(image, s, events, t)
    requires Sized(t) && k == (Dirty(t) + FLUSH_LIMIT - 1) / FLUSH_LIMIT
    requires RowsOf(Flushes(t, k).blocks, rows)
    ensures Dirty(Flushes(t, k)) == 0 && Overlay(image, rows) == t.disk
  {
    hide Coherent, Leads, Overlay, RowsOf, DirtyCount;
    RunKeeps(image, s, events, t);
    FlushesReduce(image, t, k);
    CleanBootRestores(image, Flushes(t, k), rows);
  }

  // The worker

  class Worker {
    const disk: array<Byte>
    const bitmap: array<Byte>
    var blocks: Blocks

    constructor (disk: array<Byte>, bitmap: array<Byte>, blocks: Blocks)
      ensures this.disk == disk && this.bitmap == bitmap && this.blocks == blocks
    {
      this.disk, this.bitmap, this.blocks := disk, bitmap, blocks;
    }

    ghost function Now(): Store
      reads this, disk, bitmap
    {
      Store(disk[..], bitmap[..], blocks)
    }

    method SetBitOf(b: nat)
      requires HasBit(bitmap[..], b)
      modifies bitmap
      ensures bitmap[..] == SetDirty(old(bitmap[..]), b)
    {
      SetStaysByte(bitmap[b / 8], b % 8);
      bitmap[b / 8] := SetBit(bitmap[b / 8], b % 8);
    }

    method ClearBitOf(b: nat)
      requires HasBit(bitmap[..], b)
      modifies bitmap
      ensures bitmap[..] == ClearDirty(old(bitmap[..]), b)
    {
      SetStaysByte(bitmap[b / 8], b % 8);
      bitmap[b / 8] := ClearBit(bitmap[b / 8], b % 8);
    }

    /** `vm_dirty_callback`. */
    method DirtyCallback(off: nat, len: nat)
      requires EndBlock(off, len) <= 8 * bitmap.Length
      modifies bitmap
      ensures bitmap[..] == Callback(old(bitmap[..]), Range(off, len))
    {
      if len == 0 { return; }
      var end := EndBlock(off, len);
      var b := FirstBlock(off);
      while b < end
        invariant Mark(bitmap[..], b, end) == Callback(old(bitmap[..]), Range(off, len))
      {
        SetBitOf(b);
        b := b + 1;
      }
    }

    /** `worker_flush_dirty_blocks`. */
    method FlushDirtyBlocks()
      requires Sized(Now()) && disk != bitmap
      modifies this, bitmap
      ensures Now() == Flush(old(Now()))
    {
      hide IsDirty, ClearDirty;
      var flushed, b, n := 0, 0, BlockCount(disk.Length);
      while b < n
        invariant Sized(Now()) && FlushFrom(Now(), b, flushed) == FlushFrom(old(Now()), 0, 0)
      {
        if IsDirty(bitmap[..], b) {
          ClearBitOf(b);
          blocks := blocks[b := BlockOf(disk[..], b)];
          flushed := flushed + 1;
          if flushed >= FLUSH_LIMIT { break; }
        }
        b := b + 1;
      }
    }

    /** The overlay loop of `worker_handle_cmd_boot`, on a disk that holds the base image. */
    method OverlayBlocks(rows: seq<Row>)
      modifies disk
      ensures disk[..] == Overlay(old(disk[..]), rows)
    {
      hide Splice;
      for r := 0 to |rows|
        invariant Overlay(disk[..], rows[r..]) == Overlay(old(disk[..]), rows)
      {
        var off, data := rows[r].blk * BLOCK, rows[r].data;
        assert rows[r..][1..] == rows[r + 1..];
        if off + |data| <= disk.Length { Put(off, data); }
      }
      assert rows[|rows|..] == [];
    }

    method Put(off: nat, data: Bytes)
      requires off + |data| <= disk.Length
      modifies disk
      ensures disk[..] == Splice(old(disk[..]), off, data)
    {
      forall i | 0 <= i < |data| {
        disk[off + i] := data[i];
      }
    }
  }
}
