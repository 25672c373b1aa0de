/**
 Guest RAM as bytes, read and written in little-endian units.
 */
module Memory {
  import opened Words

  /** Where guest RAM starts in the physical address space. */
  const RAM_BASE: int := 0x8000_0000

  type Byte = b: int | 0 <= b < 0x100

  function Pow256(n: nat): (p: nat)
    ensures p >= 1
  {
    if n == 0 then 1 else 0x100 * Pow256(n - 1)
  }

  function ReadLe(ram: seq<Byte>, off: nat, n: nat): (v: nat)
    requires off + n <= |ram|
    ensures v < Pow256(n)
    decreases n
  {
    if n == 0 then 0 else ram[off] + 0x100 * ReadLe(ram, off + 1, n - 1)
  }

  /** The low `n` bytes of `v` stored at `off`. */
  function WriteLe(ram: seq<Byte>, off: nat, n: nat, v: nat): (r: seq<Byte>)
    requires off + n <= |ram|
    ensures |r| == |ram|
    ensures forall i :: 0 <= i < |ram| && !(off <= i < off + n) ==> r[i] == ram[i]
    decreases n
  {
    if n == 0 then ram else WriteLe(ram[off := v % 0x100], off + 1, n - 1, v / 0x100)
  }

  lemma {:induction false} ReadSame(a: seq<Byte>, b: seq<Byte>, off: nat, n: nat)
    requires off + n <= |a| && off + n <= |b|
    requires forall i :: off <= i < off + n ==> a[i] == b[i]
    ensures ReadLe(a, off, n) == ReadLe(b, off, n)
    decreases n
  {
    if n > 0 {
      ReadSame(a, b, off + 1, n - 1);
    }
  }

  /** A store is read back, modulo its width. */
  lemma {:induction false} ReadBack(ram: seq<Byte>, off: nat, n: nat, v: nat)
    requires off + n <= |ram|
    ensures ReadLe(WriteLe(ram, off, n, v), off, n) == v % Pow256(n)
    decreases n
  {
    if n > 0 {
      var ram' := ram[off := v % 0x100];
      ReadBack(ram', off + 1, n - 1, v / 0x100);
      assert WriteLe(ram, off, n, v)[off] == v % 0x100;
      SplitMod(v, Pow256(n - 1));
    }
  }

  lemma SplitMod(v: nat, p: nat)
    requires p >= 1
    ensures v % (0x100 * p) == v % 0x100 + 0x100 * (v / 0x100 % p)
  {
    var q, r := v / 0x100 / p, v / 0x100 % p;
    assert v == 0x100 * p * q + (v % 0x100 + 0x100 * r) by {
      assert v / 0x100 == p * q + r;
    }
    DivisionIs(v, 0x100 * p, q, v % 0x100 + 0x100 * r);
  }

  /** A store does not reach bytes outside it. */
  lemma ReadElsewhere(ram: seq<Byte>, off: nat, n: nat, v: nat, off': nat, n': nat)
    requires off + n <= |ram| && off' + n' <= |ram|
    requires off + n <= off' || off' + n' <= off
    ensures ReadLe(WriteLe(ram, off, n, v), off', n') == ReadLe(ram, off', n')
  {
    ReadSame(WriteLe(ram, off, n, v), ram, off', n');
  }
}
