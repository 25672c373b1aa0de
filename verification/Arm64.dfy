/**
 The older ARM64 emitter: encoded instruction words, constants built from 16-bit pieces, and the
 branch tail whose jumps are patched once the position of the epilogue is known.
 */
module Arm64 {
  import opened Wrappers
  import opened Words
  import Interp

  type Reg = r: nat | r < 32

  datatype Cond = EQ | NE | HS | LO | GE | LT

  /** The instructions of a constant and of a branch tail. Slots are 64-bit words of the CPU structure. */
  datatype Instr =
    | MovZ(rd: Reg, s: nat, chunk: nat)
    | MovK(rd: Reg, s: nat, chunk: nat)
    | Ldr(rt: Reg, rn: Reg, slot: nat)
    | Str(rt: Reg, rn: Reg, slot: nat)
    | Cmp(rn: Reg, rm: Reg)
    | B(off: int)
    | BCond(cond: Cond, off: int)

  predicate Fits(i: Instr) {
    match i
    case MovZ(_, s, chunk) => s < 4 && chunk < TWO_16
    case MovK(_, s, chunk) => s < 4 && chunk < TWO_16
    case Ldr(_, _, slot) => slot < 0x1000
    case Str(_, _, slot) => slot < 0x1000
    case Cmp(_, _) => true
    case B(off) => -0x200_0000 <= off < 0x200_0000
    case BCond(_, off) => -0x4_0000 <= off < 0x4_0000
  }

  // Encoding

  function CondCode(c: Cond): nat {
    match c case EQ => 0 case NE => 1 case HS => 2 case LO => 3 case GE => 10 case LT => 11
  }

  function Encode(i: Instr): nat {
    match i
    case MovZ(rd, s, chunk) => 0xD280_0000 + s * 0x20_0000 + chunk * 0x20 + rd
    case MovK(rd, s, chunk) => 0xF280_0000 + s * 0x20_0000 + chunk * 0x20 + rd
    case Ldr(rt, rn, slot) => 0xF940_0000 + slot * 0x400 + rn * 0x20 + rt
    case Str(rt, rn, slot) => 0xF900_0000 + slot * 0x400 + rn * 0x20 + rt
    case Cmp(rn, rm) => 0xEB00_001F + rm * 0x1_0000 + rn * 0x20
    case B(off) => 0x1400_0000 + off % 0x400_0000
    case BCond(c, off) => 0x5400_0000 + off % 0x8_0000 * 0x20 + CondCode(c)
  }

  /** `x` modulo 2n, read as a signed number. */
  function SignedField(x: nat, n: nat): int { if x >= n then x - 2 * n else x }

  function CondOf(code: nat): Option<Cond> {
    if code == 0 then Some(EQ) else if code == 1 then Some(NE) else if code == 2 then Some(HS)
    else if code == 3 then Some(LO) else if code == 10 then Some(GE) else if code == 11 then Some(LT) else None
  }

  /** The processor's reading of a word. */
  function Decode(w: nat): Option<Instr> {
    if w / 0x400_0000 == 5 then Some(B(SignedField(w % 0x400_0000, 0x200_0000)))
    else if w / 0x100_0000 == 0x54 then
      match CondOf(w % 0x20)
      case None => None
      case Some(c) => Some(BCond(c, SignedField(w / 0x20 % 0x8_0000, 0x4_0000)))
    else if w / 0x80_0000 == 0x1A5 then Some(MovZ(w % 0x20, w / 0x20_0000 % 4, w / 0x20 % TWO_16))
    else if w / 0x80_0000 == 0x1E5 then Some(MovK(w % 0x20, w / 0x20_0000 % 4, w / 0x20 % TWO_16))
    else if w / 0x40_0000 == 0x3E5 then Some(Ldr(w % 0x20, w / 0x20 % 0x20, w / 0x400 % 0x1000))
    else if w / 0x40_0000 == 0x3E4 then Some(Str(w % 0x20, w / 0x20 % 0x20, w / 0x400 % 0x1000))
    else if w / 0x20_0000 == 0x758 && w % 0x20 == 0x1F && w / 0x400 % 0x40 == 0 then
      Some(Cmp(w / 0x20 % 0x20, w / 0x1_0000 % 0x20))
    else None
  }

  lemma MoveFields(h: nat, s: nat, chunk: nat, rd: nat, w: nat)
    requires s < 4 && chunk < TWO_16 && rd < 32 && w == h * 0x80_0000 + s * 0x20_0000 + chunk * 0x20 + rd
    ensures w % 0x20 == rd && w / 0x20 % TWO_16 == chunk && w / 0x20_0000 % 4 == s
    ensures w / 0x80_0000 == h && w / 0x100_0000 == h / 2 && w / 0x400_0000 == h / 8
  {
    DivisionIs(w, 0x20, h * 0x4_0000 + s * 0x1_0000 + chunk, rd);
    DivisionIs(h * 0x4_0000 + s * 0x1_0000 + chunk, TWO_16, 4 * h + s, chunk);
    DivisionIs(w, 0x20_0000, 4 * h + s, chunk * 0x20 + rd);
    DivisionIs(4 * h + s, 4, h, s);
    var low := s * 0x20_0000 + chunk * 0x20 + rd;
    DivisionIs(w, 0x80_0000, h, low);
    DivisionIs(w, 0x100_0000, h / 2, h % 2 * 0x80_0000 + low);
    DivisionIs(w, 0x400_0000, h / 8, h % 8 * 0x80_0000 + low);
  }

  lemma MemoryFields(h: nat, slot: nat, rn: nat, rt: nat, w: nat)
    requires slot < 0x1000 && rn < 32 && rt < 32 && w == h * 0x40_0000 + slot * 0x400 + rn * 0x20 + rt
    ensures w % 0x20 == rt && w / 0x20 % 0x20 == rn && w / 0x400 % 0x1000 == slot
    ensures w / 0x40_0000 == h && w / 0x80_0000 == h / 2 && w / 0x100_0000 == h / 4 && w / 0x400_0000 == h / 16
  {
    DivisionIs(w, 0x20, h * 0x2_0000 + slot * 0x20 + rn, rt);
    DivisionIs(h * 0x2_0000 + slot * 0x20 + rn, 0x20, h * 0x1000 + slot, rn);
    DivisionIs(w, 0x400, h * 0x1000 + slot, rn * 0x20 + rt);
    DivisionIs(h * 0x1000 + slot, 0x1000, h, slot);
    var low := slot * 0x400 + rn * 0x20 + rt;
    DivisionIs(w, 0x40_0000, h, low);
    DivisionIs(w, 0x80_0000, h / 2, h % 2 * 0x40_0000 + low);
    DivisionIs(w, 0x100_0000, h / 4, h % 4 * 0x40_0000 + low);
    DivisionIs(w, 0x400_0000, h / 16, h % 16 * 0x40_0000 + low);
  }

  lemma CompareFields(rn: nat, rm: nat, w: nat)
    requires rn < 32 && rm < 32 && w == 0xEB00_001F + rm * 0x1_0000 + rn * 0x20
    ensures w % 0x20 == 0x1F && w / 0x20 % 0x20 == rn && w / 0x400 % 0x40 == 0 && w / 0x1_0000 % 0x20 == rm
    ensures w / 0x20_0000 == 0x758
  {
    DivisionIs(w, 0x20, 0x758_0000 + rm * 0x800 + rn, 0x1F);
    DivisionIs(0x758_0000 + rm * 0x800 + rn, 0x20, 0x3A_C000 + rm * 0x40, rn);
    DivisionIs(w, 0x400, 0x3A_C000 + rm * 0x40, rn * 0x20 + 0x1F);
    DivisionIs(0x3A_C000 + rm * 0x40, 0x40, 0xEB00 + rm, 0);
    DivisionIs(w, 0x1_0000, 0xEB00 + rm, rn * 0x20 + 0x1F);
    DivisionIs(0xEB00 + rm, 0x20, 0x758, rm);
    DivisionIs(w, 0x20_0000, 0x758, rm * 0x1_0000 + rn * 0x20 + 0x1F);
  }

  lemma CompareTop(w: nat)
    requires w / 0x20_0000 == 0x758
    ensures w / 0x40_0000 == 0x3AC && w / 0x80_0000 == 0x1D6 && w / 0x100_0000 == 0xEB && w / 0x400_0000 == 0x3A
  {
  }

  lemma MoveRoundTrip(i: Instr)
    requires Fits(i) && (i.MovZ? || i.MovK?)
    ensures Decode(Encode(i)) == Some(i) && Encode(i) < TWO_32
  {
    MoveFields(if i.MovZ? then 0x1A5 else 0x1E5, i.s, i.chunk, i.rd, Encode(i));
  }

  lemma MemoryRoundTrip(i: Instr)
    requires Fits(i) && (i.Ldr? || i.Str?)
    ensures Decode(Encode(i)) == Some(i) && Encode(i) < TWO_32
  {
    MemoryFields(if i.Ldr? then 0x3E5 else 0x3E4, i.slot, i.rn, i.rt, Encode(i));
  }

  lemma CompareRoundTrip(i: Instr)
    requires i.Cmp?
    ensures Decode(Encode(i)) == Some(i) && Encode(i) < TWO_32
  {
    CompareFields(i.rn, i.rm, Encode(i));
    CompareTop(Encode(i));
  }

  lemma SignedBack(off: int, n: nat)
    requires n >= 1 && -(n as int) <= off < n
    ensures 0 <= off % (2 * n) < 2 * n && SignedField(off % (2 * n), n) == off
  {
    if off >= 0 { DivisionIs(off, 2 * n, 0, off); } else { DivisionIs(off, 2 * n, -1, off + 2 * n); }
  }

  lemma JumpRoundTrip(i: Instr)
    requires Fits(i) && i.B?
    ensures Decode(Encode(i)) == Some(i) && Encode(i) < TWO_32
  {
    hide SignedField;
    SignedBack(i.off, 0x200_0000);
    DivisionIs(Encode(i), 0x400_0000, 5, i.off % 0x400_0000);
  }

  lemma CondRoundTrip(i: Instr)
    requires Fits(i) && i.BCond?
    ensures Decode(Encode(i)) == Some(i) && Encode(i) < TWO_32
  {
    hide SignedField;
    var w := Encode(i);
    var f, c := i.off % 0x8_0000, CondCode(i.cond);
    SignedBack(i.off, 0x4_0000);
    DivisionIs(w, 0x100_0000, 0x54, f * 0x20 + c);
    DivisionIs(w, 0x400_0000, 0x15, f * 0x20 + c);
    DivisionIs(w, 0x20, 0x2A0_0000 + f, c);
    DivisionIs(0x2A0_0000 + f, 0x8_0000, 0x54, f);
  }

  lemma RoundTrip(i: Instr)
    requires Fits(i)
    ensures Decode(Encode(i)) == Some(i) && Encode(i) < TWO_32
  {
    hide Decode, Encode;
    match i
    case MovZ(_, _, _) => MoveRoundTrip(i);
    case MovK(_, _, _) => MoveRoundTrip(i);
    case B(_) => JumpRoundTrip(i);
    case BCond(_, _) => CondRoundTrip(i);
    case Cmp(_, _) => CompareRoundTrip(i);
    case _ => MemoryRoundTrip(i);
  }

  // Execution

  /** The processor while it runs a block: registers, condition flags, the words of the CPU structure
      that x19 points to (x[0..31] and the pc), and the index of the current word. */
  datatype Host = Host(x: seq<Word>, n: bool, z: bool, c: bool, v: bool, slots: seq<Word>, pos: int)

  const CPU_REG: Reg := 19
  const PC_SLOT: nat := 32

  predicate IsHost(h: Host) { |h.x| == 32 && |h.slots| == 33 }

  function Get(x: seq<Word>, r: Reg): Word
    requires |x| == 32
  {
    if r == 31 then 0 else x[r]
  }

  function Put(x: seq<Word>, r: Reg, v: Word): (x': seq<Word>)
    requires |x| == 32
    ensures |x'| == 32
  {
    if r == 31 then x else x[r := v]
  }

  function Scale(s: nat): (p: nat)
    ensures p >= 1
  {
    if s == 0 then 1 else if s == 1 then 0x1_0000 else if s == 2 then 0x1_0000_0000
    else if s == 3 then 0x1_0000_0000_0000 else TWO_64
  }

  /** The flags that a comparison sets. */
  function Compare(h: Host, a: Word, b: Word): Host {
    var d := Minus(a, b);
    h.(n := d >= TWO_63, z := a == b, c := a >= b, v := Signed(a) - Signed(b) != Signed(d))
  }

  predicate Meets(cond: Cond, h: Host) {
    match cond
    case EQ => h.z
    case NE => !h.z
    case HS => h.c
    case LO => !h.c
    case GE => h.n == h.v
    case LT => h.n != h.v
  }

  function Do(i: Instr, h: Host): (h': Host)
    requires IsHost(h)
    ensures IsHost(h')
  {
    var next := h.(pos := h.pos + 1);
    match i
    case MovZ(rd, s, chunk) => next.(x := Put(h.x, rd, Wrap(chunk * Scale(s))))
    case MovK(rd, s, chunk) =>
      var v := Get(h.x, rd);
      next.(x := Put(h.x, rd, Wrap(v - v / Scale(s) % TWO_16 * Scale(s) + chunk * Scale(s))))
    case Ldr(rt, rn, slot) => if InSlots(rn, slot) then next.(x := Put(h.x, rt, h.slots[slot])) else h
    case Str(rt, rn, slot) => if InSlots(rn, slot) then next.(slots := h.slots[slot := Get(h.x, rt)]) else h
    case Cmp(rn, rm) => Compare(next, Get(h.x, rn), Get(h.x, rm))
    case B(off) => h.(pos := h.pos + off)
    case BCond(c, off) => h.(pos := h.pos + (if Meets(c, h) then off else 1))
  }

  predicate InSlots(rn: Reg, slot: nat) { rn == CPU_REG && slot < 33 }

  function Step(code: seq<nat>, h: Host): (h': Host)
    requires IsHost(h)
    ensures IsHost(h')
  {
    if 0 <= h.pos < |code| then
      match Decode(code[h.pos]) case Some(i) => Do(i, h) case None => h
    else h
  }

  function Steps(code: seq<nat>, h: Host, n: nat): (h': Host)
    requires IsHost(h)
    ensures IsHost(h')
    decreases n
  {
    if n == 0 then h else Steps(code, Step(code, h), n - 1)
  }

  lemma {:induction false} StepsAdd(code: seq<nat>, h: Host, m: nat, n: nat)
    requires IsHost(h)
    ensures Steps(code, h, m + n) == Steps(code, Steps(code, h, m), n)
    decreases m
  {
    hide Step;
    if m > 0 {
      StepsAdd(code, Step(code, h), m - 1, n);
    }
  }

  /** Instructions that fall through, applied in order. */
  function Straight(ins: seq<Instr>, h: Host): (h': Host)
    requires IsHost(h)
    ensures IsHost(h')
    decreases |ins|
  {
    if ins == [] then h else Straight(ins[1..], Do(ins[0], h))
  }

  lemma {:induction false} StraightAppend(a: seq<Instr>, b: seq<Instr>, h: Host)
    requires IsHost(h)
    ensures Straight(a + b, h) == Straight(b, Straight(a, h))
    decreases |a|
  {
    hide Do;
    if a == [] {
      assert a + b == b;
    } else {
      assert (a + b)[1..] == a[1..] + b;
      StraightAppend(a[1..], b, Do(a[0], h));
    }
  }

  predicate Plain(i: Instr) {
    Fits(i) && !i.B? && !i.BCond? && (i.Ldr? ==> InSlots(i.rn, i.slot)) && (i.Str? ==> InSlots(i.rn, i.slot))
  }

  /** The encoded instructions stand at a position. */
  predicate Holds(code: seq<nat>, at: int, ins: seq<Instr>) {
    0 <= at && at + |ins| <= |code| && forall k :: 0 <= k < |ins| ==> code[at + k] == Encode(ins[k])
  }

  lemma HoldsSplit(code: seq<nat>, at: int, a: seq<Instr>, b: seq<Instr>)
    requires Holds(code, at, a + b)
    ensures Holds(code, at, a) && Holds(code, at + |a|, b)
  {
    hide Encode;
    forall k | 0 <= k < |a|
      ensures code[at + k] == Encode(a[k])
    {
      assert (a + b)[k] == a[k];
    }
    forall k | 0 <= k < |b|
      ensures code[at + |a| + k] == Encode(b[k])
    {
      var j := |a| + k;
      assert (a + b)[j] == b[k];
      assert code[at + j] == Encode((a + b)[j]);
    }
  }

  lemma StepDoes(code: seq<nat>, h: Host, i: Instr)
    requires IsHost(h) && Fits(i) && 0 <= h.pos < |code| && code[h.pos] == Encode(i)
    ensures Step(code, h) == Do(i, h)
  {
    hide Decode, Encode, Do;
    RoundTrip(i);
  }

  /** Encoded straight-line code does what its instructions say. */
  lemma {:induction false} StraightRuns(code: seq<nat>, h: Host, ins: seq<Instr>)
    requires IsHost(h) && Holds(code, h.pos, ins) && forall k :: 0 <= k < |ins| ==> Plain(ins[k])
    ensures Steps(code, h, |ins|) == Straight(ins, h) && Straight(ins, h).pos == h.pos + |ins|
    decreases |ins|
  {
    hide Decode, Encode, Step, Do;
    if ins != [] {
      assert Plain(ins[0]);
      assert code[h.pos + 0] == Encode(ins[0]);
      StepDoes(code, h, ins[0]);
      PlainFallsThrough(ins[0], h);
      HoldsSplit(code, h.pos, [ins[0]], ins[1..]) by { assert [ins[0]] + ins[1..] == ins; }
      StraightRuns(code, Do(ins[0], h), ins[1..]);
    }
  }

  lemma PlainFallsThrough(i: Instr, h: Host)
    requires IsHost(h) && Plain(i)
    ensures Do(i, h).pos == h.pos + 1
  {
  }

  // 64-bit constants

  function Piece(imm: Word, s: nat): nat { imm / Scale(s) % TWO_16 }

  /** The rest of `emit_mov_imm64` from piece `s` on. */
  function Pieces(rd: Reg, imm: Word, s: nat, first: bool): seq<Instr>
    requires s <= 4
    decreases 4 - s
  {
    if s == 4 then (if first then [MovZ(rd, 0, 0)] else [])
    else if Piece(imm, s) != 0 || (s == 3 && first) then
      [if first then MovZ(rd, s, Piece(imm, s)) else MovK(rd, s, Piece(imm, s))] + Pieces(rd, imm, s + 1, false)
    else Pieces(rd, imm, s + 1, first)
  }

  /** `emit_mov_imm64`. */
  function MovCode(rd: Reg, imm: Word): seq<Instr> { Pieces(rd, imm, 0, true) }

  /** The pieces below `s`. */
  function Low(imm: Word, s: nat): (l: Word)
  {
    imm % Scale(s)
  }

  lemma NextPiece(imm: Word, s: nat)
    requires s < 4
    ensures Low(imm, s + 1) == Low(imm, s) + Piece(imm, s) * Scale(s)
    ensures Piece(imm, s) == 0 ==> Low(imm, s + 1) == Low(imm, s)
    ensures Low(imm, s) / Scale(s) % TWO_16 == 0 && Piece(imm, s) * Scale(s) < TWO_64
  {
    var p, q, r := Scale(s), imm / Scale(s), imm % Scale(s);
    DivisionIs(imm, p * TWO_16, q / TWO_16, q % TWO_16 * p + r);
    DivisionIs(r, p, 0, r);
  }

  lemma MoveDoes(rd: Reg, imm: Word, s: nat, first: bool, h: Host)
    requires IsHost(h) && rd != 31 && s < 4
    requires if first then Low(imm, s) == 0 else h.x[rd] == Low(imm, s)
    ensures var i := if first then MovZ(rd, s, Piece(imm, s)) else MovK(rd, s, Piece(imm, s));
            Plain(i) && Do(i, h) == h.(x := h.x[rd := Low(imm, s + 1)], pos := h.pos + 1)
  {
    hide Piece, Scale, Low;
    NextPiece(imm, s);
    PieceFits(imm, s);
  }

  lemma PieceFits(imm: Word, s: nat)
    ensures Piece(imm, s) < TWO_16
  {
  }

  /** Straight-line code that loads a constant into `rd` and changes nothing else. */
  ghost predicate Moves(ins: seq<Instr>, rd: Reg, imm: Word, h: Host) {
    && IsHost(h) && rd != 31 && (forall k :: 0 <= k < |ins| ==> Plain(ins[k]))
    && Straight(ins, h) == h.(x := h.x[rd := imm], pos := h.pos + |ins|)
  }

  lemma MovesNext(i: Instr, rest: seq<Instr>, rd: Reg, low: Word, imm: Word, h: Host)
    requires IsHost(h) && rd != 31 && Plain(i) && Do(i, h) == h.(x := h.x[rd := low], pos := h.pos + 1)
    requires Moves(rest, rd, imm, h.(x := h.x[rd := low], pos := h.pos + 1))
    ensures Moves([i] + rest, rd, imm, h)
  {
    hide Do, Plain;
    var h1 := h.(x := h.x[rd := low], pos := h.pos + 1);
    assert ([i] + rest)[1..] == rest;
    assert h1.x[rd := imm] == h.x[rd := imm];
  }

  /** The pieces build the constant, whatever the register held before. */
  lemma {:induction false} PiecesMove(rd: Reg, imm: Word, s: nat, first: bool, h: Host)
    requires IsHost(h) && rd != 31 && s <= 4 && !(s == 4 && first)
    requires if first then Low(imm, s) == 0 else h.x[rd] == Low(imm, s)
    ensures Moves(Pieces(rd, imm, s, first), rd, imm, h) && |Pieces(rd, imm, s, first)| <= 4 - s
    decreases 4 - s
  {
    hide Piece, Scale, Low, Do, Plain, Moves;
    if s == 4 {
      MovesNothing(rd, imm, h);
    } else if Piece(imm, s) != 0 || (s == 3 && first) {
      MoveDoes(rd, imm, s, first, h);
      var h1 := h.(x := h.x[rd := Low(imm, s + 1)], pos := h.pos + 1);
      PiecesMove(rd, imm, s + 1, false, h1);
      var i := if first then MovZ(rd, s, Piece(imm, s)) else MovK(rd, s, Piece(imm, s));
      MovesNext(i, Pieces(rd, imm, s + 1, false), rd, Low(imm, s + 1), imm, h);
    } else {
      NextPiece(imm, s);
      PiecesMove(rd, imm, s + 1, first, h);
    }
  }

  lemma MovesNothing(rd: Reg, imm: Word, h: Host)
    requires IsHost(h) && rd != 31 && h.x[rd] == Low(imm, 4)
    ensures Moves([], rd, imm, h)
  {
    ScaleTop(imm);
    assert h.x[rd := imm] == h.x;
  }

  lemma ScaleTop(imm: Word)
    ensures Low(imm, 4) == imm && Low(imm, 0) == 0
  {
  }

  /** `emit_mov_imm64` materialises any constant in one to four words. */
  lemma MovCodeMoves(rd: Reg, imm: Word, h: Host)
    requires IsHost(h) && rd != 31
    ensures Moves(MovCode(rd, imm), rd, imm, h) && 1 <= |MovCode(rd, imm)| <= 4
  {
    hide Low, Pieces, Moves;
    ScaleTop(imm);
    PiecesMove(rd, imm, 0, true, h);
    NotEmpty(rd, imm, 0);
  }

  lemma {:induction false} NotEmpty(rd: Reg, imm: Word, s: nat)
    requires s <= 4
    ensures |Pieces(rd, imm, s, true)| >= 1
    decreases 4 - s
  {
    hide Piece;
    if s < 4 {
      NotEmpty(rd, imm, s + 1);
    }
  }

  // The branch tail

  function LoadGuest(rd: Reg, rs: Reg): seq<Instr> {
    if rs == 0 then MovCode(rd, 0) else [Ldr(rd, CPU_REG, rs)]
  }

  function Operands(rs1: Reg, rs2: Reg): seq<Instr> { LoadGuest(0, rs1) + LoadGuest(1, rs2) + [Cmp(0, 1)] }

  function SetPc(target: Word): seq<Instr> { MovCode(0, target) + [Str(0, CPU_REG, PC_SLOT)] }

  /** The two ways out, each ending in a jump to the epilogue at `epi`; `at` is where the tail starts. */
  function Tail(cond: Cond, rs1: Reg, rs2: Reg, next: Word, taken: Word, at: int, epi: int): seq<Instr> {
    var ops, stay, go := Operands(rs1, rs2), SetPc(next), SetPc(taken);
    var b1 := at + |ops| + 1 + |stay|;
    var b2 := b1 + 1 + |go|;
    ops + [BCond(cond, 2 + |stay|)] + stay + [B(epi - b1)] + go + [B(epi - b2)]
  }

  function CondOfFunct3(f3: Word): Option<Cond> {
    if f3 == 0 then Some(EQ) else if f3 == 1 then Some(NE) else if f3 == 4 then Some(LT)
    else if f3 == 5 then Some(GE) else if f3 == 6 then Some(LO) else if f3 == 7 then Some(HS) else None
  }

  /** The processor's flags decide as the interpreter's comparison does. */
  lemma CondIsTaken(f3: Word, cond: Cond, h: Host, a: Word, b: Word)
    requires CondOfFunct3(f3) == Some(cond)
    ensures Meets(cond, Compare(h, a, b)) == Interp.Taken(f3, a, b)
  {
    SignOfDifference(a, b);
  }

  lemma SignOfDifference(a: Word, b: Word)
    ensures var d := Minus(a, b);
            (d >= TWO_63) != (Signed(a) - Signed(b) != Signed(d)) <==> Signed(a) < Signed(b)
  {
    var d := Minus(a, b);
    if a >= b { assert d == a - b; } else { assert d == a - b + TWO_64; }
  }

  ghost predicate Computes(ins: seq<Instr>, h: Host, h': Host) {
    IsHost(h) && (forall k :: 0 <= k < |ins| ==> Plain(ins[k])) && Straight(ins, h) == h' && h'.pos == h.pos + |ins|
  }

  lemma ComputesBoth(a: seq<Instr>, b: seq<Instr>, h: Host, h1: Host, h2: Host)
    requires Computes(a, h, h1) && Computes(b, h1, h2)
    ensures Computes(a + b, h, h2)
  {
    hide Plain, Straight;
    StraightAppend(a, b, h);
  }

  lemma ComputesOne(i: Instr, h: Host)
    requires IsHost(h) && Plain(i)
    ensures Computes([i], h, Do(i, h))
  {
    hide Plain, Do;
    PlainFallsThrough(i, h);
    assert [i][1..] == [] && [i][0] == i;
    assert Straight([], Do(i, h)) == Do(i, h);
  }

  /** A guest register, or zero for x0. */
  lemma LoadGuestLoads(rd: Reg, rs: Reg, h: Host)
    requires IsHost(h) && rd != 31 && h.slots[0] == 0
    ensures Computes(LoadGuest(rd, rs), h, h.(x := h.x[rd := h.slots[rs]], pos := h.pos + |LoadGuest(rd, rs)|))
    ensures 1 <= |LoadGuest(rd, rs)| <= 4
  {
    hide MovCode;
    if rs == 0 {
      MovCodeMoves(rd, 0, h);
    } else {
      ComputesOne(Ldr(rd, CPU_REG, rs), h);
    }
  }

  lemma SetPcSets(target: Word, h: Host)
    requires IsHost(h)
    ensures Computes(SetPc(target), h,
                     h.(x := h.x[0 := target], slots := h.slots[PC_SLOT := target], pos := h.pos + |SetPc(target)|))
    ensures 2 <= |SetPc(target)| <= 5
  {
    hide MovCode, Straight, Plain;
    var code := MovCode(0, target);
    MovCodeMoves(0, target, h);
    var h1 := h.(x := h.x[0 := target], pos := h.pos + |code|);
    var str := Str(0, CPU_REG, PC_SLOT);
    assert Plain(str) by { StrIsPlain(); }
    ComputesOne(str, h1);
    ComputesBoth(code, [str], h, h1, Do(str, h1));
  }

  lemma StrIsPlain()
    ensures Plain(Str(0, CPU_REG, PC_SLOT)) && Plain(Cmp(0, 1))
  {
  }

  /** The operands in x0 and x1, compared. */
  lemma OperandsCompare(rs1: Reg, rs2: Reg, h: Host)
    requires IsHost(h) && h.slots[0] == 0
    ensures var a, b := h.slots[rs1], h.slots[rs2];
            var h' := h.(x := h.x[0 := a][1 := b], pos := h.pos + |Operands(rs1, rs2)|);
            Computes(Operands(rs1, rs2), h, Compare(h', a, b))
    ensures 3 <= |Operands(rs1, rs2)| <= 9
  {
    hide LoadGuest, Straight, Plain, Compare;
    var a, b := h.slots[rs1], h.slots[rs2];
    var l1, l2 := LoadGuest(0, rs1), LoadGuest(1, rs2);
    LoadGuestLoads(0, rs1, h);
    var h1 := h.(x := h.x[0 := a], pos := h.pos + |l1|);
    LoadGuestLoads(1, rs2, h1);
    var h2 := h1.(x := h1.x[1 := b], pos := h1.pos + |l2|);
    ComputesBoth(l1, l2, h, h1, h2);
    StrIsPlain();
    ComputesOne(Cmp(0, 1), h2);
    ComputesBoth(l1 + l2, [Cmp(0, 1)], h, h2, Do(Cmp(0, 1), h2));
  }

  lemma ComputedRuns(code: seq<nat>, h: Host, ins: seq<Instr>, h': Host)
    requires Computes(ins, h, h') && Holds(code, h.pos, ins)
    ensures Steps(code, h, |ins|) == h'
  {
    hide Plain, Straight, Holds, Steps;
    StraightRuns(code, h, ins);
  }

  lemma OneStep(code: seq<nat>, h: Host, i: Instr)
    requires IsHost(h) && Fits(i) && Holds(code, h.pos, [i])
    ensures Steps(code, h, 1) == Do(i, h)
  {
    hide Do, Encode, Fits;
    assert code[h.pos + 0] == Encode([i][0]);
    StepDoes(code, h, i);
    assert Steps(code, Step(code, h), 0) == Step(code, h);
  }

  /** One way out: the pc is stored and control reaches the epilogue. */
  lemma WayOut(code: seq<nat>, h: Host, target: Word, epi: int)
    requires IsHost(h) && Fits(B(epi - h.pos - |SetPc(target)|))
    requires Holds(code, h.pos, SetPc(target) + [B(epi - h.pos - |SetPc(target)|)])
    ensures Steps(code, h, |SetPc(target)| + 1)
            == h.(x := h.x[0 := target], slots := h.slots[PC_SLOT := target], pos := epi)
  {
    hide Holds, SetPc, Straight, Computes, Steps, Fits;
    var go := SetPc(target);
    var jump := B(epi - h.pos - |go|);
    var h1 := h.(x := h.x[0 := target], slots := h.slots[PC_SLOT := target], pos := h.pos + |go|);
    SetPcSets(target, h);
    HoldsSplit(code, h.pos, go, [jump]);
    ComputedRuns(code, h, go, h1);
    OneStep(code, h1, jump);
    StepsAdd(code, h, |go|, 1);
  }

  /** The branch tail runs from its start to the epilogue, wherever that is, with the pc slot set as the
      interpreter sets the pc; besides that slot only x0, x1 and the flags change. */
  lemma TailReaches(code: seq<nat>, h: Host, f3: Word, cond: Cond, rs1: Reg, rs2: Reg, next: Word, taken: Word,
                    epi: int)
    returns (n: nat)
    requires IsHost(h) && h.slots[0] == 0 && CondOfFunct3(f3) == Some(cond)
    requires Holds(code, h.pos, Tail(cond, rs1, rs2, next, taken, h.pos, epi))
             && -0x100_0000 <= epi - h.pos <= 0x100_0000
    ensures var h' := Steps(code, h, n);
            && h'.pos == epi
            && h'.slots == h.slots[PC_SLOT := if Interp.Taken(f3, h.slots[rs1], h.slots[rs2]) then taken else next]
            && forall r :: 2 <= r < 32 ==> h'.x[r] == h.x[r]
  {
    hide Holds, SetPc, Operands, Straight, Computes, Steps, Compare, Meets, CondOfFunct3, Interp.Taken;
    var ops, stay, go := Operands(rs1, rs2), SetPc(next), SetPc(taken);
    var a, b := h.slots[rs1], h.slots[rs2];
    var bcond := BCond(cond, 2 + |stay|);
    OperandsCompare(rs1, rs2, h);
    SetPcSets(next, h);
    SetPcSets(taken, h);
    TailParts(code, cond, rs1, rs2, next, taken, h.pos, epi);
    var h0 := h.(x := h.x[0 := a][1 := b], pos := h.pos + |ops|);
    var h1 := Compare(h0, a, b);
    CompareKeeps(h0, a, b);
    ComputedRuns(code, h, ops, h1);
    OneStep(code, h1, bcond);
    StepsAdd(code, h, |ops|, 1);
    CondIsTaken(f3, cond, h0, a, b);
    var h2 := Do(bcond, h1);
    var target := if Interp.Taken(f3, a, b) then taken else next;
    WayOut(code, h2, target, epi);
    StepsAdd(code, h, |ops| + 1, |SetPc(target)| + 1);
    n := |ops| + 1 + (|SetPc(target)| + 1);
  }

  lemma CompareKeeps(h: Host, a: Word, b: Word)
    ensures var h' := Compare(h, a, b); h'.x == h.x && h'.slots == h.slots && h'.pos == h.pos
  {
  }

  lemma TailParts(code: seq<nat>, cond: Cond, rs1: Reg, rs2: Reg, next: Word, taken: Word, at: int, epi: int)
    requires Holds(code, at, Tail(cond, rs1, rs2, next, taken, at, epi))
    ensures var ops, stay, go := Operands(rs1, rs2), SetPc(next), SetPc(taken);
            var b1 := at + |ops| + 1 + |stay|;
            var b2 := b1 + 1 + |go|;
            && Holds(code, at, ops) && Holds(code, at + |ops|, [BCond(cond, 2 + |stay|)])
            && Holds(code, at + |ops| + 1, stay + [B(epi - b1)]) && Holds(code, b1 + 1, go + [B(epi - b2)])
  {
    hide Holds, SetPc, Operands;
    var ops, stay, go := Operands(rs1, rs2), SetPc(next), SetPc(taken);
    var b1 := at + |ops| + 1 + |stay|;
    var b2 := b1 + 1 + |go|;
    var c, first, second := [BCond(cond, 2 + |stay|)], stay + [B(epi - b1)], go + [B(epi - b2)];
    assert Tail(cond, rs1, rs2, next, taken, at, epi) == ops + (c + (first + second));
    HoldsSplit(code, at, ops, c + (first + second));
    HoldsSplit(code, at + |ops|, c, first + second);
    HoldsSplit(code, at + |ops| + 1, first, second);
  }

  /** The same in terms of the interpreter: a guest state that the CPU structure mirrors before a
      branch is mirrored after the tail, at the interpreter's next state. */
  ghost predicate Mirrors<M>(h: Host, g: Interp.Guest<M>) {
    |h.slots| == 33 && (forall r :: 0 <= r < 32 ==> h.slots[r] == g.x[r]) && h.slots[PC_SLOT] == g.pc
  }

  lemma BranchAgrees<M>(env: Interp.Env<M>, g: Interp.Guest<M>, w: Interp.InsnWord, compressed: bool,
                        code: seq<nat>, h: Host, cond: Cond, epi: int)
    returns (n: nat)
    requires IsHost(h) && g.x[0] == 0 && (forall r :: 0 <= r < 32 ==> h.slots[r] == g.x[r])
    requires Interp.Opcode(w) == 0x63 && CondOfFunct3(Interp.Funct3(w)) == Some(cond)
             && -0x100_0000 <= epi - h.pos <= 0x100_0000
    requires var next := Plus(g.pc, Interp.Length(compressed));
             Holds(code, h.pos, Tail(cond, Interp.Rs1(w), Interp.Rs2(w), next, Plus(g.pc, Interp.ImmB(w)), h.pos, epi))
    ensures var step, h' := Interp.Execute(env, g, w, Plus(g.pc, Interp.Length(compressed))), Steps(code, h, n);
            step.Retire? && h'.pos == epi && Mirrors(h', step.g)
  {
    hide Holds, Steps, Tail, Interp.Taken, Interp.ImmB;
    var next, taken := Plus(g.pc, Interp.Length(compressed)), Plus(g.pc, Interp.ImmB(w));
    var rs1, rs2: Reg := Interp.Rs1(w), Interp.Rs2(w);
    n := TailReaches(code, h, Interp.Funct3(w), cond, rs1, rs2, next, taken, epi);
  }

  // Patching

  /** One step of the loop that redirects jumps from the placeholder target to the epilogue. */
  function PatchWord(w: nat, p: int, dummy: int, epi: int): nat {
    if w / 0x400_0000 == 5 && p + SignedField(w % 0x400_0000, 0x200_0000) == dummy then
      0x1400_0000 + (epi - p) % 0x400_0000
    else w
  }

  function Retarget(i: Instr, p: int, dummy: int, epi: int): Instr {
    if i.B? && p + i.off == dummy then B(epi - p) else i
  }

  /** On encoded words the loop does what it should: no other instruction looks like a jump. */
  lemma PatchRetargets(i: Instr, p: int, dummy: int, epi: int)
    requires Fits(i)
    ensures PatchWord(Encode(i), p, dummy, epi) == Encode(Retarget(i, p, dummy, epi))
  {
    hide Encode;
    RoundTrip(i);
    JumpWord(Encode(i));
    JumpEncoding(epi - p);
  }

  lemma JumpWord(w: nat)
    ensures w / 0x400_0000 == 5 <==> Decode(w).Some? && Decode(w).value.B?
    ensures w / 0x400_0000 == 5 ==> Decode(w) == Some(B(SignedField(w % 0x400_0000, 0x200_0000)))
  {
  }

  lemma JumpEncoding(off: int)
    ensures Encode(B(off)) == 0x1400_0000 + off % 0x400_0000
  {
  }

  lemma PlainStays(i: Instr, p: int, dummy: int, epi: int)
    requires Plain(i)
    ensures Retarget(i, p, dummy, epi) == i && Fits(i)
  {
  }

  lemma OperandsPlain(rs1: Reg, rs2: Reg)
    ensures forall k :: 0 <= k < |Operands(rs1, rs2)| ==> Plain(Operands(rs1, rs2)[k])
    ensures 3 <= |Operands(rs1, rs2)| <= 9
  {
    hide Operands, Plain, Straight;
    OperandsCompare(rs1, rs2, Host(seq(32, _ => 0), false, false, false, false, seq(33, _ => 0), 0));
  }

  lemma SetPcPlain(target: Word)
    ensures forall k :: 0 <= k < |SetPc(target)| ==> Plain(SetPc(target)[k])
    ensures 2 <= |SetPc(target)| <= 5
  {
    hide SetPc, Plain, Straight;
    SetPcSets(target, Host(seq(32, _ => 0), false, false, false, false, seq(33, _ => 0), 0));
  }

  /** A tail aimed at a placeholder at most 50 words ahead becomes the tail aimed at the epilogue. */
  lemma TailRetargets(cond: Cond, rs1: Reg, rs2: Reg, next: Word, taken: Word, at: nat, dummy: int, epi: int, k: nat)
    requires at <= dummy <= at + 50
    requires k < |Tail(cond, rs1, rs2, next, taken, at, dummy)|
    ensures |Tail(cond, rs1, rs2, next, taken, at, epi)| == |Tail(cond, rs1, rs2, next, taken, at, dummy)|
    ensures var before := Tail(cond, rs1, rs2, next, taken, at, dummy)[k];
            var after := Tail(cond, rs1, rs2, next, taken, at, epi)[k];
            Fits(before) && after == Retarget(before, at + k, dummy, epi)
  {
    hide Operands, SetPc, Plain, Retarget;
    var ops, stay, go := Operands(rs1, rs2), SetPc(next), SetPc(taken);
    OperandsPlain(rs1, rs2);
    SetPcPlain(next);
    SetPcPlain(taken);
    var n1 := |ops| + 1;
    var n2 := n1 + |stay| + 1;
    if k < |ops| {
      PlainStays(ops[k], at + k, dummy, epi);
    } else if k == |ops| {
      BCondStays(cond, 2 + |stay|, at + k, dummy, epi);
    } else if k < n1 + |stay| {
      PlainStays(stay[k - n1], at + k, dummy, epi);
    } else if k == n1 + |stay| {
      JumpMoves(at + k, dummy, epi);
    } else if k < n2 + |go| {
      PlainStays(go[k - n2], at + k, dummy, epi);
    } else {
      JumpMoves(at + k, dummy, epi);
    }
  }

  lemma BCondStays(cond: Cond, off: int, p: int, dummy: int, epi: int)
    requires -0x4_0000 <= off < 0x4_0000
    ensures Retarget(BCond(cond, off), p, dummy, epi) == BCond(cond, off) && Fits(BCond(cond, off))
  {
  }

  lemma JumpMoves(p: int, dummy: int, epi: int)
    requires -100 <= dummy - p <= 100
    ensures Retarget(B(dummy - p), p, dummy, epi) == B(epi - p) && Fits(B(dummy - p))
  {
  }

  // The emitter

  function EncodeAll(ins: seq<Instr>): (ws: seq<nat>)
    ensures |ws| == |ins|
    ensures forall k :: 0 <= k < |ins| ==> ws[k] == Encode(ins[k])
  {
    if ins == [] then [] else [Encode(ins[0])] + EncodeAll(ins[1..])
  }

  lemma EncodeAppend(a: seq<Instr>, b: seq<Instr>)
    ensures EncodeAll(a + b) == EncodeAll(a) + EncodeAll(b)
  {
    hide Encode;
  }

  class Emitter {
    const buf: array<nat>
    var off: nat

    constructor (capacity: nat)
      ensures fresh(buf) && buf.Length == capacity && off == 0
    {
      buf := new nat[capacity];
      off := 0;
    }

    ghost predicate Room(n: nat)
      reads this
    {
      off + n <= buf.Length
    }

    ghost function Code(): seq<nat>
      requires Room(0)
      reads this, buf
    {
      buf[..off]
    }

    /** A full buffer swallows the word. */
    method Emit(w: nat)
      requires Room(0)
      modifies this`off, buf
      ensures off == (if old(Room(1)) then old(off) + 1 else old(off))
      ensures buf[..] == old(if Room(1) then buf[..][off := w] else buf[..])
      ensures Room(0) && old(Room(1)) ==> Code() == old(Code()) + [w]
    {
      if off < buf.Length {
        buf[off] := w;
        off := off + 1;
      }
    }

    /** `emit_mov_imm64`. */
    method MovImm64(rd: Reg, imm: Word)
      requires Room(4) && rd != 31
      modifies this`off, buf
      ensures Room(0) && Code() == old(Code()) + EncodeAll(MovCode(rd, imm))
    {
      hide Piece, Encode, EncodeAll;
      var first := true;
      for s := 0 to 4
        invariant off <= old(off) + s && old(off) + 4 <= buf.Length
        invariant buf[..off] + EncodeAll(Pieces(rd, imm, s, first)) == old(buf[..off]) + EncodeAll(MovCode(rd, imm))
        invariant s == 4 ==> !first
      {
        var chunk := Piece(imm, s);
        if chunk != 0 || (s == 3 && first) {
          var i := if first then MovZ(rd, s, chunk) else MovK(rd, s, chunk);
          EncodeAppend([i], Pieces(rd, imm, s + 1, false));
          EncodeOne(i);
          Emit(Encode(i));
          first := false;
        }
      }
      EncodeNone();
    }

    method LoadGuestReg(rd: Reg, rs: Reg)
      requires Room(4) && rd != 31
      modifies this`off, buf
      ensures Room(0) && Code() == old(Code()) + EncodeAll(LoadGuest(rd, rs))
    {
      if rs == 0 {
        MovImm64(rd, 0);
      } else {
        EncodeOne(Ldr(rd, CPU_REG, rs));
        Emit(Encode(Ldr(rd, CPU_REG, rs)));
      }
    }

    method StorePc(target: Word)
      requires Room(5)
      modifies this`off, buf
      ensures Room(0) && Code() == old(Code()) + EncodeAll(SetPc(target))
    {
      hide Encode, EncodeAll;
      MovLength(0, target);
      MovImm64(0, target);
      EncodeOne(Str(0, CPU_REG, PC_SLOT));
      EncodeAppend(MovCode(0, target), [Str(0, CPU_REG, PC_SLOT)]);
      Emit(Encode(Str(0, CPU_REG, PC_SLOT)));
    }

    method LoadOperands(rs1: Reg, rs2: Reg)
      requires Room(9)
      modifies this`off, buf
      ensures Room(0) && Code() == old(Code()) + EncodeAll(Operands(rs1, rs2))
    {
      hide Encode, EncodeAll, LoadGuest;
      GuestLength(0, rs1);
      GuestLength(1, rs2);
      LoadGuestReg(0, rs1);
      LoadGuestReg(1, rs2);
      EncodeOne(Cmp(0, 1));
      EncodeAppend(LoadGuest(0, rs1), LoadGuest(1, rs2));
      EncodeAppend(LoadGuest(0, rs1) + LoadGuest(1, rs2), [Cmp(0, 1)]);
      Emit(Encode(Cmp(0, 1)));
    }

    /** `jit_branch`, aimed at an epilogue at `epi`: the conditional jump is filled in once the length of
        the fall-through path is known. A condition that does not exist leaves the operands behind. */
    method Branch(f3: Word, rs1: Reg, rs2: Reg, next: Word, taken: Word, epi: int) returns (ok: bool)
      requires Room(22)
      modifies this`off, buf
      ensures Room(0) && ok == CondOfFunct3(f3).Some?
      ensures Code() == old(Code())
                        + EncodeAll(if ok then Tail(CondOfFunct3(f3).value, rs1, rs2, next, taken, old(off), epi)
                                    else Operands(rs1, rs2))
    {
      hide Encode, EncodeAll, Operands, SetPc, CondOfFunct3, Tail;
      OperandsPlain(rs1, rs2);
      SetPcPlain(next);
      SetPcPlain(taken);
      LoadOperands(rs1, rs2);
      var c := CondOfFunct3(f3);
      if c.None? { return false; }
      Ways(c.value, next, taken, epi);
      EncodeTail(c.value, rs1, rs2, next, taken, old(off), epi);
      ok := true;
    }

    method ExitTo(target: Word, epi: int)
      requires Room(6)
      modifies this`off, buf
      ensures Room(0)
      ensures Code() == old(Code()) + EncodeAll(SetPc(target)) + [Encode(B(epi - (old(off) + |SetPc(target)|)))]
    {
      hide Encode, EncodeAll, SetPc;
      SetPcPlain(target);
      StorePc(target);
      Emit(Encode(B(epi - off)));
    }

    /** The conditional jump and both paths. */
    method Ways(cond: Cond, next: Word, taken: Word, epi: int)
      requires Room(13)
      modifies this`off, buf
      ensures Room(0)
      ensures var n, t := |SetPc(next)|, |SetPc(taken)|;
              Code() == old(Code()) + [Encode(BCond(cond, 2 + n))]
                        + EncodeAll(SetPc(next)) + [Encode(B(epi - (old(off) + 1 + n)))]
                        + EncodeAll(SetPc(taken)) + [Encode(B(epi - (old(off) + 1 + n + 1 + t)))]
    {
      hide Encode, EncodeAll, SetPc;
      SetPcPlain(next);
      SetPcPlain(taken);
      ghost var before := Code();
      ghost var stay := EncodeAll(SetPc(next)) + [Encode(B(epi - (off + 1 + |SetPc(next)|)))];
      var bcondOff := off;
      Emit(0);
      ExitTo(next, epi);
      Fill(bcondOff, Encode(BCond(cond, off - bcondOff)), before, stay);
      ExitTo(taken, epi);
    }

    /** The word that was left open. */
    method Fill(at: nat, w: nat, ghost before: seq<nat>, ghost after: seq<nat>)
      requires Room(0) && |before| == at && Code() == before + [0] + after
      modifies buf
      ensures Code() == before + [w] + after
    {
      buf[at] := w;
      assert Code() == old(Code())[at := w];
    }

    /** The loop over the words of the tail. */
    method PatchJumps(start: nat, epi: nat, dummy: nat)
      requires start <= epi <= buf.Length
      modifies buf
      ensures forall p :: start <= p < epi ==> buf[p] == PatchWord(old(buf[p]), p, dummy, epi)
      ensures forall p :: 0 <= p < buf.Length && !(start <= p < epi) ==> buf[p] == old(buf[p])
    {
      hide SignedField;
      for p := start to epi
        invariant forall q :: start <= q < p ==> buf[q] == PatchWord(old(buf[q]), q, dummy, epi)
        invariant forall q :: 0 <= q < buf.Length && !(start <= q < p) ==> buf[q] == old(buf[q])
      {
        var w := buf[p];
        if w / 0x400_0000 == 5 {
          var oldOff := SignedField(w % 0x400_0000, 0x200_0000);
          if p + oldOff == dummy {
            buf[p] := 0x1400_0000 + (epi - p) % 0x400_0000;
          }
        }
      }
    }

    method EmitWords(ws: seq<nat>)
      requires Room(|ws|)
      modifies this`off, buf
      ensures Room(0) && Code() == old(Code()) + ws
    {
      for k := 0 to |ws|
        invariant off == old(off) + k && off + |ws| - k <= buf.Length
        invariant Code() == old(Code()) + ws[..k]
      {
        Emit(ws[k]);
      }
    }

    /** The deferred branch of a block: tail aimed 50 words ahead, epilogue, patched jumps. What stands
        there afterwards is the tail aimed at the real epilogue, and the epilogue. */
    method FinishBranch(f3: Word, rs1: Reg, rs2: Reg, next: Word, taken: Word, epilogue: seq<nat>) returns (epi: nat)
      requires Room(22 + |epilogue|) && CondOfFunct3(f3).Some?
      modifies this`off, buf
      ensures Room(0) && epi + |epilogue| == off && buf[epi..off] == epilogue && old(off) <= epi
      ensures buf[..old(off)] == old(buf[..off])
      ensures Holds(buf[..], old(off), Tail(CondOfFunct3(f3).value, rs1, rs2, next, taken, old(off), epi))
      ensures epi == old(off) + |Tail(CondOfFunct3(f3).value, rs1, rs2, next, taken, old(off), epi)|
    {
      hide Encode, Tail, CondOfFunct3, PatchWord, Holds;
      var start := off;
      var dummy := off + 50;
      ghost var cond := CondOfFunct3(f3).value;
      epi := Unpatched(f3, rs1, rs2, next, taken, dummy, epilogue);
      ghost var unpatched := buf[..];
      PatchJumps(start, epi, dummy);
      PatchedTail(unpatched, buf[..], cond, rs1, rs2, next, taken, start, dummy, epi);
      assert buf[epi..off] == unpatched[epi..off];
      assert buf[..start] == unpatched[..start];
    }

    /** Tail and epilogue before the jumps are patched. */
    method Unpatched(f3: Word, rs1: Reg, rs2: Reg, next: Word, taken: Word, dummy: nat,
                     epilogue: seq<nat>) returns (epi: nat)
      requires Room(22 + |epilogue|) && CondOfFunct3(f3).Some?
      modifies this`off, buf
      ensures Room(0) && buf[..old(off)] == old(buf[..off]) && epi + |epilogue| == off && buf[epi..off] == epilogue
      ensures var tail := Tail(CondOfFunct3(f3).value, rs1, rs2, next, taken, old(off), dummy);
              epi == old(off) + |tail| && forall k :: 0 <= k < |tail| ==> buf[old(off) + k] == Encode(tail[k])
    {
      hide Encode, Tail, CondOfFunct3;
      ghost var start := off;
      ghost var tail := Tail(CondOfFunct3(f3).value, rs1, rs2, next, taken, start, dummy);
      TailLength(CondOfFunct3(f3).value, rs1, rs2, next, taken, start, dummy);
      var ok := Branch(f3, rs1, rs2, next, taken, dummy);
      epi := off;
      EmitWords(epilogue);
      ghost var code := Code();
      assert code == old(Code()) + EncodeAll(tail) + epilogue;
      forall k | 0 <= k < |tail|
        ensures code[start + k] == Encode(tail[k])
      {
        assert code[start + k] == EncodeAll(tail)[k];
      }
    }
  }

  lemma TailLength(cond: Cond, rs1: Reg, rs2: Reg, next: Word, taken: Word, at: int, epi: int)
    ensures 10 <= |Tail(cond, rs1, rs2, next, taken, at, epi)| <= 22
  {
    hide Operands, SetPc;
    OperandsPlain(rs1, rs2);
    SetPcPlain(next);
    SetPcPlain(taken);
  }

  lemma PatchedTail(code: seq<nat>, code': seq<nat>, cond: Cond, rs1: Reg, rs2: Reg, next: Word, taken: Word,
                    at: nat, dummy: nat, epi: nat)
    requires dummy == at + 50 && |code'| == |code|
             && epi == at + |Tail(cond, rs1, rs2, next, taken, at, dummy)| <= |code|
    requires var tail := Tail(cond, rs1, rs2, next, taken, at, dummy);
             forall k :: 0 <= k < |tail| ==> code[at + k] == Encode(tail[k])
    requires forall p :: at <= p < epi ==> code'[p] == PatchWord(code[p], p, dummy, epi)
    ensures Holds(code', at, Tail(cond, rs1, rs2, next, taken, at, epi))
    ensures |Tail(cond, rs1, rs2, next, taken, at, epi)| == |Tail(cond, rs1, rs2, next, taken, at, dummy)|
  {
    hide Encode, Tail, PatchWord, Retarget;
    var tail, tail' := Tail(cond, rs1, rs2, next, taken, at, dummy), Tail(cond, rs1, rs2, next, taken, at, epi);
    TailLength(cond, rs1, rs2, next, taken, at, dummy);
    TailRetargets(cond, rs1, rs2, next, taken, at, dummy, epi, 0);
    forall k | 0 <= k < |tail'|
      ensures code'[at + k] == Encode(tail'[k])
    {
      TailRetargets(cond, rs1, rs2, next, taken, at, dummy, epi, k);
      PatchRetargets(tail[k], at + k, dummy, epi);
      var p := at + k;
      assert code'[p] == PatchWord(code[p], p, dummy, epi);
    }
  }

  lemma EncodeTail(cond: Cond, rs1: Reg, rs2: Reg, next: Word, taken: Word, at: int, epi: int)
    ensures var ops, stay, go := Operands(rs1, rs2), SetPc(next), SetPc(taken);
            var b1 := at + |ops| + 1 + |stay|;
            var b2 := b1 + 1 + |go|;
            EncodeAll(Tail(cond, rs1, rs2, next, taken, at, epi))
            == EncodeAll(ops) + [Encode(BCond(cond, 2 + |stay|))] + EncodeAll(stay) + [Encode(B(epi - b1))]
               + EncodeAll(go) + [Encode(B(epi - b2))]
  {
    hide Operands, SetPc, Encode, EncodeAll;
    var ops, stay, go := Operands(rs1, rs2), SetPc(next), SetPc(taken);
    var b1 := at + |ops| + 1 + |stay|;
    var b2 := b1 + 1 + |go|;
    var c, j1, j2 := BCond(cond, 2 + |stay|), B(epi - b1), B(epi - b2);
    EncodeOne(c);
    EncodeOne(j1);
    EncodeOne(j2);
    EncodeAppend(ops, [c]);
    EncodeAppend(ops + [c], stay);
    EncodeAppend(ops + [c] + stay, [j1]);
    EncodeAppend(ops + [c] + stay + [j1], go);
    EncodeAppend(ops + [c] + stay + [j1] + go, [j2]);
  }

  lemma GuestLength(rd: Reg, rs: Reg)
    requires rd != 31
    ensures 1 <= |LoadGuest(rd, rs)| <= 4
  {
    MovLength(rd, 0);
  }

  lemma EncodeOne(i: Instr)
    ensures EncodeAll([i]) == [Encode(i)]
  {
  }

  lemma EncodeNone()
    ensures EncodeAll([]) == []
  {
  }

  lemma MovLength(rd: Reg, imm: Word)
    requires rd != 31
    ensures 1 <= |MovCode(rd, imm)| <= 4
  {
    MovCodeMoves(rd, imm, Host(seq(32, _ => 0), false, false, false, false, seq(33, _ => 0), 0));
  }
}
