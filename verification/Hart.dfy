/**
 `rv64_step` as the source runs it: registers, pc and memory are updated in place, and the pc last.
 Each instruction leaves the state that the specification in `Interp` gives.
 */
module Hart {
  import opened Words
  import opened Interp

  /** How a step ended; a trap is reported, not yet taken. */
  datatype Ended = Retired | Trapped(cause: Word, tval: Word) | TrapDelivered | NotModelled

  ghost predicate Agrees<M>(r: Ended, g: Guest<M>, a: Attempt<M>) {
    match a
    case Retire(g') => r == Retired && g == g'
    case Raise(g', cause, tval) => r == Trapped(cause, tval) && g == g'
    case Delivered(g') => r == TrapDelivered && g == g'
    case Elsewhere(g') => r == NotModelled && g == g'
  }

  class Cpu<M> {
    const x: array<Word>
    var pc: Word
    var nextPc: Word
    var mem: M

    constructor (pc: Word, mem: M)
      ensures fresh(x) && x.Length == 32 && x[..] == seq(32, _ => 0) && this.pc == pc && this.mem == mem
    {
      x := new Word[32](_ => 0);
      this.pc, this.nextPc, this.mem := pc, pc, mem;
    }

    ghost function Now(): Guest<M>
      requires x.Length == 32
      reads this, x
    {
      Guest(x[..], pc, mem)
    }

    /** The macro `WR`. */
    method WriteReg(rd: RegIndex, v: Word)
      requires x.Length == 32
      modifies x
      ensures x[..] == Write(old(x[..]), rd, v)
    {
      x[rd] := v;
      x[0] := 0;
    }

    /** One iteration of the interpreter. */
    method Step(env: Env<M>) returns (r: Ended)
      requires x.Length == 32
      modifies this, x
      ensures Agrees(r, Now(), Interp.Step(env, old(Now())))
    {
      hide Execute;
      var fetched := env.fetch(pc);
      match fetched {
        case FetchFault(exc) => return Trapped(exc, pc);
        case BadCompressed(half) => return Trapped(ILLEGAL, half);
        case Insn(w, compressed, _) =>
          nextPc := Plus(pc, Length(compressed));
          r := Dispatch(env, w);
          if r == Retired {
            pc := nextPc;
          }
      }
    }

    /** The state once the pc advances, if it does. */
    ghost function Advanced(r: Ended): Guest<M>
      requires x.Length == 32
      reads this, x
    {
      if r == Retired then Now().(pc := nextPc) else Now()
    }

    method Dispatch(env: Env<M>, w: InsnWord) returns (r: Ended)
      requires x.Length == 32
      modifies this, x
      ensures Agrees(r, Advanced(r), Execute(env, old(Now()), w, old(nextPc)))
    {
      hide Alu, AluImm, AluImm32, Op64, Op32, ImmU, ImmI, ImmJ, ImmB, Taken, Opcode, Funct3, Funct7, StepLoad,
           StepStore, StepFp,
           Write, Bits;
      var op, f3, f7, rd := Opcode(w), Funct3(w), Funct7(w), Rd(w);
      r := Retired;
      if op == 0x37 {
        WriteReg(rd, ImmU(w));
      } else if op == 0x17 {
        WriteReg(rd, Plus(pc, ImmU(w)));
      } else if op == 0x6f {
        WriteReg(rd, nextPc);
        nextPc := Plus(pc, ImmJ(w));
      } else if op == 0x67 {
        var target := Bits(BitAnd, Plus(x[Rs1(w)], ImmI(w)), TWO_64 - 2);
        WriteReg(rd, nextPc);
        nextPc := target;
      } else if op == 0x63 {
        r := Branch(w);
      } else if op == 0x03 {
        r := Load(env, w);
      } else if op == 0x23 {
        r := Store(env, w);
      } else if op == 0x13 {
        WriteReg(rd, AluImm(w, x[Rs1(w)]));
      } else if op == 0x33 || op == 0x1b || op == 0x3b {
        r := Arithmetic(env, w);
      } else if IsFp(op) {
        r := FloatingPoint(env, w);
      } else {
        r := NotModelled;
      }
    }

    method Branch(w: InsnWord) returns (r: Ended)
      requires x.Length == 32
      modifies this`nextPc
      ensures var f3, a, b := Funct3(w), x[Rs1(w)], x[Rs2(w)];
              if f3 == 2 || f3 == 3 then r == Trapped(ILLEGAL, w) && nextPc == old(nextPc)
              else r == Retired && nextPc == if Taken(f3, a, b) then Plus(pc, ImmB(w)) else old(nextPc)
    {
      var a, b := x[Rs1(w)], x[Rs2(w)];
      var take := false;
      match Funct3(w) {
        case 0 => take := a == b;
        case 1 => take := a != b;
        case 4 => take := SignedLess(a, b);
        case 5 => take := !SignedLess(a, b);
        case 6 => take := a < b;
        case 7 => take := a >= b;
        case _ => return Trapped(ILLEGAL, w);
      }
      if take {
        nextPc := Plus(pc, ImmB(w));
      }
      r := Retired;
    }

    method Load(env: Env<M>, w: InsnWord) returns (r: Ended)
      requires x.Length == 32
      modifies this`mem, x
      ensures Agrees(r, Advanced(r), StepLoad(env, old(Now()), w, nextPc))
    {
      hide ImmI, S8, S16, S32, Write;
      var f3, addr := Funct3(w), Plus(x[Rs1(w)], ImmI(w));
      if f3 == 7 { return Trapped(ILLEGAL, w); }
      var a := env.load(mem, addr, Size(f3));
      mem := a.mem;
      if a.exc != 0 { return Trapped(a.exc, addr); }
      WriteReg(Rd(w), Loaded(f3, a.val));
      r := Retired;
    }

    method Store(env: Env<M>, w: InsnWord) returns (r: Ended)
      requires x.Length == 32
      modifies this`mem
      ensures Agrees(r, Advanced(r), StepStore(env, old(Now()), w, nextPc))
    {
      hide ImmS;
      var f3, addr, val := Funct3(w), Plus(x[Rs1(w)], ImmS(w)), x[Rs2(w)];
      if f3 >= 4 { return Trapped(ILLEGAL, w); }
      var a := env.store(mem, addr, Size(f3), val);
      mem := a.mem;
      r := if a.exc != 0 then Trapped(a.exc, addr) else Retired;
    }

    /** Register arithmetic and the 32-bit forms. */
    method Arithmetic(env: Env<M>, w: InsnWord) returns (r: Ended)
      requires x.Length == 32 && (Opcode(w) == 0x33 || Opcode(w) == 0x1b || Opcode(w) == 0x3b)
      modifies x
      ensures Agrees(r, Advanced(r), Execute(env, old(Now()), w, nextPc))
    {
      hide Op64, Op32, AluImm32, Opcode, Funct3, Write;
      var op, rd, a, b := Opcode(w), Rd(w), x[Rs1(w)], x[Rs2(w)];
      r := Retired;
      if op == 0x33 {
        var v := Op64(w, a, b);
        if v.None? { return NotModelled; }
        WriteReg(rd, v.value);
      } else if op == 0x3b {
        match Op32(w, a, b) {
          case Value(v) => WriteReg(rd, v);
          case Illegal => return Trapped(ILLEGAL, w);
          case Undefined => return NotModelled;
        }
      } else {
        var v := AluImm32(w, a);
        if v.None? { return Trapped(ILLEGAL, w); }
        WriteReg(rd, v.value);
      }
    }

    method FloatingPoint(env: Env<M>, w: InsnWord) returns (r: Ended)
      requires x.Length == 32
      modifies this, x
      ensures nextPc == old(nextPc)
      ensures Agrees(r, Advanced(r), StepFp(env, old(Now()), w, nextPc))
    {
      var out := env.fp(Guest(x[..], pc, mem), w);
      match out {
        case FpOk(g) => Become(g); r := Retired;
        case FpIllegal(g) => Become(g); r := Trapped(ILLEGAL, w);
        case FpTrapped(g) => Become(g); r := TrapDelivered;
      }
    }

    method Become(g: Guest<M>)
      requires x.Length == 32
      modifies this, x
      ensures Now() == g && nextPc == old(nextPc)
    {
      pc, mem := g.pc, g.mem;
      forall i | 0 <= i < 32 {
        x[i] := g.x[i];
      }
    }
  }
}
