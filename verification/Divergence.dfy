/** The forms that are not executed as written or not as the manual says, each with a state that shows it. */
module Divergence {
  import opened Words
  import opened Isa
  import opened Storage
  import opened Encoding
  import opened Machine
  import opened Syntax
  import opened Manual

  /** Running the encoded instruction does in every state what its mnemonic and operands name. */
  ghost predicate ActsAsWritten(src: Source)
    requires WellFormed(src) && InRange(src)
  {
    forall s: Cpu :: Perform(Dispatch(Decode(Encode(src))), s) == Perform(Written(src), s)
  }

  /** MOD R0, R0, 1 ignores its immediate, but both readings leave zero in R0. */
  predicate Coincides(src: Source) {
    src.Binary? && src.op == OP_MOD && src.b == Imm(1) && src.dst == 0 && src.a == 0
  }

  /** An assembled instruction acts as written exactly when it is none of the divergent forms, or that one MOD. */
  lemma WrittenExactly(src: Source)
    requires WellFormed(src) && InRange(src)
    ensures ActsAsWritten(src) <==> !Diverges(src) || Coincides(src)
  {
    DispatchEncode(src);
    if Coincides(src) {
      ModOneCoincides(src);
    } else if Diverges(src) {
      var s := Witness(src);
      assert Perform(Dispatch(Decode(Encode(src))), s) != Perform(Written(src), s);
    }
  }

  const ZERO: registers := [0, 0, 0, 0, 0, 0, 0, 0, 0, 0, 0, 0, 0, 0, 0, 0]
  const ONE: registers := [1, 1, 1, 1, 1, 1, 1, 1, 1, 1, 1, 1, 1, 1, 1, 1]
  const CELLS: memory := [1, 0, 2, 0, 3, 0]

  function State(regs: registers, cregs: registers): Cpu {
    Cpu(regs, cregs, 0, CELLS, 0)
  }

  /** A state in which a divergent instruction shows itself. */
  lemma Witness(src: Source) returns (s: Cpu)
    requires WellFormed(src) && InRange(src) && Diverges(src) && !Coincides(src)
    ensures Perform(Dispatch(Decode(Encode(src))), s) != Perform(Written(src), s)
  {
    if src.XchgC? {
      s := ControlWitness(src);
    } else if src.Sex? {
      s := SexWitness(src);
    } else if src.LoadRd? {
      s := LoadWitness(src);
    } else {
      s := ModWitness(src);
    }
  }

  lemma ControlWitness(src: Source) returns (s: Cpu)
    requires src.XchgC? && src.cond != COND_ALWAYS && src.c != CREG_MR1
    ensures Perform(Dispatch(Decode(Encode(src))), s) != Perform(Written(src), s)
  {
    DecodeII(PREFIX_DWORD, src.cond, OP_XCHGC, 0, src.a, CREG_MR1);
    s := State(ZERO, ZERO[0 := 1]);
    assert Perform(ExchangeControl(src.a, 0), s).s.regs[src.a] == 1;
    assert Perform(ExchangeControl(src.a, src.c), s).s.regs[src.a] == 0;
  }

  lemma SexDispatch(src: Source)
    requires src.Sex? && WellFormed(src)
    ensures Dispatch(Decode(Encode(src))) ==
            Extend(src.size, src.a, if src.size == Byte then 4 * src.sub else 2 * src.sub)
    ensures Written(src) == Extend(src.size, src.a, src.sub)
  {
    DecodeII(SizePrefix(src.size), src.cond, OP_SEX, 0, src.a, src.sub);
  }

  lemma ExtendEffect(size: Size, a: nibble, view: nat, s: Cpu, v: byte)
    requires size != Dword && view < Views(size) && GetReg(size, s.regs, view) == v && v < 0x80
    ensures Perform(Extend(size, a, view), s) == Next(s.(regs := s.regs[a := v]))
  {
  }

  lemma SexViews(size: Size, sub: nibble)
    requires size != Dword && sub != 0
    ensures var view := if size == Byte then 4 * sub else 2 * sub;
            view < Views(size) && GetReg(size, ZERO[sub := 1], view) == 1
    ensures sub < Views(size) && GetReg(size, ZERO[sub := 1], sub) == 0
  {
  }

  lemma SexWitness(src: Source) returns (s: Cpu)
    requires src.Sex? && WellFormed(src) && src.sub != 0
    ensures Perform(Dispatch(Decode(Encode(src))), s) != Perform(Written(src), s)
  {
    s := State(ZERO[src.sub := 1], ZERO);
    var view := if src.size == Byte then 4 * src.sub else 2 * src.sub;
    SexViews(src.size, src.sub);
    hide Perform, Dispatch, Written, Decode, Encode, GetReg;
    SexDispatch(src);
    ExtendEffect(src.size, src.a, view, s, 1);
    ExtendEffect(src.size, src.a, src.sub, s, 0);
    assert s.regs[src.a := 1][src.a] != s.regs[src.a := 0][src.a];
  }

  lemma Cells()
    ensures Load(Word, CELLS, 0) == 1 && Load(Word, CELLS, 2) == 2 && Load(Word, CELLS, 4) == 3
  {
    assert CELLS[0..2] == [1, 0] && CELLS[2..4] == [2, 0] && CELLS[4..6] == [3, 0];
  }

  lemma LoadDispatch(src: Source)
    requires src.LoadRd? && src.size == Word && src.cond != COND_ALWAYS
    ensures Dispatch(Decode(Encode(src))) == LoadMem(Word, 0, src.base, Reg(0))
    ensures Written(src) == LoadMem(Word, src.sub, src.base, Reg(src.off))
  {
    DecodeII(PREFIX_WORD, src.cond, OP_LOADRD, 0, src.base, 0);
  }

  lemma LoadWitness(src: Source) returns (s: Cpu)
    requires src.LoadRd? && src.size == Word && src.cond != COND_ALWAYS && !(src.sub == 0 && src.off == 0)
    ensures Perform(Dispatch(Decode(Encode(src))), s) != Perform(Written(src), s)
  {
    hide Load, Perform, Dispatch, Written, Decode, Encode, PutReg, GetReg;
    LoadDispatch(src);
    Cells();
    if src.sub != 0 {
      s := State(ZERO, ZERO);
      LoadsWord(0, src.base, 0, s, 0, 1);
      LoadsWord(src.sub, src.base, src.off, s, 0, 1);
      LowWord(s.regs, 1);
      OtherWord(src.sub);
    } else if src.base == src.off {
      s := State(ZERO[src.off := 2], ZERO);
      LoadsWord(0, src.base, 0, s, 2, 2);
      LoadsWord(0, src.base, src.off, s, 4, 3);
      LowWord(s.regs, 2);
      LowWord(s.regs, 3);
    } else {
      s := State(ZERO[src.off := 2], ZERO);
      LoadsWord(0, src.base, 0, s, 0, 1);
      LoadsWord(0, src.base, src.off, s, 2, 2);
      LowWord(s.regs, 1);
      LowWord(s.regs, 2);
    }
  }

  lemma OtherWord(sub: nibble)
    requires sub != 0
    ensures GetReg(Word, PutReg(Word, ZERO, sub, 1), 0) == 0
  {
  }

  lemma LowWord(regs: registers, v: word)
    ensures GetReg(Word, PutReg(Word, regs, 0, v), 0) == v
  {
  }

  lemma LoadsWord(sub: nibble, base: nibble, off: nibble, s: Cpu, addr: dword, v: word)
    requires s.mem == CELLS && addr <= 4 && Address(base, Reg(off), s.regs) == addr && Load(Word, CELLS, addr) == v
    ensures Perform(LoadMem(Word, sub, base, Reg(off)), s) == Next(s.(regs := PutReg(Word, s.regs, sub, v)))
  {
    hide Load, PutReg;
  }

  lemma ModDispatch(src: Source)
    requires src.Binary? && src.op == OP_MOD && src.b.Imm? && InRange(src)
    ensures Dispatch(Decode(Encode(src))) == Alu(Mod, src.dst, src.a, Reg(src.b.v / 0x100))
    ensures Written(src) == Alu(Mod, src.dst, src.a, src.b)
  {
    DecodeIII(PREFIX_IMM, src.cond, OP_MOD, src.dst, src.a, src.b.v);
  }

  lemma ModEffect(dst: nibble, a: nibble, b: Operand, s: Cpu)
    ensures var m := Eval(b, s.regs);
            Perform(Alu(Mod, dst, a, b), s) == Next(s.(regs := if m == 0 then s.regs else s.regs[dst := s.regs[a] % m]))
  {
  }

  lemma ModWitness(src: Source) returns (s: Cpu)
    requires src.Binary? && src.op == OP_MOD && src.b.Imm? && InRange(src) && !Coincides(src)
    ensures Perform(Dispatch(Decode(Encode(src))), s) != Perform(Written(src), s)
  {
    hide Perform, Dispatch, Written, Decode, Encode;
    ModDispatch(src);
    var v, opb: nibble := src.b.v, src.b.v / 0x100;
    if v == 0 {
      s := State(ONE, ZERO);
    } else if opb != src.a {
      s := State(ZERO[src.a := v][opb := v + 1], ZERO);
      DivModUnique(v, v + 1, 0, v);
      DivModUnique(v, v, 1, 0);
    } else if v != 1 {
      s := State(ZERO[src.a := 1], ZERO);
      DivModUnique(1, v, 0, 1);
    } else {
      s := State(ZERO[src.dst := 1], ZERO);
    }
    ModEffect(src.dst, src.a, Reg(opb), s);
    ModEffect(src.dst, src.a, src.b, s);
    assert (Perform(Alu(Mod, src.dst, src.a, Reg(opb)), s).s.regs[src.dst])
        != Perform(Alu(Mod, src.dst, src.a, src.b), s).s.regs[src.dst];
  }

  lemma ModOneCoincides(src: Source)
    requires Coincides(src)
    ensures InRange(src) && ActsAsWritten(src)
  {
    ModDispatch(src);
    hide Perform, Dispatch, Written, Decode, Encode;
    forall s: Cpu
      ensures Perform(Dispatch(Decode(Encode(src))), s) == Perform(Written(src), s)
    {
      ModEffect(0, 0, Reg(0), s);
      ModEffect(0, 0, Imm(1), s);
      if s.regs[0] != 0 {
        DivModUnique(s.regs[0], s.regs[0], 1, 0);
      }
      DivModUnique(s.regs[0], 1, s.regs[0], 0);
    }
  }

  // ----- the manual in every state -----

  /** The instructions that meet the manual in every state. */
  predicate NeverFails(src: Source) {
    match src
    case Binary(op, _, _, _, b) => Divides(op) ==> b.Imm? && (op == OP_MOD || b.v != 0)
    case Single(_, _, _) => true
    case Pair(op, _, _, _) => op != OP_IN && op != OP_OUT
    case CompareWith(_, _, _) => true
    case LoadI(_, _, _, _) => true
    case Mov(_, _, _, _) => true
    case Sex(_, _, _, sub) => sub == 0
    case Many(_, _, _, range) => Low(range) > High(range)
    case LoadId(size, _, _, _, v) => size == Byte && v == 0
    case StoreId(size, _, _, _, v) => size == Byte && v == 0
    // twice a register is even and never leaves 32 bits when one summand is signed
    case LoadRd(size, _, _, base, off) => size != Dword && base == off && !Misencoded(src)
    case StoreRd(size, _, base, _, off) => size != Dword && base == off
    case _ => false
  }

  /** An instruction meets the manual in every state if and only if it is one of these. */
  lemma MeetsInEveryState(src: Source)
    requires WellFormed(src) && InRange(src)
    ensures (forall s: Cpu :: Meets(src, s)) <==> NeverFails(src)
  {
    hide Meets, NeverFails, Executable;
    if NeverFails(src) {
      forall s: Cpu
        ensures Meets(src, s)
      {
        AlwaysExecutable(src, s);
        MeetsManual(src, s);
      }
    } else {
      var s := FailingState(src);
    }
  }

  lemma AlwaysExecutable(src: Source, s: Cpu)
    requires WellFormed(src) && NeverFails(src)
    ensures Executable(src, s)
  {
  }

  /** For every other instruction, a state in which the code fails the manual. */
  lemma FailingState(src: Source) returns (s: Cpu)
    requires WellFormed(src) && InRange(src) && !NeverFails(src)
    ensures !Meets(src, s)
  {
    hide Meets, Executable, NeverFails;
    s := NotExecutable(src);
    MeetsManual(src, s);
  }

  lemma NotExecutable(src: Source) returns (s: Cpu)
    requires WellFormed(src) && !NeverFails(src)
    ensures !Executable(src, s)
  {
    hide GetReg, Reaches, LoadsAlike, Load;
    s := Cpu(ZERO, ZERO, 0, [], 0);
    match src {
      case Sex(size, _, _, sub) =>
        SexViews(size, sub);
        s := State(ZERO[sub := 1], ZERO);
      case Many(_, _, base, _) => s := State(ONE, ZERO);
      case CmpXchg(_, _, _, _) => s := State(ONE, ZERO);
      case LoadId(size, _, _, base, v) => s := Displaced(size, base, v);
      case StoreId(size, _, base, _, v) => s := Displaced(size, base, v);
      case StoreRd(size, _, base, _, off) => s := DisplacedBy(size, base, off);
      case LoadRd(size, _, sub, base, off) =>
        if base != off || size == Dword {
          s := DisplacedBy(size, base, off);
        } else {
          s := LostOperand(sub, off);
        }
      case _ =>
    }
  }

  /** An address that overflows, or one that is odd. */
  lemma Displaced(size: Size, base: nibble, v: word) returns (s: Cpu)
    requires !(size == Byte && v == 0)
    ensures !Reaches(size, Address(base, Imm(v), s.regs))
  {
    if size == Byte {
      s := State(ZERO[base := DWORD_MAX], ZERO);
    } else if v % 2 == 0 {
      s := State(ONE, ZERO);
      OddMisses(size, v + 1);
    } else {
      s := State(ZERO, ZERO);
      OddMisses(size, v);
    }
  }

  lemma DisplacedBy(size: Size, base: nibble, off: nibble) returns (s: Cpu)
    requires base != off || size == Dword
    ensures !Reaches(size, Address(base, Reg(off), s.regs))
  {
    s := State(if base == off then ONE else ZERO[off := DWORD_MAX], ZERO);
  }

  lemma OddMisses(size: Size, addr: nat)
    requires size != Byte && addr % 2 == 1
    ensures !OnBoundary(size, addr)
  {
  }

  lemma LostOperand(sub: nibble, off: nibble) returns (s: Cpu)
    requires !(sub == 0 && off == 0)
    ensures InRange32(Address(off, Reg(off), s.regs))
    ensures !LoadsAlike(sub, Address(off, Reg(0), s.regs), Address(off, Reg(off), s.regs), s)
  {
    Cells();
    hide Load;
    s := State(if sub != 0 then ZERO else ZERO[off := 2], ZERO);
  }
}
