/** What each statement of an assembled program leaves in memory, and what running it there does. */
module Statements {
  import opened Words
  import opened Isa
  import opened Storage
  import opened Machine
  import opened Syntax
  import opened Assembly
  import opened Simulation
  import opened Programs
  import opened Stack
  import opened Laws

  /** The image of an assembled program stands in memory from base on. */
  predicate Assembled(prog: seq<Stmt>, t: Labels, base: dword, m: memory) {
    AllPass(prog) && Holding(m, base, Direct(prog, t))
  }

  lemma CodeInMemory(prog: seq<Stmt>, t: Labels, base: dword, m: memory, k: nat)
    requires Assembled(prog, t, base, m) && k < |prog|
    ensures var p, c := base + Start(prog, k), Code(prog[k], Start(prog, k), t);
            p + |c| <= |m| && m[p..p + |c|] == c
  {
    hide Direct, Code, Start;
    CodeAt(prog, t, k);
    var c := Code(prog[k], Start(prog, k), t);
    SliceOfSlice(m, base, base + |Direct(prog, t)|, Start(prog, k), Start(prog, k) + |c|);
  }

  // ----- data -----

  /** A number read from memory, least significant byte first. */
  function Number16(m: memory, p: nat): nat
    requires p + 2 <= |m|
  {
    m[p] as int + 0x100 * m[p + 1] as int
  }

  function Number32(m: memory, p: nat): nat
    requires p + 4 <= |m|
  {
    m[p] as int + 0x100 * m[p + 1] as int + 0x1_0000 * m[p + 2] as int + 0x100_0000 * m[p + 3] as int
  }

  /** The processor's loads read these numbers. */
  lemma LoadReadsNumber(m: memory, p: dword)
    ensures InMemory(m, p, 2) ==> Load(Word, m, p) == Number16(m, p)
    ensures InMemory(m, p, 4) ==> Load(Dword, m, p) == Number32(m, p)
    ensures InMemory(m, p, 1) ==> Load(Byte, m, p) == m[p]
  {
  }

  /** .byte and .bytes leave their constants in consecutive bytes. */
  lemma BytesLaw(prog: seq<Stmt>, t: Labels, base: dword, m: memory, k: nat)
    requires Assembled(prog, t, base, m) && k < |prog| && (prog[k].DataByte? || prog[k].DataBytes?)
    ensures var p, bs := base + Start(prog, k), if prog[k].DataByte? then [prog[k].b] else prog[k].bs;
            p + |bs| <= |m| && forall i :: 0 <= i < |bs| ==> m[p + i] == bs[i]
  {
    hide Direct, Start;
    CodeInMemory(prog, t, base, m, k);
    var p, c := base + Start(prog, k), Code(prog[k], Start(prog, k), t);
    forall i | 0 <= i < |c|
      ensures m[p + i] == c[i]
    {
      assert m[p..p + |c|][i] == m[p + i];
    }
  }

  /** .word and .dword leave their number, as the processor's loads read it. */
  lemma NumbersLaw(prog: seq<Stmt>, t: Labels, base: dword, m: memory, k: nat)
    requires Assembled(prog, t, base, m) && k < |prog| && (prog[k].DataWord? || prog[k].DataDword?)
    ensures var p := base + Start(prog, k);
            if prog[k].DataWord? then p + 2 <= |m| && Number16(m, p) == prog[k].w && Load(Word, m, p) == prog[k].w
            else p + 4 <= |m| && Number32(m, p) == prog[k].d && Load(Dword, m, p) == prog[k].d
  {
    hide Direct, Start, ByteOf;
    CodeInMemory(prog, t, base, m, k);
    var p := base + Start(prog, k);
    if prog[k].DataWord? {
      UnbytesBytes(Word, prog[k].w);
      assert m[p..p + 2] == Bytes(Word, prog[k].w);
    } else {
      UnbytesBytes(Dword, prog[k].d);
      assert m[p..p + 4] == Bytes(Dword, prog[k].d);
    }
    LoadReadsNumber(m, p);
  }

  /** Where the next statement starts, by kind of statement. */
  lemma NextStart(prog: seq<Stmt>, k: nat)
    requires AllPass(prog) && k < |prog|
    ensures Start(prog, k + 1) == Start(prog, k) +
            match prog[k]
            case Instruction(_) => 4
            case Push(_, _) => 4
            case Pop(_, _) => 4
            case LoadAdr(_, _, _) => 8
            case LdJump(_, _, _, _) => 12
            case Load32(_, reg, _) => if reg <= REG_R7 then 8 else 16
            case Align(n, _) => AlignGap(Start(prog, k), n)
            case DataByte(_) => 1
            case DataBytes(bs) => |bs|
            case DataWord(_) => 2
            case DataDword(_) => 4
            case Label(_) => 0
            case Offset(_) => 0
  {
    hide Encode, AlignGap, Bytes;
    assert prog[..k + 1][..k] == prog[..k] && prog[..k + 1][k] == prog[k];
  }

  /** .align fills the gap with the low byte of its second operand. */
  lemma AlignLaw(prog: seq<Stmt>, t: Labels, base: dword, m: memory, k: nat, i: nat)
    requires Assembled(prog, t, base, m) && k < |prog| && prog[k].Align? && Start(prog, k) <= i < Start(prog, k + 1)
    ensures base + i < |m| && m[base + i] == prog[k].fill % 0x100
  {
    hide Direct, Start, AlignGap;
    CodeInMemory(prog, t, base, m, k);
    NextStart(prog, k);
    var p, c := base + Start(prog, k), Code(prog[k], Start(prog, k), t);
    assert m[p..p + |c|][i - Start(prog, k)] == m[base + i];
  }

  /** The offset in force begins with 4096 and is changed by .offset alone. */
  lemma OffsetLaw(prog: seq<Stmt>, k: nat)
    requires AllPass(prog) && k < |prog|
    ensures OffsetAt(prog, 0) == 4096
    ensures OffsetAt(prog, k + 1) == if prog[k].Offset? then prog[k].v else OffsetAt(prog, k)
  {
    assert prog[..0] == [];
    assert prog[..k + 1][..k] == prog[..k] && prog[..k + 1][k] == prog[k];
    StepOffset(prog[k], Pass1(prog[..k]));
    hide Pass1Step;
  }

  // ----- instructions -----

  /** Standing at an instruction of the program whose condition holds, the processor executes it. */
  lemma InstructionLaw(prog: seq<Stmt>, t: Labels, base: dword, k: nat, s: Cpu)
    requires Assembled(prog, t, base, s.mem) && k < |prog| && prog[k].Instruction? && s.pos == base + Start(prog, k)
    requires Holds(prog[k].src.cond, s.regs[REG_FLGS])
    ensures Executes(prog[k].src, s)
  {
    hide Direct, Start, Encode, Holds;
    CodeInMemory(prog, t, base, s.mem, k);
    assert Grammatical(prog[k]) && PassesAlone(prog[k]);
  }

  lemma StackCode(prog: seq<Stmt>, t: Labels, base: dword, k: nat, s: Cpu)
    requires Assembled(prog, t, base, s.mem) && k < |prog| && (prog[k].Push? || prog[k].Pop?)
    requires s.pos == base + Start(prog, k) && Holds(prog[k].cond, s.regs[REG_FLGS])
    ensures var op, r := if prog[k].Push? then OP_STOREMA else OP_LOADMA, prog[k].reg;
            Executes(Many(op, prog[k].cond, REG_SP, r * 0x10 + r), s)
  {
    hide Direct, Start, Encode, Holds;
    CodeInMemory(prog, t, base, s.mem, k);
  }

  /** PUSH stores its register where SP points and moves SP down by four. */
  lemma PushLaw(prog: seq<Stmt>, t: Labels, base: dword, k: nat, s: Cpu)
    requires Assembled(prog, t, base, s.mem) && k < |prog| && prog[k].Push? && s.pos == base + Start(prog, k)
    requires Holds(prog[k].cond, s.regs[REG_FLGS]) && InMemory(s.mem, s.regs[REG_SP], 4)
    ensures s.pos + 4 < 0x1_0000_0000
    ensures Step(s) == Next(Past(s).(mem := Store(Dword, s.mem, s.regs[REG_SP], s.regs[prog[k].reg]),
                                     regs := s.regs[REG_SP := (s.regs[REG_SP] as int - 4) % 0x1_0000_0000]))
  {
    hide Direct, Start, Executes, Step, Perform, Actual, Holds, Store, Assembled;
    StackCode(prog, t, base, k, s);
    var r: int := prog[k].reg;
    StepPerforms(Many(OP_STOREMA, prog[k].cond, REG_SP, r * 0x10 + r), s);
    PushActual(prog[k].cond, r);
    PushesOne(r, s);
  }

  lemma PushesOne(r: nibble, s: Cpu)
    requires InMemory(s.mem, s.regs[REG_SP], 4) && s.pos + 4 < 0x1_0000_0000
    ensures Perform(StoreMany(REG_SP, r, r), Past(s)) ==
            Next(Past(s).(mem := Store(Dword, s.mem, s.regs[REG_SP], s.regs[r]),
                          regs := s.regs[REG_SP := (s.regs[REG_SP] as int - 4) % 0x1_0000_0000]))
  {
    hide Store;
    assert Past(s) == Fetched(s);
    PushOneRegister(r, s);
    hide DoStoreMany;
  }

  /** POP moves SP up by four and loads its register from there; POP of SP keeps the moved SP. */
  lemma PopLaw(prog: seq<Stmt>, t: Labels, base: dword, k: nat, s: Cpu)
    requires Assembled(prog, t, base, s.mem) && k < |prog| && prog[k].Pop? && s.pos == base + Start(prog, k)
    requires Holds(prog[k].cond, s.regs[REG_FLGS]) && InMemory(s.mem, (s.regs[REG_SP] as int + 4) % 0x1_0000_0000, 4)
    ensures s.pos + 4 < 0x1_0000_0000
    ensures var sp := (s.regs[REG_SP] as int + 4) % 0x1_0000_0000;
            Step(s) == Next(Past(s).(regs := s.regs[prog[k].reg := Load(Dword, s.mem, sp)][REG_SP := sp]))
  {
    hide Direct, Start, Executes, Step, Perform, Actual, Holds, Load, Assembled;
    StackCode(prog, t, base, k, s);
    var r: int := prog[k].reg;
    StepPerforms(Many(OP_LOADMA, prog[k].cond, REG_SP, r * 0x10 + r), s);
    PopActual(prog[k].cond, r);
    PopsOne(r, s);
  }

  lemma PopsOne(r: nibble, s: Cpu)
    requires InMemory(s.mem, (s.regs[REG_SP] as int + 4) % 0x1_0000_0000, 4) && s.pos + 4 < 0x1_0000_0000
    ensures var sp := (s.regs[REG_SP] as int + 4) % 0x1_0000_0000;
            Perform(LoadMany(REG_SP, r, r), Past(s)) ==
            Next(Past(s).(regs := s.regs[r := Load(Dword, s.mem, sp)][REG_SP := sp]))
  {
    hide Load;
    assert Past(s) == Fetched(s);
    PopOneRegister(r, s);
    hide DoLoadMany;
  }

  /** LOAD32 in a program: its two or four steps set the register, but for the conditional load of FLGS that fails. */
  lemma Load32Law(prog: seq<Stmt>, t: Labels, base: dword, k: nat, s: Cpu)
    requires Assembled(prog, t, base, s.mem) && k < |prog| && prog[k].Load32? && s.pos == base + Start(prog, k)
    ensures var c, reg, v := prog[k].cond, prog[k].reg, prog[k].v;
            var n, runs := if reg <= REG_R7 then 2 else 4, Holds(c, s.regs[REG_FLGS]);
            Run(s, n) == Next(s.(pos := (s.pos + 4 * n) % 0x1_0000_0000, count := (s.count + n) % 0x1_0000_0000_0000_0000,
                                 regs := if runs then s.regs[reg := v] else s.regs)) <==>
            (reg == REG_FLGS && runs ==> Holds(c, s.regs[REG_R7]))
  {
    hide Direct, Start, Run, Holds, Placed;
    var c, reg, v := prog[k].cond, prog[k].reg, prog[k].v;
    StatementPlaced(prog, t, k, base, s.mem);
    assert Expand(prog[k], t) == Load32Code(c, reg, v);
    Load32Runs(c, reg, v, s);
  }
}
