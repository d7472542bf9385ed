/** What the pseudo-instructions mean when their expansions run. */
module Macros {
  import opened Words
  import opened Isa
  import opened Storage
  import opened Machine
  import opened Syntax
  import opened Assembly
  import opened Simulation

  /** Executing a list from front to back; a jump can only be its last instruction. */
  function Straight(code: seq<Source>, s: Cpu): Outcome
    requires AllSound(code)
    decreases |code|
  {
    if code == [] then Next(s)
    else
      var o := SourceStep(code[0], s);
      if o.Next? then Straight(code[1..], o.s) else o
  }

  /** Instructions that write registers only and go on to the next one. */
  predicate RegisterOnly(src: Source) {
    src.LoadI? || (src.Pair? && src.op == OP_XCHG)
  }

  /** After n fetches in a row. */
  function Advanced(s: Cpu, n: nat): Cpu {
    s.(pos := Wrap(s.pos + 4 * n), count := (s.count + n) % 0x1_0000_0000_0000_0000)
  }

  lemma RegisterOnlyStep(src: Source, s: Cpu)
    requires WellFormed(src) && RegisterOnly(src)
    ensures SourceStep(src, s).Next?
    ensures var s' := SourceStep(src, s).s;
            s' == Fetched(s).(regs := s'.regs)
  {
  }

  lemma LoadHalf(c: nibble, sub: nibble, v: word, s: Cpu)
    ensures SourceStep(LoadI(Word, c, sub, v), s) ==
            Next(Fetched(s).(regs := if Holds(c, s.regs[REG_FLGS]) then PutReg(Word, s.regs, sub, v) else s.regs))
  {
    hide Holds, PutReg;
  }

  lemma SwapStep(c: nibble, a: nibble, b: nibble, s: Cpu)
    ensures SourceStep(Pair(OP_XCHG, c, a, b), s) ==
            Next(Fetched(s).(regs := if Holds(c, s.regs[REG_FLGS]) then s.regs[a := s.regs[b]][b := s.regs[a]] else s.regs))
  {
    hide Holds;
  }

  lemma TwoHalves(regs: registers, reg: nibble, v: dword)
    requires reg <= REG_R7
    ensures PutReg(Word, PutReg(Word, regs, 2 * reg, v % 0x1_0000), 2 * reg + 1, v / 0x1_0000) == regs[reg := v]
  {
    var low := regs[reg] / 0x1_0000 * 0x1_0000 + v % 0x1_0000;
    DivModUnique(low, 0x1_0000, regs[reg] / 0x1_0000, v % 0x1_0000);
    assert (2 * reg) / 2 == reg && (2 * reg + 1) / 2 == reg && (2 * reg + 1) % 2 == 1;
    assert PutReg(Word, regs, 2 * reg, v % 0x1_0000) == regs[reg := low];
    assert regs[reg := low][reg := v] == regs[reg := v];
  }

  lemma FetchedNext(s: Cpu, n: nat)
    ensures Fetched(Advanced(s, n)) == Advanced(s, n + 1)
  {
    ModSum(s.pos + 4 * n, 4, DWORD_MODULUS);
    ModSum(s.count + n, 1, 0x1_0000_0000_0000_0000);
  }

  lemma AdvancedZero(s: Cpu)
    ensures Advanced(s, 0) == s
  {
  }

  lemma AdvancedAfter(s: Cpu, n: nat)
    ensures Advanced(Fetched(s), n) == Advanced(s, n + 1)
  {
    ModSum(s.pos + 4, 4 * n, DWORD_MODULUS);
    ModSum(s.count + 1, n, 0x1_0000_0000_0000_0000);
  }

  lemma FetchedTwice(s: Cpu)
    ensures Fetched(s) == Advanced(s, 1)
    ensures Fetched(Fetched(s)) == Advanced(s, 2)
  {
    FetchedNext(s, 1);
  }

  lemma ChainSound(c: nibble, reg: nibble, v: dword)
    requires reg <= REG_R7
    ensures AllSound(LoadChain(c, reg, v))
  {
  }

  /** The two-load chain sets its register to the value, or does nothing, and falls through. */
  lemma LoadChainMeaning(c: nibble, reg: nibble, v: dword, s: Cpu)
    requires reg <= REG_R7
    ensures AllSound(LoadChain(c, reg, v))
    ensures Straight(LoadChain(c, reg, v), s) ==
            Next(Advanced(s, 2).(regs := if Holds(c, s.regs[REG_FLGS]) then s.regs[reg := v] else s.regs))
  {
    hide Holds, SourceStep, PutReg, Sound;
    ChainSound(c, reg, v);
    var code := LoadChain(c, reg, v);
    LoadHalf(c, 2 * reg, v % 0x1_0000, s);
    var s1 := SourceStep(code[0], s).s;
    KeepsFlags(s.regs, 2 * reg, v % 0x1_0000);
    LoadHalf(c, 2 * reg + 1, v / 0x1_0000, s1);
    TwoHalves(s.regs, reg, v);
    FetchedTwice(s);
    assert code[1..] == [code[1]] && code[1..][1..] == [];
    StraightTwo(code[0], code[1], s);
  }

  lemma StraightTwo(x: Source, y: Source, s: Cpu)
    requires Sound(x) && Sound(y) && SourceStep(x, s).Next?
    ensures AllSound([x, y]) && Straight([x, y], s) == SourceStep(y, SourceStep(x, s).s)
  {
    hide SourceStep, WellFormed, InRange;
    var s1 := SourceStep(x, s).s;
    assert [x, y][1..] == [y] && [y][1..] == [];
    assert Straight([y], s1) == SourceStep(y, s1);
  }

  lemma KeepsFlags(regs: registers, sub: nibble, v: word)
    requires sub < 2 * REG_FLGS
    ensures PutReg(Word, regs, sub, v)[REG_FLGS] == regs[REG_FLGS]
  {
  }

  lemma {:induction false} StraightAppend(x: seq<Source>, y: seq<Source>, s: Cpu)
    requires AllSound(x) && AllSound(y)
    ensures AllSound(x + y)
    ensures Straight(x + y, s) == if Straight(x, s).Next? then Straight(y, Straight(x, s).s) else Straight(x, s)
    decreases |x|
  {
    hide SourceStep, WellFormed, InRange;
    if x == [] {
      assert x + y == y;
    } else {
      assert (x + y)[1..] == x[1..] + y;
      if SourceStep(x[0], s).Next? {
        StraightAppend(x[1..], y, SourceStep(x[0], s).s);
      }
    }
  }

  lemma StraightOne(x: Source, s: Cpu)
    requires Sound(x)
    ensures AllSound([x]) && Straight([x], s) == SourceStep(x, s)
  {
    hide SourceStep, WellFormed, InRange;
    assert [x][1..] == [];
  }

  lemma JumpStep(link: bool, c: nibble, reg: nibble, s: Cpu)
    ensures Sound(JumpCode(link, c, reg))
    ensures SourceStep(JumpCode(link, c, reg), s) ==
            Next(if Holds(c, s.regs[REG_FLGS]) then DoJump(link, Reg(reg), Fetched(s)) else Fetched(s))
  {
    hide Holds, DoJump;
  }

  /** The state after a jump or call to the address v held by a word-accessible register. */
  function Landed(link: bool, reg: nibble, v: dword, s: Cpu): Cpu {
    var regs := s.regs[reg := v];
    Advanced(s, 3).(regs := if link then regs[REG_RC := Wrap(s.pos + 12)] else regs, pos := v)
  }

  /**
   * LDCALL and LDJMP are all-or-nothing: control reaches the address and the register holds it (RC pointing
   * just past the CALL), or only the position moves past the three instructions.
   */
  lemma LdJumpMeaning(link: bool, c: nibble, reg: nibble, v: dword, s: Cpu)
    requires reg <= REG_R7
    ensures AllSound(LoadChain(c, reg, v) + [JumpCode(link, c, reg)])
    ensures Straight(LoadChain(c, reg, v) + [JumpCode(link, c, reg)], s) ==
            Next(if Holds(c, s.regs[REG_FLGS]) then Landed(link, reg, v, s) else Advanced(s, 3))
  {
    hide Holds, SourceStep, Straight, AllSound, LoadChain, JumpCode;
    LoadChainMeaning(c, reg, v, s);
    var s2 := Straight(LoadChain(c, reg, v), s).s;
    JumpStep(link, c, reg, s2);
    StraightOne(JumpCode(link, c, reg), s2);
    StraightAppend(LoadChain(c, reg, v), [JumpCode(link, c, reg)], s);
    FetchedNext(s, 2);
  }

  lemma SwapSound(c: nibble, reg: nibble)
    ensures Sound(Pair(OP_XCHG, c, REG_R7, reg))
  {
  }

  /** The registers that the four instructions of the detour leave. */
  function DetourRegs(c: nibble, reg: nibble, v: dword, regs: registers): registers {
    if !Holds(c, regs[REG_FLGS]) then regs
    else
      var swapped := regs[REG_R7 := regs[reg]][reg := regs[REG_R7]];
      if Holds(c, swapped[REG_FLGS]) then regs[reg := v] else swapped
  }

  lemma DetourRuns(c: nibble, reg: nibble, v: dword, s: Cpu)
    requires reg > REG_R7
    ensures AllSound(Load32Code(c, reg, v))
    ensures Straight(Load32Code(c, reg, v), s) == Next(Advanced(s, 4).(regs := DetourRegs(c, reg, v, s.regs)))
  {
    hide Holds, SourceStep, Straight, AllSound, LoadChain, Advanced, Fetched, DetourRegs;
    var swap, chain := Pair(OP_XCHG, c, REG_R7, reg), LoadChain(c, REG_R7, v);
    SwapSound(c, reg);
    SwapStep(c, REG_R7, reg, s);
    StraightOne(swap, s);
    var s1 := SourceStep(swap, s).s;
    LoadChainMeaning(c, REG_R7, v, s1);
    var s3 := Straight(chain, s1).s;
    SwapStep(c, REG_R7, reg, s3);
    StraightOne(swap, s3);
    StraightAppend([swap], chain, s);
    StraightAppend([swap] + chain, [swap], s);
    DetourFields(s, s1, s3);
    DetourSwaps(c, reg, v, s.regs);
  }

  lemma DetourFields(s: Cpu, s1: Cpu, s3: Cpu)
    requires s1 == Fetched(s).(regs := s1.regs) && s3 == Advanced(s1, 2).(regs := s3.regs)
    ensures s3.mem == s.mem && Fetched(s3) == Advanced(s, 4).(regs := s3.regs)
  {
    FetchedNext(s, 1);
    FetchedNext(s, 2);
    FetchedNext(s, 3);
    FetchedTwice(s);
    FetchedTwice(s1);
  }

  lemma DetourSwaps(c: nibble, reg: nibble, v: dword, regs: registers)
    requires reg > REG_R7
    ensures var r1 := if Holds(c, regs[REG_FLGS]) then regs[REG_R7 := regs[reg]][reg := regs[REG_R7]] else regs;
            var r3 := if Holds(c, r1[REG_FLGS]) then r1[REG_R7 := v] else r1;
            DetourRegs(c, reg, v, regs) ==
            if Holds(c, r3[REG_FLGS]) then r3[REG_R7 := r3[reg]][reg := r3[REG_R7]] else r3
  {
    hide Holds;
  }

  /** What LOAD32 is for: the register gets the value, nothing else but the position moves. */
  function Load32Goal(c: nibble, reg: nibble, v: dword, s: Cpu): Cpu {
    Advanced(s, |Load32Code(c, reg, v)|).(regs := if Holds(c, s.regs[REG_FLGS]) then s.regs[reg := v] else s.regs)
  }

  /**
   * LOAD32 reaches its goal for every register and value, except that a conditional load of FLGS whose
   * condition holds needs the condition to hold of R7 read as flags as well.
   */
  lemma Load32Meaning(c: nibble, reg: nibble, v: dword, s: Cpu)
    ensures AllSound(Load32Code(c, reg, v))
    ensures Straight(Load32Code(c, reg, v), s) == Next(Load32Goal(c, reg, v, s)) <==>
            (reg == REG_FLGS && Holds(c, s.regs[REG_FLGS]) ==> Holds(c, s.regs[REG_R7]))
  {
    hide Straight, AllSound, Holds;
    if reg <= REG_R7 {
      LoadChainMeaning(c, reg, v, s);
    } else {
      DetourRuns(c, reg, v, s);
      var swapped := s.regs[REG_R7 := s.regs[reg]][reg := s.regs[REG_R7]];
      if reg == REG_FLGS && Holds(c, s.regs[REG_FLGS]) && !Holds(c, s.regs[REG_R7]) {
        assert swapped[REG_FLGS] == s.regs[REG_R7] && swapped[REG_R7] == s.regs[REG_FLGS];
        assert s.regs[reg := v][REG_R7] == s.regs[REG_R7];
      }
    }
  }

  /** LOAD32IZ of FLGS, with Z the only flag set and R7 zero, misses its goal. */
  lemma Load32Fails(v: dword, s: Cpu)
    requires s.regs[REG_FLGS] == 1 && s.regs[REG_R7] == 0
    ensures AllSound(Load32Code(COND_IZ, REG_FLGS, v))
    ensures Straight(Load32Code(COND_IZ, REG_FLGS, v), s) != Next(Load32Goal(COND_IZ, REG_FLGS, v, s))
  {
    hide Straight, Load32Code, Load32Goal;
    Load32Meaning(COND_IZ, REG_FLGS, v, s);
  }
}
