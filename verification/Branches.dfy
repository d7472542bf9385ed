/** What comparisons, tests, jumps, calls and halts do when their bytes are executed. */
module Branches {
  import opened Words
  import opened Isa
  import opened Storage
  import opened Machine
  import opened Syntax
  import opened Arithmetic
  import opened Laws

  // ----- CMP -----

  /** Each condition code decides its order relation between x and y, unsigned or signed. */
  predicate Decides(f: dword, x: dword, y: dword) {
    && (Holds(COND_IZ, f) <==> x == y) && (Holds(COND_NZ, f) <==> x != y)
    && (Holds(COND_IC, f) <==> x < y) && (Holds(COND_NC, f) <==> x >= y)
    && (Holds(COND_IZIC, f) <==> x <= y) && (Holds(COND_NZNC, f) <==> x > y)
    && (Holds(COND_IS, f) <==> Signed32(x) < Signed32(y)) && (Holds(COND_NS, f) <==> Signed32(x) >= Signed32(y))
    && (Holds(COND_IZIS, f) <==> Signed32(x) <= Signed32(y)) && (Holds(COND_NZNS, f) <==> Signed32(x) > Signed32(y))
  }

  /** CMP of a register with a register or an immediate: Z, C and S compare the first with the second operand. */
  lemma CompareLaw(src: Source, s: Cpu)
    requires Executes(src, s) && ((src.Pair? && src.op == OP_CMP) || src.CompareWith?)
    ensures s.pos + 4 < 0x1_0000_0000 && Step(s).Next? && Sets(s, Step(s).s, REG_FLGS)
    ensures var f, x, y := Step(s).s.regs[REG_FLGS], s.regs[src.a], if src.Pair? then s.regs[src.r] else src.v;
            && (Bit(f, 0) <==> x == y) && (Bit(f, 1) <==> x < y) && (Bit(f, 4) <==> Signed32(x) < Signed32(y))
            && SameBut(s.regs[REG_FLGS], f, {0, 1, 4}) && Decides(f, x, y)
  {
    hide Executes, Step, Bit, SameBut, Signed32, Holds, Put, Perform, Actual;
    StepPerforms(src, s);
    var x, y := s.regs[src.a], if src.Pair? then s.regs[src.r] else src.v;
    CompareActs(src, Past(s));
    CompareBits(s.regs, x, y);
    CompareDecides(s.regs, x, y);
    ConditionBits(CompareResult(s.regs, x, y)[REG_FLGS]);
  }

  lemma CompareActs(src: Source, s: Cpu)
    requires WellFormed(src) && ((src.Pair? && src.op == OP_CMP) || src.CompareWith?)
    ensures var y := if src.Pair? then s.regs[src.r] else src.v;
            Perform(Actual(src), s) == Next(s.(regs := CompareResult(s.regs, s.regs[src.a], y)))
  {
    hide CompareResult;
  }

  lemma CompareBits(regs: registers, x: dword, y: dword)
    ensures var f := CompareResult(regs, x, y)[REG_FLGS];
            && (Bit(f, 0) <==> x == y) && (Bit(f, 1) <==> x < y) && (Bit(f, 4) <==> Signed32(x) < Signed32(y))
            && SameBut(regs[REG_FLGS], f, {0, 1, 4})
  {
    hide Bit, Put, Signed32;
    var r1 := WithFlag(regs, Z, x == y);
    var r2 := WithFlag(r1, C, x < y);
    OneFlag(regs, Z, x == y);
    OneFlag(r1, C, x < y);
    OneFlag(r2, S, Signed32(x) < Signed32(y));
  }

  // ----- TEST -----

  /** How many of the n low bits are one. */
  function OneBits(v: nat, n: nat): nat {
    if n == 0 then 0 else OneBits(v, n - 1) + if Bit(v, n - 1) then 1 else 0
  }

  lemma {:induction false} LowestFirst(v: nat, n: nat)
    requires n > 0
    ensures OneBits(v, n) == v % 2 + OneBits(v / 2, n - 1)
    decreases n
  {
    if n > 1 {
      LowestFirst(v, n - 1);
      assert Bit(v, n - 1) == Bit(v / 2, n - 2);
    } else {
      assert OneBits(v, 0) == 0 && OneBits(v / 2, 0) == 0;
    }
  }

  /** The bit count that halves its argument is the number of one bits. */
  lemma {:induction false} PopCountIsBits(v: nat, n: nat)
    requires v < Pow2(n)
    ensures PopCount(v) == OneBits(v, n)
    decreases n
  {
    PopCountHalve(v);
    if n > 0 {
      Pow2Step(n);
      hide Pow2, PopCount, OneBits;
      assert v == 2 * (v / 2) + v % 2;
      PopCountIsBits(v / 2, n - 1);
      LowestFirst(v, n);
    }
  }

  /** TEST of a register or an immediate: Z, S, E and P tell zero, sign, evenness and an odd number of one bits. */
  lemma TestLaw(src: Source, s: Cpu)
    requires Executes(src, s) && src.Single? && src.op == OP_TEST
    ensures s.pos + 4 < 0x1_0000_0000 && Step(s).Next? && Sets(s, Step(s).s, REG_FLGS)
    ensures var f, v := Step(s).s.regs[REG_FLGS], Second(src.t, s.regs);
            && (Bit(f, 0) <==> v == 0) && (Bit(f, 4) <==> v >= 0x8000_0000) && (Bit(f, 5) <==> v % 2 == 0)
            && (Bit(f, 3) <==> OneBits(v, 32) % 2 == 1) && SameBut(s.regs[REG_FLGS], f, {0, 3, 4, 5})
  {
    StepPerforms(src, s);
    var v := Second(src.t, s.regs);
    TestResultBits(s.regs, v);
    hide Executes, Step, Bit, SameBut, OneBits, TestResult;
    TestResultSets(s.regs, v);
  }

  lemma TestResultSets(regs: registers, v: dword)
    ensures TestResult(regs, v) == regs[REG_FLGS := TestResult(regs, v)[REG_FLGS]]
  {
    hide Put, PopCount;
  }

  lemma TestResultBits(regs: registers, v: dword)
    ensures var f := TestResult(regs, v)[REG_FLGS];
            && (Bit(f, 0) <==> v == 0) && (Bit(f, 4) <==> v >= 0x8000_0000) && (Bit(f, 5) <==> v % 2 == 0)
            && (Bit(f, 3) <==> OneBits(v, 32) % 2 == 1) && SameBut(regs[REG_FLGS], f, {0, 3, 4, 5})
  {
    Pow2Values();
    PopCountIsBits(v, 32);
    hide Bit, Put, PopCount, OneBits, Pow2;
    var r1 := WithFlag(regs, Z, v == 0);
    var r2 := WithFlag(r1, S, v >= 0x8000_0000);
    var r3 := WithFlag(r2, E, v % 2 == 0);
    OneFlag(regs, Z, v == 0);
    OneFlag(r1, S, v >= 0x8000_0000);
    OneFlag(r2, E, v % 2 == 0);
    OneFlag(r3, P, PopCount(v) % 2 == 1);
  }

  // ----- JMP and CALL -----

  /** Where a jump leads: to a register's value, or to the next instruction plus a signed 16-bit number. */
  function Target(src: Source, s: Cpu): int
    requires src.Single? && s.pos + 4 < 0x1_0000_0000
  {
    match src.t
    case Reg(r) => if src.op == OP_CALL && r == REG_RC then s.pos + 4 else s.regs[r]
    case Imm(v) => (s.pos + 4 + (if v < 0x8000 then v else v - 0x1_0000)) % 0x1_0000_0000
  }

  /** JMP and CALL, absolute and relative; CALL leaves the address of the next instruction in RC. */
  lemma JumpLaw(src: Source, s: Cpu)
    requires Executes(src, s) && src.Single? && (src.op == OP_JMP || src.op == OP_CALL)
    ensures s.pos + 4 < 0x1_0000_0000
    ensures 0 <= Target(src, s) < 0x1_0000_0000
    ensures Step(s) == Next(Past(s).(pos := Target(src, s),
                                     regs := if src.op == OP_CALL then s.regs[REG_RC := s.pos + 4] else s.regs))
  {
    hide Executes, Step, Perform, Actual;
    StepPerforms(src, s);
    JumpActs(src, Past(s));
  }

  lemma JumpActs(src: Source, s: Cpu)
    requires WellFormed(src) && src.Single? && src.op != OP_TEST
    ensures var to := match src.t
                      case Reg(r) => if src.op == OP_CALL && r == REG_RC then s.pos else s.regs[r]
                      case Imm(v) => (s.pos + (if v < 0x8000 then v else v - 0x1_0000)) % 0x1_0000_0000;
            && 0 <= to < 0x1_0000_0000
            && Perform(Actual(src), s) ==
               Next(s.(pos := to, regs := if src.op == OP_CALL then s.regs[REG_RC := s.pos] else s.regs))
  {
  }

  /** A relative jump forward by v, and at its target one back by v + 8, return to the start. */
  lemma ForthAndBack(c: nibble, d: nibble, v: word, s: Cpu)
    requires v + 8 <= 0x8000 && Executes(Single(OP_JMP, c, Imm(v)), s)
    requires s.pos + v + 8 <= |s.mem|
    requires s.mem[s.pos + 4 + v..s.pos + 8 + v] == Encode(Single(OP_JMP, d, Imm(0x1_0000 - (v + 8))))
    requires Holds(d, s.regs[REG_FLGS])
    ensures Run(s, 2) == Next(s.(count := (s.count + 2) % 0x1_0000_0000_0000_0000))
  {
    hide Encode, Holds, Step, Run, Executes, WellFormed, InRange;
    RelativeJump(c, v, s);
    var t := Step(s).s;
    BackInReach(d, v, s);
    RelativeJump(d, 0x1_0000 - (v + 8), t);
    TwoSteps(s);
    ModSum(s.count + 1, 1, 0x1_0000_0000_0000_0000);
  }

  lemma RelativeJump(c: nibble, v: word, s: Cpu)
    requires Executes(Single(OP_JMP, c, Imm(v)), s)
    ensures s.pos + 4 < 0x1_0000_0000
    ensures Step(s) == Next(Past(s).(pos := (s.pos + 4 + (if v < 0x8000 then v else v - 0x1_0000)) % 0x1_0000_0000))
  {
    JumpLaw(Single(OP_JMP, c, Imm(v)), s);
    hide Executes, Step;
  }

  lemma BackInReach(d: nibble, v: word, s: Cpu)
    requires v + 8 <= 0x8000 && s.pos + v + 8 <= |s.mem| && Holds(d, s.regs[REG_FLGS])
    requires s.mem[s.pos + 4 + v..s.pos + 8 + v] == Encode(Single(OP_JMP, d, Imm(0x1_0000 - (v + 8))))
    ensures forall t: Cpu :: t.mem == s.mem && t.regs == s.regs && t.pos == s.pos + 4 + v ==>
              Executes(Single(OP_JMP, d, Imm(0x1_0000 - (v + 8))), t)
  {
    hide Encode, Holds;
  }

  lemma TwoSteps(s: Cpu)
    requires Step(s).Next?
    ensures Run(s, 2) == Step(Step(s).s)
  {
    hide Step;
    var t := Step(s).s;
    assert Run(t, 1) == Step(t) by { assert Step(t).Next? ==> Run(Step(t).s, 0) == Step(t); }
  }

  // ----- the others -----

  /** STOP ends with 0, FAIL with its immediate, both one instruction further. */
  lemma HaltLaw(src: Source, s: Cpu)
    requires Executes(src, s) && ((src.Bare? && src.op == OP_STOP) || (src.Signal? && src.op == OP_FAIL))
    ensures s.pos + 4 < 0x1_0000_0000 && Step(s) == Done(Past(s), if src.Bare? then 0 else src.v)
  {
    hide Executes, Step;
    StepPerforms(src, s);
  }

  lemma RemovedActs(src: Source, s: Cpu)
    requires WellFormed(src)
    requires (src.Bare? && src.op == OP_IRET) || (src.Signal? && src.op == OP_INT) || src.System?
          || (src.Pair? && (src.op == OP_IN || src.op == OP_OUT))
    ensures Perform(Actual(src), s) == if src.Pair? then Device else Next(s)
  {
  }

  /** IRET, INT, LOADAS and STOREAS are skipped over; IN and OUT reach a device. */
  lemma RemovedLaw(src: Source, s: Cpu)
    requires Executes(src, s)
    requires (src.Bare? && src.op == OP_IRET) || (src.Signal? && src.op == OP_INT) || src.System?
          || (src.Pair? && (src.op == OP_IN || src.op == OP_OUT))
    ensures s.pos + 4 < 0x1_0000_0000 && Step(s) == if src.Pair? then Device else Next(Past(s))
  {
    hide Executes, Step, Actual, Perform;
    StepPerforms(src, s);
    RemovedActs(src, Past(s));
  }
}
