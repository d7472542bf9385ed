/** Whole routines standing in memory: what the processor does with their bytes. */
module Routines {
  import opened Words
  import opened Isa
  import opened Storage
  import opened Machine
  import opened Syntax
  import opened Assembly
  import opened Simulation
  import opened Macros
  import opened Programs
  import opened Stack
  import opened Arithmetic
  import opened Execution

  // ----- calls -----

  /**
   * An LDCALL in an assembled image, a routine of any length that leaves RC alone and ends at a JMP RC whose
   * condition holds: control comes back to the instruction after the LDCALL.
   */
  lemma CallThenReturn(prog: seq<Stmt>, k: nat, j: nat, base: dword, s: Cpu, n: nat, later: Cpu, c: nibble)
    requires AllPass(prog) && Checked(prog) && k < |prog| && j < |prog|
    requires prog[k].LdJump? && prog[k].link && prog[j] == Label(prog[k].name) && OffsetAt(prog, j) == base
    requires Holding(s.mem, base, Direct(prog, Pass1(prog).labels)) && s.pos == base + Start(prog, k)
    requires Holds(prog[k].cond, s.regs[REG_FLGS])
    requires base + Start(prog, j) < DWORD_MODULUS
    requires Run(Landed(true, prog[k].reg, base + Start(prog, j), s), n) == Next(later)
    requires later.regs[REG_RC] == Landed(true, prog[k].reg, base + Start(prog, j), s).regs[REG_RC]
    requires InMemory(later.mem, later.pos, 4)
    requires WordAt(later.mem, later.pos) == Encode(Single(OP_JMP, c, Reg(REG_RC))) && Holds(c, later.regs[REG_FLGS])
    ensures Run(s, 3 + n + 1) == Next(Fetched(later).(pos := Wrap(s.pos + 12)))
  {
    hide Run, Checked, Direct, Pass1, Landed, Holds, Encode, OffsetAt, Start, AllPass, Holding;
    var landed := Landed(true, prog[k].reg, base + Start(prog, j), s);
    LandedLink(prog[k].reg, base + Start(prog, j), s);
    JumpReachesLabel(prog, k, j, base, s);
    RunSplit(s, 3, n + 1);
    RunSplit(landed, n, 1);
    ReturnStep(c, later);
  }

  lemma LandedLink(reg: nibble, v: dword, s: Cpu)
    ensures Landed(true, reg, v, s).regs[REG_RC] == Wrap(s.pos + 12)
  {
  }

  lemma ReturnStep(c: nibble, s: Cpu)
    requires InMemory(s.mem, s.pos, 4) && WordAt(s.mem, s.pos) == Encode(Single(OP_JMP, c, Reg(REG_RC)))
    requires Holds(c, s.regs[REG_FLGS])
    ensures Run(s, 1) == Next(Fetched(s).(pos := s.regs[REG_RC]))
  {
    hide Step, Holds, Encode;
    StepIsSourceStep(Single(OP_JMP, c, Reg(REG_RC)), s);
    OneStep(s);
  }

  lemma OneStep(s: Cpu)
    ensures Run(s, 1) == Step(s)
  {
    hide Step;
    assert Step(s).Next? ==> Run(Step(s).s, 0) == Step(s);
  }

  // ----- runs of PUSH and POP -----

  /** Code outside the stack's area is not hit by any PUSH or POP. */
  lemma {:induction false} StackFalls(ops: seq<StackOp>, s: Cpu, l: Lifo, base: dword, limit: nat)
    requires AvoidsSp(ops) && Spells(s, l, base) && 4 * limit <= base && |l.items| <= limit
    requires LifoRun(ops, l, limit).Some? && s.pos + 4 * |ops| <= |s.mem|
    requires s.pos + 4 * |ops| <= base + 4 - 4 * limit || base + 4 <= s.pos
    ensures FallsThrough(OpCodes(ops), s)
    decreases |ops|
  {
    hide SourceStep, Spells, WellFormed, InRange, PushCode, PopCode;
    if |ops| > 1 {
      var l' := LifoStep(ops[0], l).value;
      OneSpells(ops[0], s, l, base, limit);
      var s' := SourceStep(OpCode(ops[0]), s).s;
      assert OpCodes(ops)[1..] == OpCodes(ops[1..]) && OpCodes(ops)[0] == OpCode(ops[0]);
      FetchedKeeps(s);
      StackFalls(ops[1..], s', l', base, limit);
    }
  }

  /**
   * The bytes of any run of PUSH and POP, standing outside the stack's area, drive the processor as the
   * abstract stack says.
   */
  lemma PushPopRuns(ops: seq<StackOp>, s: Cpu, l: Lifo, base: dword, limit: nat)
    requires AvoidsSp(ops) && Spells(s, l, base) && 4 * limit <= base && |l.items| <= limit
    requires LifoRun(ops, l, limit).Some? && Placed(OpCodes(ops), s.pos, s.mem)
    requires s.pos + 4 * |ops| <= base + 4 - 4 * limit || base + 4 <= s.pos
    ensures var o := Run(s, |ops|);
            && o.Next? && Spells(o.s, LifoRun(ops, l, limit).value, base)
            && o.s == Advanced(s, |ops|).(regs := o.s.regs, mem := o.s.mem)
            && SameOutside(s.mem, o.s.mem, base, limit)
  {
    hide Run, Straight, Spells, LifoRun, SameOutside, FallsThrough, Advanced, Sound, Encode;
    StackFalls(ops, s, l, base, limit);
    StackRefinesLifo(ops, s, l, base, limit);
    RunStraight(OpCodes(ops), s);
  }

  // ----- multi-precision addition -----

  lemma {:induction false} CarryFalls(limbs: seq<nibble>, s: Cpu)
    requires REG_FLGS !in limbs
    ensures FallsThrough(CarryChain(limbs), s)
    decreases |limbs|
  {
    hide SourceStep, Carry, WellFormed, InRange;
    if |limbs| > 1 {
      AddCarryStep(limbs[0], s);
      assert CarryChain(limbs)[0] == AddCarry(limbs[0]) && CarryChain(limbs)[1..] == CarryChain(limbs[1..]);
      CarryFalls(limbs[1..], SourceStep(AddCarry(limbs[0]), s).s);
    }
  }

  lemma RippleFalls(limbs: seq<nibble>, y: nibble, s: Cpu)
    requires limbs != [] && REG_FLGS !in limbs
    ensures FallsThrough(RippleCode(limbs, y), s)
  {
    hide SourceStep, Carry, WellFormed, InRange;
    var first := Binary(OP_ADD, COND_ALWAYS, limbs[0], limbs[0], Reg(y));
    FirstAdd(limbs[0], y, s);
    assert RippleCode(limbs, y)[1..] == CarryChain(limbs[1..]) && RippleCode(limbs, y)[0] == first;
    CarryFalls(limbs[1..], SourceStep(first, s).s);
  }

  /** The bytes of the ripple-carry addition, wherever they stand, add to the whole number. */
  lemma RippleRuns(limbs: seq<nibble>, y: nibble, s: Cpu)
    requires limbs != [] && Distinct(limbs) && REG_FLGS !in limbs
    requires Placed(RippleCode(limbs, y), s.pos, s.mem)
    ensures var o := Run(s, |limbs|);
            && o.Next? && o.s == Advanced(s, |limbs|).(regs := o.s.regs)
            && Added(s.regs, o.s.regs, limbs, s.regs[y])
            && OthersKept(s.regs, o.s.regs, limbs)
  {
    hide Run, Straight, FallsThrough, Advanced, Sound, Encode, Added, OthersKept;
    RippleFalls(limbs, y, s);
    RippleAdd(limbs, y, s);
    RunStraight(RippleCode(limbs, y), s);
  }

  // ----- block moves -----

  function BlockMove(base: nibble, s: nibble, e: nibble, s2: nibble, e2: nibble): (code: seq<Source>)
    ensures AllSound(code)
  {
    [Many(OP_STOREMA, COND_ALWAYS, base, s * 0x10 + e), Many(OP_LOADMA, COND_ALWAYS, base, s2 * 0x10 + e2)]
  }

  lemma BlockMoveActual(base: nibble, s: nibble, e: nibble)
    ensures Actual(Many(OP_STOREMA, COND_ALWAYS, base, s * 0x10 + e)) == StoreMany(base, s, e)
    ensures Actual(Many(OP_LOADMA, COND_ALWAYS, base, s * 0x10 + e)) == LoadMany(base, s, e)
  {
  }

  /**
   * The bytes of STOREMA s:e and LOADMA s2:e2 through one base, when the stored dwords miss the second
   * instruction: registers s..e arrive in s2..e2, the base and all other registers are as before.
   */
  lemma BlockMoveRuns(base: nibble, s: nibble, e: nibble, s2: nibble, e2: nibble, c: Cpu)
    requires s <= e && e2 - s2 == e - s
    requires Placed(BlockMove(base, s, e, s2, e2), c.pos, c.mem)
    requires DoStoreMany(base, s, e, c).Next?
    requires forall i, k: nat :: c.pos + 4 <= i < c.pos + 8 && k as int <= e - s ==> !InSlot(c.regs[base], k, i)
    ensures var o := Run(c, 2);
            && o.Next? && o.s == Advanced(c, 2).(regs := o.s.regs, mem := DoStoreMany(base, s, e, c).s.mem)
            && Moved(c.regs, o.s.regs, base, s, e, s2, e2)
  {
    hide DoStoreMany, DoLoadMany, Moved, SourceStep, InSlot, Encode, Straight, WellFormed, InRange, FallsThrough, Run;
    BlockMoveStraight(base, s, e, s2, e2, c);
    BlockMoveFalls(base, s, e, s2, e2, c);
    RunStraight(BlockMove(base, s, e, s2, e2), c);
  }

  lemma BlockMoveStraight(base: nibble, s: nibble, e: nibble, s2: nibble, e2: nibble, c: Cpu)
    requires s <= e && e2 - s2 == e - s && DoStoreMany(base, s, e, c).Next?
    ensures var o := Straight(BlockMove(base, s, e, s2, e2), c);
            && o.Next? && o.s == Advanced(c, 2).(regs := o.s.regs, mem := DoStoreMany(base, s, e, c).s.mem)
            && Moved(c.regs, o.s.regs, base, s, e, s2, e2)
  {
    hide DoStoreMany, DoLoadMany, SourceStep, Moved, WellFormed, InRange;
    StoreStep(base, s, e, c);
    var code, c1 := BlockMove(base, s, e, s2, e2), DoStoreMany(base, s, e, Fetched(c)).s;
    StoreThenLoad(base, s, e, s2, e2, Fetched(c));
    LoadStep(base, s2, e2, c1);
    StraightOne(code[1], c1);
    assert code[1..] == [code[1]];
    FetchedTwice(c);
  }

  lemma BlockMoveFalls(base: nibble, s: nibble, e: nibble, s2: nibble, e2: nibble, c: Cpu)
    requires DoStoreMany(base, s, e, c).Next? && c.pos + 8 <= |c.mem|
    requires forall i, k: nat :: c.pos + 4 <= i < c.pos + 8 && k as int <= e - s ==> !InSlot(c.regs[base], k, i)
    ensures FallsThrough(BlockMove(base, s, e, s2, e2), c)
  {
    hide DoStoreMany, SourceStep, InSlot, WellFormed, InRange;
    StoreStep(base, s, e, c);
    var c1 := DoStoreMany(base, s, e, Fetched(c)).s;
    forall i | c.pos + 4 <= i < c.pos + 8
      ensures |c1.mem| == |c.mem| && c1.mem[i] == c.mem[i]
    {
      StoreMisses(base, s, e, c, i);
    }
    assert |c1.mem| == |c.mem| by { StoreMisses(base, s, e, c, c.pos + 4); }
  }

  lemma StoreStep(base: nibble, s: nibble, e: nibble, c: Cpu)
    requires DoStoreMany(base, s, e, c).Next?
    ensures var o := DoStoreMany(base, s, e, Fetched(c));
            && SourceStep(Many(OP_STOREMA, COND_ALWAYS, base, s * 0x10 + e), c) == o
            && o == Next(Fetched(c).(regs := o.s.regs, mem := DoStoreMany(base, s, e, c).s.mem))
  {
    BlockMoveActual(base, s, e);
    hide Actual, PushAll;
  }

  lemma LoadStep(base: nibble, s: nibble, e: nibble, c: Cpu)
    requires DoLoadMany(base, s, e, c).Next?
    ensures SourceStep(Many(OP_LOADMA, COND_ALWAYS, base, s * 0x10 + e), c) ==
            Next(Fetched(c).(regs := DoLoadMany(base, s, e, c).s.regs))
  {
    BlockMoveActual(base, s, e);
    hide Actual, PopAll;
  }

  lemma StoreMisses(base: nibble, s: nibble, e: nibble, c: Cpu, i: nat)
    requires DoStoreMany(base, s, e, Fetched(c)).Next? && i < |c.mem|
    requires forall k: nat :: k as int <= e - s ==> !InSlot(c.regs[base], k, i)
    ensures var m := DoStoreMany(base, s, e, Fetched(c)).s.mem; |m| == |c.mem| && m[i] == c.mem[i]
  {
    hide PushAll, InSlot;
    assert Perform(StoreMany(base, s, e), Fetched(c)) == DoStoreMany(base, s, e, Fetched(c));
    PerformFrame(StoreMany(base, s, e), Fetched(c), i);
  }
}
