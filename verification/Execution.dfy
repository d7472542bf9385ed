/** Whole runs: composition, the instruction count, and single stepping against free running. */
module Execution {
  import opened Words
  import opened Isa
  import opened Storage
  import opened Encoding
  import opened Machine

  /** A run of m + n steps is a run of m steps continued for n. */
  lemma {:induction false} RunSplit(s: Cpu, m: nat, n: nat)
    ensures Run(s, m + n) == if Run(s, m).Next? then Run(Run(s, m).s, n) else Run(s, m)
    decreases m
  {
    hide Step;
    if m > 0 && Step(s).Next? {
      RunSplit(Step(s).s, m - 1, n);
    }
  }

  // ----- where a run ends -----

  /** The next instruction is STOP or FAIL, and its condition holds. */
  predicate Halting(s: Cpu) {
    && InMemory(s.mem, s.pos, 4)
    && var i := Decode(WordAt(s.mem, s.pos));
       Holds(i.condition, s.regs[REG_FLGS]) && (i.opcode == OP_STOP || i.opcode == OP_FAIL)
  }

  function HaltCode(s: Cpu): int
    requires Halting(s)
  {
    var i := Decode(WordAt(s.mem, s.pos));
    if i.opcode == OP_STOP then 0 else i.imm16
  }

  lemma StepHalts(s: Cpu)
    ensures Step(s).Done? <==> Halting(s)
    ensures Halting(s) ==> Step(s) == Done(Fetched(s), HaltCode(s))
  {
    hide Perform, Dispatch, Decode, Holds;
    if InMemory(s.mem, s.pos, 4) {
      OnlyTwoHalt(Decode(WordAt(s.mem, s.pos)), Fetched(s));
    }
  }

  predicate HaltsAfter(s: Cpu, m: nat) {
    Run(s, m).Next? && Halting(Run(s, m).s)
  }

  /** A run ends with a code exactly when it comes to a STOP or FAIL, and then there, with its code. */
  lemma RunHalts(s: Cpu, n: nat)
    ensures Run(s, n).Done? <==> exists m: nat :: m < n && HaltsAfter(s, m)
    ensures forall m: nat :: m < n && HaltsAfter(s, m) ==>
              Run(s, n) == Done(Fetched(Run(s, m).s), HaltCode(Run(s, m).s))
  {
    hide Step, Run, Halting, HaltCode;
    forall m: nat | m < n && HaltsAfter(s, m)
      ensures Run(s, n) == Done(Fetched(Run(s, m).s), HaltCode(Run(s, m).s))
    {
      RunSplit(s, m, n - m);
      HaltingRun(Run(s, m).s, n - m);
    }
    if Run(s, n).Done? {
      var m := HaltingStep(s, n);
    }
  }

  lemma HaltingRun(s: Cpu, n: nat)
    requires n > 0 && Halting(s)
    ensures Run(s, n) == Done(Fetched(s), HaltCode(s))
  {
    StepHalts(s);
    hide Step, Halting, HaltCode;
  }

  lemma {:induction false} HaltingStep(s: Cpu, n: nat) returns (m: nat)
    requires Run(s, n).Done?
    ensures m < n && HaltsAfter(s, m)
    decreases n
  {
    hide Step, Halting;
    StepHalts(s);
    if Step(s).Next? {
      var k := HaltingStep(Step(s).s, n - 1);
      m := k + 1;
    } else {
      m := 0;
    }
  }

  // ----- counting -----

  /** The number of instructions a run of at most n steps fetches. */
  function Fetches(s: Cpu, n: nat): (k: nat)
    ensures k <= n
    decreases n
  {
    if n == 0 then 0
    else
      var o := Step(s);
      if o.Next? then 1 + Fetches(o.s, n - 1) else 1
  }

  function CountAfter(s: Cpu, k: nat): qword {
    (s.count + k) % 0x1_0000_0000_0000_0000
  }

  lemma PerformKeepsCount(act: Action, s: Cpu)
    ensures var o := Perform(act, s); (o.Next? || o.Done?) ==> o.s.count == s.count
  {
  }

  lemma StepCounts(s: Cpu)
    ensures var o := Step(s); (o.Next? || o.Done?) ==> o.s.count == CountAfter(s, 1)
  {
    hide Perform, Dispatch, Holds, Decode;
    if InMemory(s.mem, s.pos, 4) {
      PerformKeepsCount(Dispatch(Decode(WordAt(s.mem, s.pos))), Fetched(s));
    }
  }

  /** The instruction count rises by one per fetch, skipped instructions included. */
  lemma {:induction false} RunCounts(s: Cpu, n: nat)
    ensures var o := Run(s, n); (o.Next? || o.Done?) ==> o.s.count == CountAfter(s, Fetches(s, n))
    ensures Run(s, n).Next? ==> Fetches(s, n) == n
    decreases n
  {
    hide Step;
    if n > 0 {
      StepCounts(s);
      if Step(s).Next? {
        RunCounts(Step(s).s, n - 1);
        ModSum(s.count + 1, Fetches(Step(s).s, n - 1), 0x1_0000_0000_0000_0000);
      }
    }
  }

  /** What one single-step call returns: -1, or the code of STOP or FAIL. */
  function StepCode(o: Outcome): int
    requires o.Next? || o.Done?
  {
    if o.Next? then -1 else o.result
  }

  /** Single-stepping until the returned code is not -1, at most n times; None if that takes longer. */
  function Stepping(s: Cpu, n: nat): Option<(Cpu, int)>
    decreases n
  {
    if n == 0 then None
    else
      var o := Step(s);
      if !(o.Next? || o.Done?) then None
      else if StepCode(o) != -1 then Some((o.s, StepCode(o)))
      else Stepping(o.s, n - 1)
  }

  lemma CodesAreNotMinusOne(s: Cpu)
    ensures Step(s).Done? ==> Step(s).result >= 0
  {
    hide Holds, Dispatch, Decode;
  }

  /** Free running reaches the same final state with the same code as single stepping in a loop, and only then. */
  lemma {:induction false} FreeRunIsStepping(s: Cpu, n: nat)
    ensures Run(s, n).Done? <==> Stepping(s, n).Some?
    ensures Run(s, n).Done? ==> Stepping(s, n) == Some((Run(s, n).s, Run(s, n).result))
    decreases n
  {
    hide Step;
    if n > 0 {
      CodesAreNotMinusOne(s);
      if Step(s).Next? {
        FreeRunIsStepping(Step(s).s, n - 1);
      }
    }
  }
}
