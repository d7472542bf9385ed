/**
 * The manual's meaning of every instruction, exceptions and removed instructions included, and the exact
 * states in which the code meets it.
 */
module Manual {
  import opened Words
  import opened Isa
  import opened Storage
  import opened Encoding
  import opened Machine
  import opened Syntax
  import opened Simulation

  datatype Exception = DivByZero | ProtFault | AddrOverflow | IllegalOp | AlignFault

  /** What the manual says of an instruction: an effect, an exception, or nothing. */
  datatype Meaning = Effect(o: Outcome) | Raises(e: Exception) | Undefined

  // ----- what the manual says -----

  /** The instructions that the manual marks as privileged. */
  predicate NeedsPrivilege(op: opcode) {
    || op == OP_STOP || op == OP_FAIL || op == OP_STOREAS || op == OP_LOADAS || op == OP_IN || op == OP_OUT
    || op == OP_MOVTC || op == OP_MOVFC || op == OP_XCHGC
  }

  /** The privileged mode flag of CR1. */
  predicate Privileged(s: Cpu) {
    Bit(s.cregs[CREG_CR1], 1)
  }

  predicate Divides(op: opcode) {
    op == OP_DIV || op == OP_SDIV || op == OP_MOD
  }

  predicate Shifts(op: opcode) {
    op == OP_SHL || op == OP_SHR || op == OP_SAR
  }

  predicate InRange32(addr: int) {
    0 <= addr <= DWORD_MAX
  }

  /** Words must lie on even addresses and dwords on multiples of four. */
  predicate OnBoundary(size: Size, addr: int) {
    addr % Width(size) == 0
  }

  /** A memory access of the given size: overflow and misalignment raise exceptions. */
  function Access(size: Size, addr: int, o: Outcome): Meaning {
    if !InRange32(addr) then Raises(AddrOverflow)
    else if !OnBoundary(size, addr) then Raises(AlignFault)
    else Effect(o)
  }

  /** Consecutive dword accesses from one address to another. */
  function AccessMany(from: int, to: int, o: Outcome): Meaning {
    if !InRange32(from) || !InRange32(to) then Raises(AddrOverflow)
    else if !OnBoundary(Dword, from) then Raises(AlignFault)
    else Effect(o)
  }

  /** LOADAS: the system stack pointer moves up by four, then the register is loaded. */
  function LoadAdjustSystem(reg: nibble, s: Cpu): Meaning {
    var ssp := s.cregs[CREG_SSP] as int + 4;
    if !InRange32(ssp) then Raises(AddrOverflow)
    else if !InMemory(s.mem, ssp, 4) then Access(Dword, ssp, Fault)
    else Access(Dword, ssp, Next(s.(regs := s.regs[reg := Load(Dword, s.mem, ssp)], cregs := s.cregs[CREG_SSP := ssp])))
  }

  /** STOREAS: the register is stored, then the system stack pointer moves down by four. */
  function StoreAdjustSystem(reg: nibble, s: Cpu): Meaning {
    var ssp: int := s.cregs[CREG_SSP];
    if !InMemory(s.mem, ssp, 4) then Access(Dword, ssp, Fault)
    else Access(Dword, ssp, Next(s.(mem := Store(Dword, s.mem, ssp, s.regs[reg]), cregs := s.cregs[CREG_SSP := Wrap(ssp - 4)])))
  }

  /** IRET pops the instruction pointer and CR1 from the system stack. */
  function InterruptReturn(s: Cpu): Meaning {
    var ssp: int := s.cregs[CREG_SSP];
    if !InRange32(ssp + 8) then Raises(AddrOverflow)
    else if !InMemory(s.mem, ssp + 8, 4) then AccessMany(ssp + 4, ssp + 8, Fault)
    else
      var ip, cr1 := Load(Dword, s.mem, ssp + 4), Load(Dword, s.mem, ssp + 8);
      AccessMany(ssp + 4, ssp + 8, Next(s.(pos := ip, cregs := s.cregs[CREG_CR1 := cr1][CREG_SSP := ssp + 8])))
  }

  /** The service routine that the interrupt vector table names; None where memory has no such entry. */
  function ServiceRoutine(n: byte, m: memory): Option<dword> {
    if InMemory(m, 4 * n, 4) then Some(Load(Dword, m, 4 * n)) else None
  }

  /** Calling a service routine: CR1 and the instruction pointer are pushed, privileged mode entered. */
  function CallService(isr: dword, s: Cpu): Meaning {
    var ssp: int, cr1 := s.cregs[CREG_SSP], s.cregs[CREG_CR1];
    if ssp < 4 then Raises(AddrOverflow)
    else if !InMemory(s.mem, ssp, 4) then AccessMany(ssp, ssp - 4, Fault)
    else
      var m := Store(Dword, Store(Dword, s.mem, ssp, cr1), ssp - 4, s.pos);
      var entered := PutBit32(PutBit32(cr1, 0, false), 1, true);
      AccessMany(ssp, ssp - 4,
        Next(s.(pos := isr, mem := m, cregs := s.cregs[CREG_CR1 := entered][CREG_SSP := Wrap(ssp - 8)])))
  }

  /** INT fires a software interrupt; the numbers of exceptions and hardware interrupts are illegal. */
  function Interrupt(n: byte, s: Cpu): Meaning {
    if n < 32 || n >= 128 then Raises(IllegalOp)
    else
      match ServiceRoutine(n, s.mem)
      case None => Effect(Fault)
      case Some(isr) => if isr == 0 then Effect(Next(s)) else CallService(isr, s)
  }

  /** Arithmetic: only the register form of MOD is defined, and shifts by less than 32. */
  function AluMeaning(op: opcode, b: Operand, o: Outcome, s: Cpu): Meaning {
    if op == OP_MOD && b.Imm? then Undefined
    else if Divides(op) && Eval(b, s.regs) == 0 then Raises(DivByZero)
    else if Shifts(op) && Eval(b, s.regs) >= 32 then Undefined
    else Effect(o)
  }

  /** The meaning of an instruction whose condition holds; the position already points past it. */
  function Meant(src: Source, s: Cpu): Meaning
    requires WellFormed(src)
  {
    var o := Perform(Written(src), s);
    if NeedsPrivilege(Mnemonic(src)) && !Privileged(s) then Raises(ProtFault)
    else
      match src
      case Binary(op, _, _, _, b) => AluMeaning(op, b, o, s)
      case LoadId(size, _, _, base, v) => Access(size, Address(base, Imm(v), s.regs), o)
      case LoadRd(size, _, _, base, off) => Access(size, Address(base, Reg(off), s.regs), o)
      case StoreId(size, _, base, _, v) => Access(size, Address(base, Imm(v), s.regs), o)
      case StoreRd(size, _, base, _, off) => Access(size, Address(base, Reg(off), s.regs), o)
      case Many(op, _, base, range) => ManyMeaning(op, s.regs[base], Low(range), High(range), o)
      case CmpXchg(_, dst, _, _) => Access(Dword, s.regs[dst], o)
      case Single(op, _, Imm(v)) => if op != OP_TEST && !InRange32(s.pos + Signed16(v)) then Undefined else Effect(o)
      case Bare(op, _) => if op == OP_IRET then InterruptReturn(s) else Effect(o)
      case System(op, _, a) => if op == OP_LOADAS then LoadAdjustSystem(a, s) else StoreAdjustSystem(a, s)
      case Signal(op, _, v) => if op == OP_INT then Interrupt(v % 0x100, s) else Effect(o)
      // the instruction set of the manual does not describe IN and OUT
      case Pair(op, _, _, _) => if op == OP_IN || op == OP_OUT then Undefined else Effect(o)
      case _ => Effect(o)
  }

  /** The start register of a range, and the end register. */
  function Low(range: word): nibble { range % 0x100 / 0x10 }

  function High(range: word): nibble { range % 0x100 % 0x10 }

  /** Where a transfer of registers lo..hi through an address has its last access. */
  function LastAccess(op: opcode, a: dword, lo: nibble, hi: nibble): int {
    if op == OP_STOREMA then a - 4 * (hi - lo) else a + 4 * (hi - lo + 1)
  }

  function FirstAccess(op: opcode, a: dword): int {
    if op == OP_STOREMA then a else a + 4
  }

  function ManyMeaning(op: opcode, a: dword, lo: nibble, hi: nibble, o: Outcome): Meaning {
    if lo > hi then Effect(o) else AccessMany(FirstAccess(op, a), LastAccess(op, a, lo, hi), o)
  }

  // ----- what the code does of it -----

  /** Executing the bytes of an instruction, its condition holding, does what the manual says, if it says anything. */
  predicate Meets(src: Source, s: Cpu)
    requires WellFormed(src) && InRange(src)
  {
    Allows(Meant(src, s), Perform(Dispatch(Decode(Encode(src))), s))
  }

  predicate Allows(m: Meaning, o: Outcome) {
    match m
    case Effect(p) => o == p
    case Raises(_) => false
    case Undefined => true
  }

  /** The states in which the code meets the manual, read off the operands, the registers and the memory. */
  predicate Executable(src: Source, s: Cpu)
    requires WellFormed(src)
  {
    && (NeedsPrivilege(Mnemonic(src)) ==> Privileged(s))
    && match src
       case Binary(op, _, _, _, b) => Divides(op) ==> (op == OP_MOD && b.Imm?) || Eval(b, s.regs) != 0
       case LoadId(size, _, _, base, v) => Reaches(size, Address(base, Imm(v), s.regs))
       case LoadRd(size, c, sub, base, off) =>
         && Reaches(size, Address(base, Reg(off), s.regs))
         && (Misencoded(src) ==> LoadsAlike(sub, Address(base, Reg(0), s.regs), Address(base, Reg(off), s.regs), s))
       case StoreId(size, _, base, _, v) => Reaches(size, Address(base, Imm(v), s.regs))
       case StoreRd(size, _, base, _, off) => Reaches(size, Address(base, Reg(off), s.regs))
       case Many(op, _, base, range) =>
         Low(range) <= High(range) ==>
           && OnBoundary(Dword, s.regs[base])
           && InRange32(FirstAccess(op, s.regs[base])) && InRange32(LastAccess(op, s.regs[base], Low(range), High(range)))
       case CmpXchg(_, dst, _, _) => OnBoundary(Dword, s.regs[dst])
       case Bare(op, _) => op != OP_IRET
       case System(_, _, _) => false
       case Signal(op, _, v) =>
         op == OP_INT ==> 32 <= v % 0x100 < 128 && ServiceRoutine(v % 0x100, s.mem) == Some(0)
       case Sex(size, _, _, sub) => GetReg(size, s.regs, sub) == GetReg(size, s.regs, LowPart(size, sub))
       case XchgC(_, a, c) => Misencoded(src) ==> s.regs[a] == s.cregs[CREG_MR1] == s.cregs[c]
       case _ => true
  }

  predicate Reaches(size: Size, addr: int) {
    InRange32(addr) && OnBoundary(size, addr)
  }

  /** The lowest word or byte of the 32-bit register with a given number. */
  function LowPart(size: Size, r: nibble): (k: nat)
    ensures size != Dword ==> k < Views(size)
  {
    if size == Byte then 4 * r else 2 * r
  }

  /** Loading R0L from one address has the same result as loading a register from the other. */
  predicate LoadsAlike(sub: nibble, lost: int, addr: int, s: Cpu)
    requires InRange32(addr)
  {
    if InRange32(lost) && !InMemory(s.mem, lost, 2) then !InMemory(s.mem, addr, 2)
    else
      && InMemory(s.mem, addr, 2)
      && var r0l := if InRange32(lost) then Load(Word, s.mem, lost) else GetReg(Word, s.regs, 0);
         if sub == 0 then Load(Word, s.mem, addr) == r0l
         else r0l == GetReg(Word, s.regs, 0) && Load(Word, s.mem, addr) == GetReg(Word, s.regs, sub)
  }

  /** The code meets the manual in exactly the executable states, for every instruction. */
  lemma MeetsManual(src: Source, s: Cpu)
    requires WellFormed(src) && InRange(src)
    ensures Meets(src, s) <==> Executable(src, s)
  {
    hide Perform, Dispatch, Decode, Encode, Written, Actual, Meant, Executable;
    DispatchEncode(src);
    match src
    case Sex(_, _, _, _) => SexMeets(src, s);
    case XchgC(_, _, _) => ControlMeets(src, s);
    case LoadRd(_, _, _, _, _) => LoadMeets(src, s);
    case Bare(_, _) => ReturnMeets(src, s);
    case System(_, _, _) => SystemMeets(src, s);
    case Signal(_, _, _) => InterruptMeets(src, s);
    case Many(_, _, _, _) => ManyMeets(src, s);
    case _ => PlainMeets(src, s);
  }

  /** Allowing an action in a state. */
  predicate Agrees(src: Source, s: Cpu)
    requires WellFormed(src)
  {
    Allows(Meant(src, s), Perform(Actual(src), s))
  }

  lemma PlainMeets(src: Source, s: Cpu)
    requires WellFormed(src)
    requires !src.Sex? && !src.XchgC? && !src.LoadRd? && !src.Bare? && !src.System? && !src.Signal? && !src.Many?
    ensures Agrees(src, s) <==> Executable(src, s)
  {
    hide Perform;
  }

  lemma ManyMeets(src: Source, s: Cpu)
    requires WellFormed(src) && src.Many?
    ensures Agrees(src, s) <==> Executable(src, s)
  {
    hide Perform;
  }

  lemma SexMeets(src: Source, s: Cpu)
    requires WellFormed(src) && src.Sex?
    ensures Agrees(src, s) <==> Executable(src, s)
  {
    var regs, x, y := s.regs, GetReg(src.size, s.regs, LowPart(src.size, src.sub)), GetReg(src.size, s.regs, src.sub);
    hide GetReg;
    assert regs[src.a := SignExtend(src.size, x)][src.a] == SignExtend(src.size, x);
    assert regs[src.a := SignExtend(src.size, y)][src.a] == SignExtend(src.size, y);
  }

  lemma ControlMeets(src: Source, s: Cpu)
    requires WellFormed(src) && src.XchgC?
    ensures Agrees(src, s) <==> Executable(src, s)
  {
    var a, c := src.a, src.c;
    var lost := Perform(ExchangeControl(a, CREG_MR1), s).s;
    var kept := Perform(ExchangeControl(a, c), s).s;
    assert lost.regs[a] == s.cregs[CREG_MR1] && kept.regs[a] == s.cregs[c];
    assert lost.cregs[CREG_MR1] == s.regs[a] && (c != CREG_MR1 ==> kept.cregs[CREG_MR1] == s.cregs[CREG_MR1]);
    if s.regs[a] == s.cregs[CREG_MR1] == s.cregs[c] {
      assert lost.cregs == kept.cregs;
    }
  }

  lemma ReturnMeets(src: Source, s: Cpu)
    requires WellFormed(src) && src.Bare?
    ensures Agrees(src, s) <==> Executable(src, s)
  {
    hide Load;
    if InRange32(s.cregs[CREG_SSP] as int + 8) && InMemory(s.mem, s.cregs[CREG_SSP] as int + 8, 4) {
      StackMoves(s.cregs, Load(Dword, s.mem, s.cregs[CREG_SSP] as int + 8), s.cregs[CREG_SSP] as int + 8);
    }
  }

  /** A state whose system stack pointer has moved is another state. */
  lemma StackMoves(cregs: registers, cr1: dword, ssp: dword)
    requires ssp != cregs[CREG_SSP]
    ensures cregs[CREG_CR1 := cr1][CREG_SSP := ssp] != cregs
  {
    assert cregs[CREG_CR1 := cr1][CREG_SSP := ssp][CREG_SSP] == ssp;
  }

  lemma SystemMeets(src: Source, s: Cpu)
    requires WellFormed(src) && src.System?
    ensures Agrees(src, s) <==> Executable(src, s)
  {
    hide Load, Store;
    var ssp: int := s.cregs[CREG_SSP];
    assert InRange32(ssp + 4) ==> s.cregs[CREG_SSP := ssp + 4][CREG_SSP] != ssp;
    assert s.cregs[CREG_SSP := Wrap(ssp - 4)][CREG_SSP] != ssp;
  }

  lemma InterruptMeets(src: Source, s: Cpu)
    requires WellFormed(src) && src.Signal?
    ensures Agrees(src, s) <==> Executable(src, s)
  {
    hide Load, Store, PutBit32;
    var ssp: int, cr1 := s.cregs[CREG_SSP], s.cregs[CREG_CR1];
    StackMoves(s.cregs, PutBit32(PutBit32(cr1, 0, false), 1, true), Wrap(ssp - 8));
  }

  lemma LoadMeets(src: Source, s: Cpu)
    requires WellFormed(src) && src.LoadRd?
    ensures Agrees(src, s) <==> Executable(src, s)
  {
    hide DoLoad;
    if Misencoded(src) && Reaches(Word, Address(src.base, Reg(src.off), s.regs)) {
      LostLoad(src.sub, Address(src.base, Reg(0), s.regs), Address(src.base, Reg(src.off), s.regs), s);
    }
  }

  /** The two loads lead to the same state exactly when they load alike. */
  lemma LostLoad(sub: nibble, lost: int, addr: int, s: Cpu)
    requires InRange32(addr)
    ensures DoLoad(Word, 0, lost, s) == DoLoad(Word, sub, addr, s) <==> LoadsAlike(sub, lost, addr, s)
  {
    hide Load, PutReg, GetReg;
    var regs := s.regs;
    PutGetReg(Word, regs, 0);
    PutGetReg(Word, regs, sub);
    if InMemory(s.mem, addr, 2) {
      var v := Load(Word, s.mem, addr);
      GetPutWord(regs, sub, v, sub);
      GetPutWord(regs, sub, v, 0);
      if InRange32(lost) && InMemory(s.mem, lost, 2) {
        var w := Load(Word, s.mem, lost);
        GetPutWord(regs, 0, w, 0);
        GetPutWord(regs, 0, w, sub);
      }
    }
  }

  // ----- steps and runs -----

  /** The meaning of fetching and executing an instruction: it must lie on a dword boundary. */
  function MeantStep(src: Source, s: Cpu): Meaning
    requires WellFormed(src)
  {
    if !OnBoundary(Dword, s.pos) then Raises(AlignFault)
    else if Holds(src.cond, s.regs[REG_FLGS]) then Meant(src, Fetched(s))
    else Effect(Next(Fetched(s)))
  }

  predicate ExecutableStep(src: Source, s: Cpu)
    requires WellFormed(src)
  {
    OnBoundary(Dword, s.pos) && (Holds(src.cond, s.regs[REG_FLGS]) ==> Executable(src, Fetched(s)))
  }

  /** A processor step on the bytes of an instruction meets the manual in exactly the executable states. */
  lemma StepMeetsManual(src: Source, s: Cpu)
    requires Sound(src) && InMemory(s.mem, s.pos, 4) && WordAt(s.mem, s.pos) == Encode(src)
    ensures Allows(MeantStep(src, s), Step(s)) <==> ExecutableStep(src, s)
  {
    hide Perform, Meant, Executable, Dispatch, Decode, Encode, Actual, WellFormed, InRange;
    StepIsSourceStep(src, s);
    DispatchEncode(src);
    MeetsManual(src, Fetched(s));
  }

  /** At most n steps of a listing as the manual means them; it stops where control leaves the listing. */
  function MeantRun(code: Listing, s: Cpu, n: nat): Meaning
    requires SoundListing(code)
    decreases n
  {
    if n == 0 || s.pos !in code then Effect(Next(s))
    else
      var m := MeantStep(code[s.pos], s);
      if m.Effect? && m.o.Next? then MeantRun(code, m.o.s, n - 1) else m
  }

  predicate ExecutableRun(code: Listing, s: Cpu, n: nat)
    requires SoundListing(code)
    decreases n
  {
    n == 0 || (
      && s.pos in code && ExecutableStep(code[s.pos], s)
      && var m := MeantStep(code[s.pos], s);
         m.Effect? && m.o.Next? ==> ExecutableRun(code, m.o.s, n - 1)
    )
  }

  /** Running the bytes of a listing is running it as the manual says, while every executed step is executable. */
  lemma {:induction false} ExecutableMeets(code: Listing, s: Cpu, n: nat)
    requires SoundListing(code) && Stands(code, s.mem) && Confined(code, s, n) && ExecutableRun(code, s, n)
    ensures Allows(MeantRun(code, s, n), Run(s, n))
    decreases n
  {
    hide Step, SourceStep, MeantStep, ExecutableStep, SparesCode, Encode, WellFormed, InRange;
    if n > 0 {
      var src := code[s.pos];
      StepMeetsManual(src, s);
      StepIsSourceStep(src, s);
      if SourceStep(src, s).Next? && MeantStep(src, s).Effect? {
        SourceStepKeepsCode(code, src, s);
        ExecutableMeets(code, SourceStep(src, s).s, n - 1);
      }
    }
  }

  /** A run that comes to a step that is not executable departs from the manual at that step. */
  lemma {:induction false} FirstFailure(code: Listing, s: Cpu, n: nat)
    requires SoundListing(code) && Stands(code, s.mem) && Confined(code, s, n + 1)
    requires ExecutableRun(code, s, n) && !ExecutableRun(code, s, n + 1)
    ensures !Allows(MeantRun(code, s, n + 1), Run(s, n + 1))
    decreases n
  {
    hide Step, SourceStep, MeantStep, ExecutableStep, SparesCode, Encode, WellFormed, InRange;
    var src := code[s.pos];
    StepMeetsManual(src, s);
    StepIsSourceStep(src, s);
    RunOnce(s, n);
    if n > 0 {
      SourceStepKeepsCode(code, src, s);
      FirstFailure(code, SourceStep(src, s).s, n - 1);
    } else {
      NoSteps(code, s);
    }
  }

  lemma RunOnce(s: Cpu, n: nat)
    ensures Run(s, n + 1) == if Step(s).Next? then Run(Step(s).s, n) else Step(s)
  {
    hide Step;
  }

  lemma NoSteps(code: Listing, s: Cpu)
    requires SoundListing(code)
    ensures ExecutableRun(code, s, 0) && forall u: Cpu :: MeantRun(code, u, 0) == Effect(Next(u)) && Run(u, 0) == Next(u)
  {
  }

  lemma {:induction false} ShorterRun(code: Listing, s: Cpu, m: nat, n: nat)
    requires SoundListing(code) && m <= n
    ensures Confined(code, s, n) ==> Confined(code, s, m)
    ensures ExecutableRun(code, s, n) ==> ExecutableRun(code, s, m)
    decreases n
  {
    hide SourceStep, MeantStep, ExecutableStep, SparesCode, WellFormed, InRange;
    if m > 0 && s.pos in code {
      var o, e := SourceStep(code[s.pos], s), MeantStep(code[s.pos], s);
      if o.Next? {
        ShorterRun(code, o.s, m - 1, n - 1);
      }
      if e.Effect? && e.o.Next? {
        ShorterRun(code, e.o.s, m - 1, n - 1);
      }
    }
  }

  /** The run meets the manual after every number of steps up to n. */
  ghost predicate MeetsThroughout(code: Listing, s: Cpu, n: nat)
    requires SoundListing(code)
  {
    forall m: nat :: m <= n ==> Allows(MeantRun(code, s, m), Run(s, m))
  }

  /**
   * Running the bytes of a listing is, step by step, running it as the manual says if and only if every executed
   * step is executable.
   */
  lemma RunMeetsManual(code: Listing, s: Cpu, n: nat)
    requires SoundListing(code) && Stands(code, s.mem) && Confined(code, s, n)
    ensures ExecutableRun(code, s, n) <==> MeetsThroughout(code, s, n)
  {
    hide ExecutableRun, Confined, MeantRun, Run, Allows, Stands, SoundListing;
    if ExecutableRun(code, s, n) {
      forall m: nat | m <= n
        ensures Allows(MeantRun(code, s, m), Run(s, m))
      {
        ShorterRun(code, s, m, n);
        ExecutableMeets(code, s, m);
      }
    } else {
      var m := LastExecutable(code, s, n);
      ShorterRun(code, s, m + 1, n);
      FirstFailure(code, s, m);
    }
  }

  lemma {:induction false} LastExecutable(code: Listing, s: Cpu, n: nat) returns (m: nat)
    requires SoundListing(code) && !ExecutableRun(code, s, n)
    ensures m < n && ExecutableRun(code, s, m) && !ExecutableRun(code, s, m + 1)
    decreases n
  {
    NoSteps(code, s);
    hide ExecutableRun, SoundListing;
    assert n > 0;
    m := n - 1;
    if !ExecutableRun(code, s, m) {
      m := LastExecutable(code, s, m);
    }
  }
}
