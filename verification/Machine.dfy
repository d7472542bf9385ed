/** The VA processor as a transition function: dispatch of a decoded word, its effect, and one step. */
module Machine {
  import opened Words
  import opened Isa
  import opened Storage
  import opened Encoding

  datatype Option<T> = None | Some(value: T)

  /** The processor and its memory; `count` is the executed-instruction statistic. */
  datatype Cpu = Cpu(regs: registers, cregs: registers, pos: dword, mem: memory, count: qword)

  /** What a step can lead to. A Fault is an access outside memory, which C leaves undefined. */
  datatype Outcome =
    | Next(s: Cpu)
    | Done(s: Cpu, result: int)
    | Fault
    | Device

  datatype AluOp = Add | Sub | Mul | SMul | Div | Mod | SDiv | BitAnd | BitOr | BitXor | Shl | Shr | Sar

  datatype Operand = Reg(r: nibble) | Imm(v: word)

  /** What an instruction does, with the operands its opcode and prefix select. */
  datatype Action =
    | Alu(op: AluOp, dst: nibble, a: nibble, b: Operand)
    | Compare(a: nibble, b: Operand)
    | TestBits(b: Operand)
    | Jump(link: bool, target: Operand)
    | LoadImm(size: Size, sub: nibble, v: word)
    | LoadMem(size: Size, sub: nibble, base: nibble, disp: Operand)
    | StoreMem(size: Size, base: nibble, sub: nibble, disp: Operand)
    | StoreMany(base: nibble, lo: nibble, hi: nibble)
    | LoadMany(base: nibble, lo: nibble, hi: nibble)
    | CompareExchange(addr: nibble, a: nibble, sub: nibble)
    | Move(size: Size, a: nibble, sub: nibble)
    | MoveImm(a: nibble, v: word)
    | FromControl(a: nibble, c: nibble)
    | ToControl(c: nibble, a: nibble)
    | Complement(a: nibble, sub: nibble)
    | Extend(size: Size, a: nibble, view: nat)
    | Exchange(a: nibble, sub: nibble)
    | ExchangeControl(a: nibble, c: nibble)
    | Stop
    | Fail(code: word)
    | PortAccess
    | Nop

  // ----- dispatch -----

  function PrefixSize(p: prefix): Size
    requires p != PREFIX_IMM
  {
    if p == PREFIX_DWORD then Dword else if p == PREFIX_WORD then Word else Byte
  }

  function AluOpOf(op: opcode): AluOp {
    if op == OP_ADD then Add
    else if op == OP_SUB then Sub
    else if op == OP_MUL then Mul
    else if op == OP_SMUL then SMul
    else if op == OP_DIV then Div
    else if op == OP_MOD then Mod
    else if op == OP_SDIV then SDiv
    else if op == OP_AND then BitAnd
    else if op == OP_OR then BitOr
    else if op == OP_XOR then BitXor
    else if op == OP_SHL then Shl
    else if op == OP_SHR then Shr
    else Sar
  }

  predicate IsAlu(op: opcode) {
    || op == OP_ADD || op == OP_SUB || op == OP_MUL || op == OP_SMUL || op == OP_DIV || op == OP_MOD || op == OP_SDIV
    || op == OP_AND || op == OP_OR || op == OP_XOR || op == OP_SHL || op == OP_SHR || op == OP_SAR
  }

  predicate IsMemory(op: opcode) {
    || op == OP_LOADI || op == OP_LOADID || op == OP_LOADRD || op == OP_STOREID || op == OP_STORERD
    || op == OP_STOREMA || op == OP_LOADMA || op == OP_CMPXCHG
  }

  function Choose12(i: Ins): Operand {
    if i.prefix == PREFIX_IMM then Imm(i.imm12) else Reg(i.opb)
  }

  function Choose16(i: Ins): Operand {
    if i.prefix == PREFIX_IMM then Imm(i.imm16) else Reg(i.dst)
  }

  /** The action that the processor's opcode switch selects. MOD never takes an immediate. */
  function Dispatch(i: Ins): Action {
    if IsAlu(i.opcode) then
      Alu(AluOpOf(i.opcode), i.dst, i.opa, if i.opcode == OP_MOD then Reg(i.opb) else Choose12(i))
    else if IsMemory(i.opcode) then
      DispatchMemory(i)
    else
      DispatchOther(i)
  }

  function DispatchMemory(i: Ins): Action {
    if i.opcode == OP_LOADI then
      LoadImm(if i.prefix == PREFIX_BYTE then Byte else Word, i.dst, i.imm16)
    else if i.opcode == OP_STOREMA then StoreMany(i.dst, i.imm16 % 0x100 / 0x10, i.imm16 % 0x100 % 0x10)
    else if i.opcode == OP_LOADMA then LoadMany(i.dst, i.imm16 % 0x100 / 0x10, i.imm16 % 0x100 % 0x10)
    else if i.opcode == OP_CMPXCHG then
      if i.prefix == PREFIX_DWORD then CompareExchange(i.dst, i.opa, i.opb) else Nop
    else if i.prefix == PREFIX_IMM then Nop
    else if i.opcode == OP_LOADID then LoadMem(PrefixSize(i.prefix), i.dst, i.opa, Imm(i.imm12))
    else if i.opcode == OP_LOADRD then LoadMem(PrefixSize(i.prefix), i.dst, i.opa, Reg(i.opb))
    else if i.opcode == OP_STOREID then StoreMem(PrefixSize(i.prefix), i.dst, i.opa, Imm(i.imm12))
    else StoreMem(PrefixSize(i.prefix), i.dst, i.opa, Reg(i.opb))
  }

  function DispatchOther(i: Ins): Action {
    if i.opcode == OP_STOP then Stop
    else if i.opcode == OP_FAIL then Fail(i.imm16)
    else if i.opcode == OP_JMP then Jump(false, Choose16(i))
    else if i.opcode == OP_CALL then Jump(true, Choose16(i))
    else if i.opcode == OP_TEST then TestBits(Choose16(i))
    else if i.opcode == OP_CMP then Compare(i.opa, Choose12(i))
    else if i.opcode == OP_NOT then Complement(i.opa, i.opb)
    else if i.opcode == OP_XCHG then Exchange(i.opa, i.opb)
    else if i.opcode == OP_XCHGC then ExchangeControl(i.opa, i.opb)
    else if i.opcode == OP_MOVFC then FromControl(i.opa, i.opb)
    else if i.opcode == OP_MOVTC then ToControl(i.opa, i.opb)
    else if i.opcode == OP_MOV then
      if i.prefix == PREFIX_IMM then MoveImm(i.opa, i.imm12) else Move(PrefixSize(i.prefix), i.opa, i.opb)
    else if i.opcode == OP_SEX then
      // the code extends the low part of the 32-bit register numbered opb
      if i.prefix == PREFIX_BYTE then Extend(Byte, i.opa, 4 * i.opb)
      else if i.prefix == PREFIX_WORD then Extend(Word, i.opa, 2 * i.opb)
      else Nop
    else if i.opcode == OP_IN || i.opcode == OP_OUT then PortAccess
    else Nop
  }

  // ----- arithmetic -----

  predicate SignedOverflow(x: int) {
    x < -0x8000_0000 || x >= 0x8000_0000
  }

  /** Division of C: the quotient is truncated toward zero. */
  function TruncDiv(x: int, y: int): int
    requires y != 0
  {
    if x >= 0 then x / y else -((-x) / y)
  }

  function Gate32(g: Gate, a: dword, b: dword): dword {
    Pow2Values();
    BitwiseBound(g, 32, a, b);
    Bitwise(g, a, b)
  }

  function ShiftRight(a: dword, k: nat): dword {
    QuotientBound(a, Pow2(k));
    a / Pow2(k)
  }

  lemma QuotientBound(a: nat, d: nat)
    requires d > 0
    ensures 0 <= a / d <= a
  {
    assert a == a / d * d + a % d;
    ProductGrows(a / d, d);
  }

  lemma ProductGrows(q: int, d: int)
    requires d > 0
    ensures q >= 0 ==> q * d >= q
    ensures q < 0 ==> q * d <= -d
  {
  }

  function WithFlag(regs: registers, x: Flag, b: bool): registers {
    regs[REG_FLGS := Put(regs[REG_FLGS], x, b)]
  }

  /** The register file after an arithmetic instruction. The order matters when the destination is FLGS. */
  function AluResult(op: AluOp, regs: registers, dst: nibble, a: dword, b: dword): registers {
    match op
    case Add =>
      WithFlag(WithFlag(regs[dst := Wrap(a + b)], O, SignedOverflow(Signed32(a) + Signed32(b))), C, a + b > DWORD_MAX)
    case Sub =>
      WithFlag(WithFlag(regs[dst := Wrap(a - b)], O, SignedOverflow(Signed32(a) - Signed32(b))), C, a < b)
    case SMul =>
      WithFlag(regs[dst := Wrap(Signed32(a) * Signed32(b))], O, SignedOverflow(Signed32(a) * Signed32(b)))
    case Mul => WithFlag(regs, C, a * b > DWORD_MAX)[dst := Wrap(a * b)]
    case Div => if b == 0 then regs else QuotientBound(a, b); regs[dst := a / b]
    case Mod => if b == 0 then regs else regs[dst := a % b]
    case SDiv =>
      if b == 0 then regs
      else
        var q := TruncDiv(Signed32(a), Signed32(b));
        WithFlag(regs, O, SignedOverflow(q))[dst := if SignedOverflow(q) then 0 else Wrap(q)]
    case BitAnd => regs[dst := Gate32(Conj, a, b)]
    case BitOr => regs[dst := Gate32(Disj, a, b)]
    case BitXor => regs[dst := Gate32(Excl, a, b)]
    case Shl => WithFlag(regs, C, a >= 0x8000_0000)[dst := Wrap(a * Pow2(b % 32))]
    case Shr => WithFlag(regs, C, a % 2 == 1)[dst := ShiftRight(a, b % 32)]
    case Sar => WithFlag(regs, C, a % 2 == 1)[dst := Wrap(Signed32(a) / Pow2(b % 32))]
  }

  function CompareResult(regs: registers, a: dword, b: dword): registers {
    WithFlag(WithFlag(WithFlag(regs, Z, a == b), C, a < b), S, Signed32(a) < Signed32(b))
  }

  /** The number of one bits. */
  function PopCount(v: nat): nat {
    if v == 0 then 0 else v % 2 + PopCount(v / 2)
  }

  lemma PopCountHalve(v: nat)
    ensures PopCount(v) == v % 2 + PopCount(v / 2) && PopCount(0) == 0
  {
  }

  function TestResult(regs: registers, v: dword): registers {
    WithFlag(WithFlag(WithFlag(WithFlag(regs, Z, v == 0), S, v >= 0x8000_0000), E, v % 2 == 0),
             P, PopCount(v) % 2 == 1)
  }

  function SignExtend(size: Size, v: dword): dword
    requires Fits(size, v)
  {
    match size
    case Dword => v
    case Word => if v >= 0x8000 then v + 0xFFFF_0000 else v
    case Byte => if v >= 0x80 then v + 0xFFFF_FF00 else v
  }

  // ----- memory instructions -----

  datatype Block = Block(regs: registers, mem: memory, addr: dword)

  /** Pushing registers lo..hi, in this order, downward from addr. */
  function PushAll(blk: Block, lo: nat, hi: int): (r: Option<Block>)
    requires lo <= 16 && hi < 16
    decreases hi - lo
  {
    if lo > hi then Some(blk)
    else if !InMemory(blk.mem, blk.addr, 4) then None
    else PushAll(blk.(mem := Store(Dword, blk.mem, blk.addr, blk.regs[lo]), addr := Wrap(blk.addr - 4)), lo + 1, hi)
  }

  /** Popping registers hi..lo, in this order, upward from above addr. */
  function PopAll(blk: Block, lo: nat, hi: int): (r: Option<Block>)
    requires -1 <= hi < 16
    decreases hi
  {
    if lo > hi then Some(blk)
    else
      var addr := Wrap(blk.addr + 4);
      if !InMemory(blk.mem, addr, 4) then None
      else PopAll(blk.(regs := blk.regs[hi := Load(Dword, blk.mem, addr)], addr := addr), lo, hi - 1)
  }

  /** The block after pushing register lo alone. */
  function PushOne(blk: Block, lo: nibble): Block
    requires InMemory(blk.mem, blk.addr, 4)
  {
    blk.(mem := Store(Dword, blk.mem, blk.addr, blk.regs[lo]), addr := Wrap(blk.addr - 4))
  }

  lemma PushStep(blk: Block, lo: nibble, hi: int)
    requires lo <= hi < 16 && PushAll(blk, lo, hi).Some?
    ensures InMemory(blk.mem, blk.addr, 4) && |PushOne(blk, lo).mem| == |blk.mem|
    ensures PushAll(blk, lo, hi) == PushAll(PushOne(blk, lo), lo + 1, hi)
  {
  }

  /** The block after popping register hi alone. */
  function PopOne(blk: Block, hi: nibble): Block
    requires InMemory(blk.mem, Wrap(blk.addr + 4), 4)
  {
    blk.(regs := blk.regs[hi := Load(Dword, blk.mem, Wrap(blk.addr + 4))], addr := Wrap(blk.addr + 4))
  }

  lemma PopStep(blk: Block, lo: nat, hi: nibble)
    requires lo <= hi && PopAll(blk, lo, hi).Some?
    ensures InMemory(blk.mem, Wrap(blk.addr + 4), 4)
    ensures PopAll(blk, lo, hi) == PopAll(PopOne(blk, hi), lo, hi - 1)
  {
  }

  lemma PopNone(blk: Block, lo: nat, hi: int)
    requires -1 <= hi < 16 && hi < lo
    ensures PopAll(blk, lo, hi) == Some(blk)
  {
  }

  function Eval(b: Operand, regs: registers): dword {
    match b
    case Reg(r) => regs[r]
    case Imm(v) => v
  }

  /** A displacement counts as signed when it comes from a register. */
  function Address(base: nibble, disp: Operand, regs: registers): int {
    match disp
    case Reg(r) => regs[base] + Signed32(regs[r])
    case Imm(v) => regs[base] + v
  }

  function JumpTarget(target: Operand, s: Cpu): dword {
    match target
    case Reg(r) => s.regs[r]
    case Imm(v) => Wrap(s.pos + Signed16(v))
  }

  /** Loads and stores do nothing when the effective address does not fit in 32 bits. */
  function DoLoad(size: Size, sub: nibble, addr: int, s: Cpu): Outcome {
    if addr < 0 || addr > DWORD_MAX then Next(s)
    else if !InMemory(s.mem, addr, Width(size)) then Fault
    else Next(s.(regs := PutReg(size, s.regs, sub, Load(size, s.mem, addr))))
  }

  function DoStore(size: Size, sub: nibble, addr: int, s: Cpu): Outcome {
    if addr < 0 || addr > DWORD_MAX then Next(s)
    else if !InMemory(s.mem, addr, Width(size)) then Fault
    else Next(s.(mem := Store(size, s.mem, addr, GetReg(size, s.regs, sub))))
  }

  function DoStoreMany(base: nibble, lo: nibble, hi: nibble, s: Cpu): Outcome {
    match PushAll(Block(s.regs, s.mem, s.regs[base]), lo, hi)
    case None => Fault
    case Some(blk) => Next(s.(regs := s.regs[base := blk.addr], mem := blk.mem))
  }

  function DoLoadMany(base: nibble, lo: nibble, hi: nibble, s: Cpu): Outcome {
    match PopAll(Block(s.regs, s.mem, s.regs[base]), lo, hi)
    case None => Fault
    case Some(blk) => Next(s.(regs := blk.regs[base := blk.addr]))
  }

  function DoCompareExchange(addr: nibble, a: nibble, b: nibble, s: Cpu): Outcome {
    if !InMemory(s.mem, s.regs[addr], 4) then Fault
    else
      var found := Load(Dword, s.mem, s.regs[addr]);
      if found == s.regs[a] then
        Next(s.(mem := Store(Dword, s.mem, s.regs[addr], s.regs[b]), regs := WithFlag(s.regs, Z, true)))
      else
        Next(s.(regs := WithFlag(s.regs[a := found], Z, false)))
  }

  function DoJump(link: bool, target: Operand, s: Cpu): Cpu {
    var s' := if link then s.(regs := s.regs[REG_RC := s.pos]) else s;
    s'.(pos := JumpTarget(target, s'))
  }

  // ----- one step -----

  /** The effect of an instruction whose condition holds; s.pos already points past it. */
  function Perform(act: Action, s: Cpu): Outcome {
    match act
    case Alu(op, dst, a, b) => Next(s.(regs := AluResult(op, s.regs, dst, s.regs[a], Eval(b, s.regs))))
    case Compare(a, b) => Next(s.(regs := CompareResult(s.regs, s.regs[a], Eval(b, s.regs))))
    case TestBits(b) => Next(s.(regs := TestResult(s.regs, Eval(b, s.regs))))
    case Jump(link, target) => Next(DoJump(link, target, s))
    case LoadImm(size, sub, v) =>
      Next(s.(regs := if size == Byte then PutReg(Byte, s.regs, sub, v % 0x100) else PutReg(Word, s.regs, sub, v)))
    case LoadMem(size, sub, base, disp) => DoLoad(size, sub, Address(base, disp, s.regs), s)
    case StoreMem(size, base, sub, disp) => DoStore(size, sub, Address(base, disp, s.regs), s)
    case StoreMany(base, lo, hi) => DoStoreMany(base, lo, hi, s)
    case LoadMany(base, lo, hi) => DoLoadMany(base, lo, hi, s)
    case CompareExchange(addr, a, b) => DoCompareExchange(addr, a, b, s)
    case Move(size, a, b) => Next(s.(regs := PutReg(size, s.regs, a, GetReg(size, s.regs, b))))
    case MoveImm(a, v) => Next(s.(regs := s.regs[a := v]))
    case FromControl(a, c) => Next(s.(regs := s.regs[a := s.cregs[c]]))
    case ToControl(c, a) => Next(s.(cregs := s.cregs[c := s.regs[a]]))
    case Complement(a, b) => Next(s.(regs := s.regs[a := Not32(s.regs[b])]))
    case Extend(size, a, view) =>
      if view >= Views(size) then Next(s) else Next(s.(regs := s.regs[a := SignExtend(size, GetReg(size, s.regs, view))]))
    case Exchange(a, b) => Next(s.(regs := s.regs[a := s.regs[b]][b := s.regs[a]]))
    case ExchangeControl(a, c) => Next(s.(regs := s.regs[a := s.cregs[c]], cregs := s.cregs[c := s.regs[a]]))
    case Stop => Done(s, 0)
    case Fail(code) => Done(s, code)
    case PortAccess => Device
    case Nop => Next(s)
  }

  /** SEX extends the low part of the 32-bit register that its second operand numbers. */
  lemma SexReadsLowPart(i: Ins, s: Cpu)
    requires i.opcode == OP_SEX
    ensures var x := s.regs[i.opb];
            Perform(Dispatch(i), s) ==
            Next(if i.prefix == PREFIX_BYTE then s.(regs := s.regs[i.opa := SignExtend(Byte, x % 0x100)])
                 else if i.prefix == PREFIX_WORD then s.(regs := s.regs[i.opa := SignExtend(Word, x % 0x1_0000)])
                 else s)
  {
    assert (4 * i.opb) / 4 == i.opb && (4 * i.opb) % 4 == 0;
    assert (2 * i.opb) / 2 == i.opb && (2 * i.opb) % 2 == 0;
    hide SignExtend;
  }

  /** STOP and FAIL are the only opcodes that end a run. */
  lemma OnlyTwoHalt(i: Ins, s: Cpu)
    ensures i.opcode == OP_STOP ==> Perform(Dispatch(i), s) == Done(s, 0)
    ensures i.opcode == OP_FAIL ==> Perform(Dispatch(i), s) == Done(s, i.imm16)
    ensures i.opcode != OP_STOP && i.opcode != OP_FAIL ==> !Perform(Dispatch(i), s).Done?
  {
  }

  /** Executing one decoded word after its fetch. */
  function Execute(i: Ins, s: Cpu): Outcome {
    if Holds(i.condition, s.regs[REG_FLGS]) then Perform(Dispatch(i), s) else Next(s)
  }

  function Fetched(s: Cpu): Cpu {
    s.(pos := Wrap(s.pos + 4), count := (s.count + 1) % 0x1_0000_0000_0000_0000)
  }

  function WordAt(m: memory, a: dword): code4
    requires InMemory(m, a, 4)
  {
    m[a..a + 4]
  }

  /** Fetch, decode, test the condition, execute. */
  function Step(s: Cpu): Outcome {
    if InMemory(s.mem, s.pos, 4) then Execute(Decode(WordAt(s.mem, s.pos)), Fetched(s)) else Fault
  }

  /** At most n steps, stopping early when a step does not lead to another one. */
  function Run(s: Cpu, n: nat): Outcome
    decreases n
  {
    if n == 0 then Next(s)
    else
      var o := Step(s);
      if o.Next? then Run(o.s, n - 1) else o
  }

  lemma RunUnfold(s: Cpu, n: nat)
    requires Run(s, n).Done?
    ensures n > 0 && (Step(s).Next? || Step(s).Done?)
    ensures Run(s, n) == if Step(s).Next? then Run(Step(s).s, n - 1) else Step(s)
  {
  }
}
