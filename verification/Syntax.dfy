/** Assembly instructions as the grammar accepts them: encoding, disassembly, and the actions they lead to. */
module Syntax {
  import opened Words
  import opened Isa
  import opened Encoding
  import opened Machine

  /** One machine instruction of the assembly language, mnemonics and registers given by their numbers. */
  datatype Source =
    | Bare(op: opcode, cond: nibble)
    | Binary(op: opcode, cond: nibble, dst: nibble, a: nibble, b: Operand)
    | Many(op: opcode, cond: nibble, base: nibble, range: word)
    | Single(op: opcode, cond: nibble, t: Operand)
    | Pair(op: opcode, cond: nibble, a: nibble, r: nibble)
    | CompareWith(cond: nibble, a: nibble, v: word)
    | MoveToControl(cond: nibble, c: nibble, a: nibble)
    | MoveFromControl(cond: nibble, a: nibble, c: nibble)
    | Signal(op: opcode, cond: nibble, v: word)
    | CmpXchg(cond: nibble, dst: nibble, a: nibble, r: nibble)
    | LoadI(size: Size, cond: nibble, sub: nibble, v: word)
    | LoadId(size: Size, cond: nibble, sub: nibble, base: nibble, v: word)
    | LoadRd(size: Size, cond: nibble, sub: nibble, base: nibble, off: nibble)
    | Mov(size: Size, cond: nibble, a: nibble, r: nibble)
    | Sex(size: Size, cond: nibble, a: nibble, sub: nibble)
    | StoreId(size: Size, cond: nibble, base: nibble, sub: nibble, v: word)
    | StoreRd(size: Size, cond: nibble, base: nibble, sub: nibble, off: nibble)
    | XchgC(cond: nibble, a: nibble, c: nibble)
    | System(op: opcode, cond: nibble, a: nibble)

  /** The mnemonic classes of the scanner, and the operand sizes of the grammar. */
  predicate WellFormed(src: Source) {
    match src
    case Bare(op, _) => op == OP_STOP || op == OP_IRET
    case Binary(op, _, _, _, _) => IsAlu(op)
    case Many(op, _, _, _) => op == OP_LOADMA || op == OP_STOREMA
    case Single(op, _, _) => op == OP_CALL || op == OP_JMP || op == OP_TEST
    case Pair(op, _, _, _) => op == OP_CMP || op == OP_IN || op == OP_NOT || op == OP_OUT || op == OP_XCHG
    case Signal(op, _, _) => op == OP_FAIL || op == OP_INT
    case LoadI(size, _, _, _) => size != Dword
    case Sex(size, _, _, _) => size != Dword
    case System(op, cond, _) => (op == OP_LOADAS || op == OP_STOREAS) && cond == COND_ALWAYS
    case _ => true
  }

  /** Whether the 12-bit check of the assembler lets the instruction through. */
  predicate InRange(src: Source) {
    match src
    case Binary(_, _, _, _, Imm(v)) => v < 0x1000
    case CompareWith(_, _, v) => v < 0x1000
    case LoadId(_, _, _, _, v) => v < 0x1000
    case StoreId(_, _, _, _, v) => v < 0x1000
    case _ => true
  }

  function SizePrefix(size: Size): prefix {
    match size
    case Dword => PREFIX_DWORD
    case Word => PREFIX_WORD
    case Byte => PREFIX_BYTE
  }

  /** The bytes that the grammar action of an instruction emits. */
  function Encode(src: Source): code4
    requires InRange(src)
  {
    match src
    case Bare(op, c) => FormatII(PREFIX_DWORD, c, op, 0, 0, 0)
    case Binary(op, c, dst, a, Reg(r)) => FormatII(PREFIX_DWORD, c, op, dst, a, r)
    case Binary(op, c, dst, a, Imm(v)) => FormatIII(PREFIX_IMM, c, op, dst, a, v)
    case Many(op, c, base, range) => FormatIV(PREFIX_IMM, c, op, base, range)
    case Single(op, c, Reg(r)) => FormatII(PREFIX_DWORD, c, op, r, 0, 0)
    case Single(op, c, Imm(v)) => FormatIV(PREFIX_IMM, c, op, 0, v)
    case Pair(op, c, a, r) => FormatII(PREFIX_DWORD, c, op, 0, a, r)
    case CompareWith(c, a, v) => FormatIII(PREFIX_IMM, c, OP_CMP, 0, a, v)
    case MoveToControl(c, cr, a) => FormatII(PREFIX_DWORD, c, OP_MOVTC, 0, cr, a)
    case MoveFromControl(c, a, cr) => FormatII(PREFIX_DWORD, c, OP_MOVFC, 0, a, cr)
    case Signal(op, c, v) => FormatIV(PREFIX_IMM, c, op, 0, v)
    case CmpXchg(c, dst, a, r) => FormatII(PREFIX_DWORD, c, OP_CMPXCHG, dst, a, r)
    case LoadI(size, c, sub, v) => FormatIV(SizePrefix(size), c, OP_LOADI, sub, v)
    case LoadId(size, c, sub, base, v) => FormatIII(SizePrefix(size), c, OP_LOADID, sub, base, v)
    case LoadRd(size, c, sub, base, off) =>
      // the conditional 16-bit form looks both outer names up in the wrong table and gets 0
      if size == Word && c != COND_ALWAYS then FormatII(PREFIX_WORD, c, OP_LOADRD, 0, base, 0)
      else FormatII(SizePrefix(size), c, OP_LOADRD, sub, base, off)
    case Mov(size, c, a, r) => FormatII(SizePrefix(size), c, OP_MOV, 0, a, r)
    case Sex(size, c, a, sub) => FormatII(SizePrefix(size), c, OP_SEX, 0, a, sub)
    case StoreId(size, c, base, sub, v) => FormatIII(SizePrefix(size), c, OP_STOREID, base, sub, v)
    case StoreRd(size, c, base, sub, off) => FormatII(SizePrefix(size), c, OP_STORERD, base, sub, off)
    case XchgC(c, a, cr) =>
      // the conditional form looks the control register up among the 8-bit registers and gets 0
      FormatII(PREFIX_DWORD, c, OP_XCHGC, 0, a, if c == COND_ALWAYS then cr else CREG_MR1)
    case System(op, c, a) => FormatII(PREFIX_DWORD, c, op, a, 0, 0)
  }

  /** The two conditional forms that lose operands. */
  predicate Misencoded(src: Source) {
    || (src.LoadRd? && src.size == Word && src.cond != COND_ALWAYS && !(src.sub == 0 && src.off == 0))
    || (src.XchgC? && src.cond != COND_ALWAYS && src.c != CREG_MR1)
  }

  /** What the assembler keeps of an instruction: the instruction itself, or 0 for the operands it loses. */
  function Kept(src: Source): Source {
    match src
    case LoadRd(size, c, sub, base, off) =>
      if size == Word && c != COND_ALWAYS then LoadRd(size, c, 0, base, 0) else src
    case XchgC(c, a, cr) => if c != COND_ALWAYS then XchgC(c, a, CREG_MR1) else src
    case _ => src
  }

  /** The kept instruction has the same bytes, loses nothing more, and differs exactly for the two forms. */
  lemma KeptEncodes(src: Source)
    requires WellFormed(src) && InRange(src)
    ensures WellFormed(Kept(src)) && InRange(Kept(src)) && !Misencoded(Kept(src)) && Kept(src).cond == src.cond
    ensures Encode(Kept(src)) == Encode(src)
    ensures Kept(src) == src <==> !Misencoded(src)
  {
    hide FormatII, FormatIII, FormatIV;
  }

  // ----- text -----

  /** An operand as it is written: a register of one of the four name tables, or a number. */
  datatype Arg = Reg32(n: nibble) | Reg16(n: nibble) | Reg8(n: nibble) | Control(n: nibble) | Number(v: word)

  function Sized(size: Size, n: nibble): Arg {
    match size
    case Dword => Reg32(n)
    case Word => Reg16(n)
    case Byte => Reg8(n)
  }

  function OperandText(b: Operand): Arg {
    match b
    case Reg(r) => Reg32(r)
    case Imm(v) => Number(v)
  }

  /** The operands of an instruction in the order in which they are written. */
  function Arguments(src: Source): seq<Arg> {
    match src
    case Bare(_, _) => []
    case Binary(_, _, dst, a, b) => [Reg32(dst), Reg32(a), OperandText(b)]
    case Many(_, _, base, range) => [Reg32(base), Number(range)]
    case Single(_, _, t) => [OperandText(t)]
    case Pair(_, _, a, r) => [Reg32(a), Reg32(r)]
    case CompareWith(_, a, v) => [Reg32(a), Number(v)]
    case MoveToControl(_, c, a) => [Control(c), Reg32(a)]
    case MoveFromControl(_, a, c) => [Reg32(a), Control(c)]
    case Signal(_, _, v) => [Number(v)]
    case CmpXchg(_, dst, a, r) => [Reg32(dst), Reg32(a), Reg32(r)]
    case LoadI(size, _, sub, v) => [Sized(size, sub), Number(v)]
    case LoadId(size, _, sub, base, v) => [Sized(size, sub), Reg32(base), Number(v)]
    case LoadRd(size, _, sub, base, off) => [Sized(size, sub), Reg32(base), Reg32(off)]
    case Mov(size, _, a, r) => [Sized(size, a), Sized(size, r)]
    case Sex(size, _, a, sub) => [Reg32(a), Sized(size, sub)]
    case StoreId(size, _, base, sub, v) => [Reg32(base), Sized(size, sub), Number(v)]
    case StoreRd(size, _, base, sub, off) => [Reg32(base), Sized(size, sub), Reg32(off)]
    case XchgC(_, a, c) => [Reg32(a), Control(c)]
    case System(_, _, a) => [Reg32(a)]
  }

  /** The opcode that a mnemonic stands for. */
  function Mnemonic(src: Source): opcode {
    match src
    case CompareWith(_, _, _) => OP_CMP
    case MoveToControl(_, _, _) => OP_MOVTC
    case MoveFromControl(_, _, _) => OP_MOVFC
    case CmpXchg(_, _, _, _) => OP_CMPXCHG
    case LoadI(_, _, _, _) => OP_LOADI
    case LoadId(_, _, _, _, _) => OP_LOADID
    case LoadRd(_, _, _, _, _) => OP_LOADRD
    case Mov(_, _, _, _) => OP_MOV
    case Sex(_, _, _, _) => OP_SEX
    case StoreId(_, _, _, _, _) => OP_STOREID
    case StoreRd(_, _, _, _, _) => OP_STORERD
    case XchgC(_, _, _) => OP_XCHGC
    case _ => src.op
  }

  lemma EncodedMnemonic(src: Source)
    requires InRange(src)
    ensures Decode(Encode(src)).opcode == Mnemonic(src)
  {
  }

  // ----- disassembler -----

  /** The instruction that the disassembler shows for a word; None where it shows "INVALID". */
  function Disassemble(w: code4): (r: Option<Source>) {
    var i := Decode(w);
    if i.prefix == PREFIX_DWORD then DisDword(i)
    else if i.prefix == PREFIX_IMM then DisImmediate(i)
    else DisSized(i)
  }

  function DisDword(i: Ins): (r: Option<Source>) {
    var c, op := i.condition, i.opcode;
    if op == OP_STOP || op == OP_IRET then Some(Bare(op, c))
    else if op == OP_CMPXCHG then Some(CmpXchg(c, i.dst, i.opa, i.opb))
    else if op == OP_LOADRD then Some(LoadRd(Dword, c, i.dst, i.opa, i.opb))
    else if op == OP_STORERD then Some(StoreRd(Dword, c, i.dst, i.opa, i.opb))
    else if IsAlu(op) then Some(Binary(op, c, i.dst, i.opa, Reg(i.opb)))
    else if op == OP_CALL || op == OP_JMP || op == OP_TEST then Some(Single(op, c, Reg(i.dst)))
    else if op == OP_LOADAS || op == OP_STOREAS then Some(System(op, c, i.dst))
    else if op == OP_MOV then Some(Mov(Dword, c, i.opa, i.opb))
    else if op == OP_CMP || op == OP_IN || op == OP_NOT || op == OP_OUT || op == OP_XCHG then
      Some(Pair(op, c, i.opa, i.opb))
    else if op == OP_LOADID then Some(LoadId(Dword, c, i.dst, i.opa, i.imm12))
    else if op == OP_STOREID then Some(StoreId(Dword, c, i.dst, i.opa, i.imm12))
    else if op == OP_MOVTC then Some(MoveToControl(c, i.opa, i.opb))
    else if op == OP_XCHGC then Some(XchgC(c, i.opa, i.opb))
    else if op == OP_MOVFC then Some(MoveFromControl(c, i.opa, i.opb))
    else None
  }

  /** The tables for the word and byte prefixes list the same seven opcodes. */
  function DisSized(i: Ins): (r: Option<Source>)
    requires i.prefix == PREFIX_WORD || i.prefix == PREFIX_BYTE
  {
    var c, op, size := i.condition, i.opcode, PrefixSize(i.prefix);
    if op == OP_LOADI then Some(LoadI(size, c, i.dst, i.imm16))
    else if op == OP_LOADID then Some(LoadId(size, c, i.dst, i.opa, i.imm12))
    else if op == OP_LOADRD then Some(LoadRd(size, c, i.dst, i.opa, i.opb))
    else if op == OP_MOV then Some(Mov(size, c, i.opa, i.opb))
    else if op == OP_SEX then Some(Sex(size, c, i.opa, i.opb))
    else if op == OP_STOREID then Some(StoreId(size, c, i.dst, i.opa, i.imm12))
    else if op == OP_STORERD then Some(StoreRd(size, c, i.dst, i.opa, i.opb))
    else None
  }

  function DisImmediate(i: Ins): (r: Option<Source>) {
    var c, op := i.condition, i.opcode;
    if IsAlu(op) then Some(Binary(op, c, i.dst, i.opa, Imm(i.imm12)))
    else if op == OP_CMP then Some(CompareWith(c, i.opa, i.imm12))
    else if op == OP_CALL || op == OP_JMP || op == OP_TEST then Some(Single(op, c, Imm(i.imm16)))
    else if op == OP_FAIL || op == OP_INT then Some(Signal(op, c, i.imm16))
    else if op == OP_LOADMA || op == OP_STOREMA then Some(Many(op, c, i.dst, i.imm16))
    else None
  }

  /** The prefix that the grammar action of an instruction emits. */
  function Prefix(src: Source): prefix {
    match src
    case Binary(_, _, _, _, Imm(_)) => PREFIX_IMM
    case Many(_, _, _, _) => PREFIX_IMM
    case Single(_, _, Imm(_)) => PREFIX_IMM
    case CompareWith(_, _, _) => PREFIX_IMM
    case Signal(_, _, _) => PREFIX_IMM
    case LoadI(size, _, _, _) => SizePrefix(size)
    case LoadId(size, _, _, _, _) => SizePrefix(size)
    case LoadRd(size, _, _, _, _) => SizePrefix(size)
    case Mov(size, _, _, _) => SizePrefix(size)
    case Sex(size, _, _, _) => SizePrefix(size)
    case StoreId(size, _, _, _, _) => SizePrefix(size)
    case StoreRd(size, _, _, _, _) => SizePrefix(size)
    case _ => PREFIX_DWORD
  }

  /** Disassembling an encoded instruction shows what the assembler kept of it: all of it, save for the two forms. */
  lemma DisassembleEncode(src: Source)
    requires WellFormed(src) && InRange(src)
    ensures Disassemble(Encode(src)) == Some(Kept(src))
    ensures Disassemble(Encode(src)) == Some(src) <==> !Misencoded(src)
  {
    hide Encode, Disassemble, WellFormed, InRange, Misencoded, Kept;
    KeptEncodes(src);
    DisassembleKept(Kept(src));
  }

  lemma DisassembleKept(src: Source)
    requires WellFormed(src) && InRange(src)
    ensures Disassemble(Encode(src)) == Some(src) <==> !Misencoded(src)
  {
    EncodePrefix(src);
    if Prefix(src) == PREFIX_DWORD {
      DisassembleDword(src);
    } else if Prefix(src) == PREFIX_IMM {
      DisassembleImmediate(src);
    } else {
      DisassembleSized(src);
    }
  }

  lemma EncodePrefix(src: Source)
    requires InRange(src)
    ensures Decode(Encode(src)).prefix == Prefix(src)
  {
  }

  lemma DisassembleDword(src: Source)
    requires WellFormed(src) && InRange(src) && Prefix(src) == PREFIX_DWORD
    ensures DisDword(Decode(Encode(src))) == Some(src) <==> !Misencoded(src)
  {
    match src
    case Bare(op, c) => DecodeII(PREFIX_DWORD, c, op, 0, 0, 0);
    case Binary(op, c, dst, a, Reg(r)) => DisassembleBinary(op, c, dst, a, r);
    case Single(op, c, Reg(r)) => DecodeII(PREFIX_DWORD, c, op, r, 0, 0);
    case Pair(op, c, a, r) => DecodeII(PREFIX_DWORD, c, op, 0, a, r);
    case System(op, c, a) => DecodeII(PREFIX_DWORD, c, op, a, 0, 0);
    case MoveToControl(_, _, _) => DisassembleFixedDword(src);
    case MoveFromControl(_, _, _) => DisassembleFixedDword(src);
    case CmpXchg(_, _, _, _) => DisassembleFixedDword(src);
    case LoadId(_, _, _, _, _) => DisassembleSizedDword(src);
    case LoadRd(_, _, _, _, _) => DisassembleSizedDword(src);
    case Mov(_, _, _, _) => DisassembleSizedDword(src);
    case StoreId(_, _, _, _, _) => DisassembleSizedDword(src);
    case StoreRd(_, _, _, _, _) => DisassembleSizedDword(src);
    case XchgC(_, _, _) => DisassembleFixedDword(src);
  }

  lemma DisassembleBinary(op: opcode, c: nibble, dst: nibble, a: nibble, r: nibble)
    requires IsAlu(op)
    ensures DisDword(Decode(FormatII(PREFIX_DWORD, c, op, dst, a, r))) == Some(Binary(op, c, dst, a, Reg(r)))
  {
    DecodeII(PREFIX_DWORD, c, op, dst, a, r);
  }

  lemma DisassembleFixedDword(src: Source)
    requires src.MoveToControl? || src.MoveFromControl? || src.CmpXchg? || src.XchgC?
    ensures DisDword(Decode(Encode(src))) == Some(src) <==> !Misencoded(src)
  {
    match src
    case MoveToControl(c, cr, a) => DecodeII(PREFIX_DWORD, c, OP_MOVTC, 0, cr, a);
    case MoveFromControl(c, a, cr) => DecodeII(PREFIX_DWORD, c, OP_MOVFC, 0, a, cr);
    case CmpXchg(c, dst, a, r) => DecodeII(PREFIX_DWORD, c, OP_CMPXCHG, dst, a, r);
    case XchgC(c, a, cr) => DecodeII(PREFIX_DWORD, c, OP_XCHGC, 0, a, if c == COND_ALWAYS then cr else CREG_MR1);
  }

  lemma DisassembleSizedDword(src: Source)
    requires src.LoadId? || src.LoadRd? || src.Mov? || src.StoreId? || src.StoreRd?
    requires InRange(src) && src.size == Dword
    ensures DisDword(Decode(Encode(src))) == Some(src)
  {
    match src
    case LoadId(size, c, sub, base, v) => DecodeIII(PREFIX_DWORD, c, OP_LOADID, sub, base, v);
    case LoadRd(size, c, sub, base, off) => DecodeII(PREFIX_DWORD, c, OP_LOADRD, sub, base, off);
    case Mov(size, c, a, r) => DecodeII(PREFIX_DWORD, c, OP_MOV, 0, a, r);
    case StoreId(size, c, base, sub, v) => DecodeIII(PREFIX_DWORD, c, OP_STOREID, base, sub, v);
    case StoreRd(size, c, base, sub, off) => DecodeII(PREFIX_DWORD, c, OP_STORERD, base, sub, off);
  }

  lemma DisassembleImmediate(src: Source)
    requires WellFormed(src) && InRange(src) && Prefix(src) == PREFIX_IMM
    ensures DisImmediate(Decode(Encode(src))) == Some(src) && !Misencoded(src)
  {
    match src
    case Binary(op, c, dst, a, Imm(v)) => DecodeIII(PREFIX_IMM, c, op, dst, a, v);
    case Many(op, c, base, range) => DecodeIV(PREFIX_IMM, c, op, base, range);
    case Single(op, c, Imm(v)) => DecodeIV(PREFIX_IMM, c, op, 0, v);
    case CompareWith(c, a, v) => DecodeIII(PREFIX_IMM, c, OP_CMP, 0, a, v);
    case Signal(op, c, v) => DecodeIV(PREFIX_IMM, c, op, 0, v);
  }

  lemma DisassembleSized(src: Source)
    requires WellFormed(src) && InRange(src) && (Prefix(src) == PREFIX_WORD || Prefix(src) == PREFIX_BYTE)
    ensures Decode(Encode(src)).prefix == Prefix(src)
    ensures DisSized(Decode(Encode(src))) == Some(src) <==> !Misencoded(src)
  {
    match src
    case LoadI(size, c, sub, v) => DecodeIV(SizePrefix(size), c, OP_LOADI, sub, v);
    case LoadId(size, c, sub, base, v) => DecodeIII(SizePrefix(size), c, OP_LOADID, sub, base, v);
    case LoadRd(size, c, sub, base, off) =>
      DecodeII(SizePrefix(size), c, OP_LOADRD, sub, base, off);
      DecodeII(PREFIX_WORD, c, OP_LOADRD, 0, base, 0);
    case Mov(size, c, a, r) => DecodeII(SizePrefix(size), c, OP_MOV, 0, a, r);
    case Sex(size, c, a, sub) => DecodeII(SizePrefix(size), c, OP_SEX, 0, a, sub);
    case StoreId(size, c, base, sub, v) => DecodeIII(SizePrefix(size), c, OP_STOREID, base, sub, v);
    case StoreRd(size, c, base, sub, off) => DecodeII(SizePrefix(size), c, OP_STORERD, base, sub, off);
  }

  // ----- actions -----

  /**
   * The action that the mnemonic and the operands of an instruction name. The interrupt and system-stack
   * instructions, whose implementation was removed, name no action.
   */
  function Written(src: Source): Action
    requires WellFormed(src)
  {
    match src
    case Bare(op, _) => if op == OP_STOP then Stop else Nop
    case Binary(op, _, dst, a, b) => Alu(AluOpOf(op), dst, a, b)
    case Many(op, _, base, range) =>
      var lo, hi := range % 0x100 / 0x10, range % 0x100 % 0x10;
      if op == OP_STOREMA then StoreMany(base, lo, hi) else LoadMany(base, lo, hi)
    case Single(op, _, t) => if op == OP_TEST then TestBits(t) else Jump(op == OP_CALL, t)
    case Pair(op, _, a, r) =>
      if op == OP_CMP then Compare(a, Reg(r))
      else if op == OP_NOT then Complement(a, r)
      else if op == OP_XCHG then Exchange(a, r)
      else PortAccess
    case CompareWith(_, a, v) => Compare(a, Imm(v))
    case MoveToControl(_, c, a) => ToControl(c, a)
    case MoveFromControl(_, a, c) => FromControl(a, c)
    case Signal(op, _, v) => if op == OP_FAIL then Fail(v) else Nop
    case CmpXchg(_, dst, a, r) => CompareExchange(dst, a, r)
    case LoadI(size, _, sub, v) => LoadImm(size, sub, v)
    case LoadId(size, _, sub, base, v) => LoadMem(size, sub, base, Imm(v))
    case LoadRd(size, _, sub, base, off) => LoadMem(size, sub, base, Reg(off))
    case Mov(size, _, a, r) => Move(size, a, r)
    case Sex(size, _, a, sub) => Extend(size, a, sub)
    case StoreId(size, _, base, sub, v) => StoreMem(size, base, sub, Imm(v))
    case StoreRd(size, _, base, sub, off) => StoreMem(size, base, sub, Reg(off))
    case XchgC(_, a, c) => ExchangeControl(a, c)
    case System(_, _, _) => Nop
  }

  /** The forms that the processor does not dispatch as written. */
  predicate Diverges(src: Source) {
    || Misencoded(src)
    || (src.Binary? && src.op == OP_MOD && src.b.Imm?)
    || (src.Sex? && src.sub != 0)
  }

  /**
   * The action that the processor takes for an instruction: MOD reads the top digit of an immediate as a
   * register number, and SEX reads the number of its sub-register as that of a 32-bit register.
   */
  function Actual(src: Source): Action
    requires WellFormed(src)
  {
    match src
    case Binary(op, _, dst, a, Imm(v)) =>
      if op == OP_MOD then Alu(Mod, dst, a, Reg(v % 0x1000 / 0x100)) else Written(src)
    case Sex(size, _, a, sub) => Extend(size, a, if size == Byte then 4 * sub else 2 * sub)
    case LoadRd(size, c, _, base, _) =>
      if size == Word && c != COND_ALWAYS then LoadMem(size, 0, base, Reg(0)) else Written(src)
    case XchgC(c, a, _) => if c != COND_ALWAYS then ExchangeControl(a, CREG_MR1) else Written(src)
    case _ => Written(src)
  }

  /** The two actions differ exactly for the divergent forms. */
  lemma ActualIsWritten(src: Source)
    requires WellFormed(src)
    ensures Actual(src) == Written(src) <==> !Diverges(src)
  {
  }

  /** The processor decodes every assembled instruction to its actual action. */
  lemma DispatchEncode(src: Source)
    requires WellFormed(src) && InRange(src)
    ensures Decode(Encode(src)).condition == src.cond
    ensures Dispatch(Decode(Encode(src))) == Actual(src)
    ensures Dispatch(Decode(Encode(src))) == Written(src) <==> !Diverges(src)
  {
    hide Encode, Decode, Dispatch, Written, Actual, Diverges;
    ActualIsWritten(src);
    match src
    case Binary(_, _, _, _, _) => DispatchBinary(src);
    case Bare(_, _) => DispatchPlain(src);
    case Single(_, _, _) => DispatchSingle(src);
    case Pair(_, _, _, _) => DispatchPair(src);
    case CompareWith(_, _, _) => DispatchImmediate(src);
    case Signal(_, _, _) => DispatchImmediate(src);
    case System(_, _, _) => DispatchPlain(src);
    case Many(_, _, _, _) => DispatchMany(src);
    case CmpXchg(_, _, _, _) => DispatchFixed(src);
    case MoveToControl(_, _, _) => DispatchFixed(src);
    case MoveFromControl(_, _, _) => DispatchFixed(src);
    case XchgC(_, _, _) => DispatchFixed(src);
    case LoadI(_, _, _, _) => DispatchSized(src);
    case LoadId(_, _, _, _, _) => DispatchSized(src);
    case LoadRd(_, _, _, _, _) => DispatchLoadRd(src);
    case StoreId(_, _, _, _, _) => DispatchSized(src);
    case StoreRd(_, _, _, _, _) => DispatchSized(src);
    case Mov(_, _, _, _) => DispatchMove(src);
    case Sex(_, _, _, _) => DispatchMove(src);
  }

  lemma DispatchFixed(src: Source)
    requires src.CmpXchg? || src.MoveToControl? || src.MoveFromControl? || src.XchgC?
    ensures Decode(Encode(src)).condition == src.cond
    ensures Dispatch(Decode(Encode(src))) == Actual(src)
  {
    match src
    case CmpXchg(c, dst, a, r) => DecodeII(PREFIX_DWORD, c, OP_CMPXCHG, dst, a, r);
    case MoveToControl(c, cr, a) => DecodeII(PREFIX_DWORD, c, OP_MOVTC, 0, cr, a);
    case MoveFromControl(c, a, cr) => DecodeII(PREFIX_DWORD, c, OP_MOVFC, 0, a, cr);
    case XchgC(c, a, cr) => DecodeII(PREFIX_DWORD, c, OP_XCHGC, 0, a, if c == COND_ALWAYS then cr else CREG_MR1);
  }

  lemma DispatchBinary(src: Source)
    requires src.Binary? && WellFormed(src) && InRange(src)
    ensures Decode(Encode(src)).condition == src.cond
    ensures Dispatch(Decode(Encode(src))) == Actual(src)
  {
    match src.b
    case Reg(r) => DecodeII(PREFIX_DWORD, src.cond, src.op, src.dst, src.a, r);
    case Imm(v) =>
      DecodeIII(PREFIX_IMM, src.cond, src.op, src.dst, src.a, v);
      DivModUnique(v, 0x1000, 0, v);
      hide FormatIII;
  }

  lemma DispatchMany(src: Source)
    requires src.Many? && WellFormed(src)
    ensures Decode(Encode(src)).condition == src.cond
    ensures Dispatch(Decode(Encode(src))) == Actual(src)
  {
    DecodeIV(PREFIX_IMM, src.cond, src.op, src.base, src.range);
  }

  lemma DispatchPlain(src: Source)
    requires src.Bare? || src.System?
    requires WellFormed(src)
    ensures Decode(Encode(src)).condition == src.cond
    ensures Dispatch(Decode(Encode(src))) == Actual(src)
  {
    match src
    case Bare(op, c) => DecodeII(PREFIX_DWORD, c, op, 0, 0, 0);
    case System(op, c, a) => DecodeII(PREFIX_DWORD, c, op, a, 0, 0);
  }

  lemma DispatchImmediate(src: Source)
    requires src.CompareWith? || src.Signal?
    requires WellFormed(src) && InRange(src)
    ensures Decode(Encode(src)).condition == src.cond
    ensures Dispatch(Decode(Encode(src))) == Actual(src)
  {
    match src
    case CompareWith(c, a, v) => DecodeIII(PREFIX_IMM, c, OP_CMP, 0, a, v);
    case Signal(op, c, v) => DecodeIV(PREFIX_IMM, c, op, 0, v);
  }

  lemma DispatchPair(src: Source)
    requires src.Pair? && WellFormed(src)
    ensures Decode(Encode(src)).condition == src.cond
    ensures Dispatch(Decode(Encode(src))) == Actual(src)
  {
    DecodeII(PREFIX_DWORD, src.cond, src.op, 0, src.a, src.r);
  }

  lemma DispatchSingle(src: Source)
    requires src.Single? && WellFormed(src)
    ensures Decode(Encode(src)).condition == src.cond
    ensures Dispatch(Decode(Encode(src))) == Actual(src)
  {
    match src.t
    case Reg(r) => DecodeII(PREFIX_DWORD, src.cond, src.op, r, 0, 0);
    case Imm(v) => DecodeIV(PREFIX_IMM, src.cond, src.op, 0, v);
  }

  lemma DispatchSized(src: Source)
    requires src.LoadI? || src.LoadId? || src.StoreId? || src.StoreRd?
    requires WellFormed(src) && InRange(src)
    ensures Decode(Encode(src)).condition == src.cond
    ensures Dispatch(Decode(Encode(src))) == Actual(src)
  {
    match src
    case LoadI(size, c, sub, v) => DecodeIV(SizePrefix(size), c, OP_LOADI, sub, v);
    case LoadId(size, c, sub, base, v) => DecodeIII(SizePrefix(size), c, OP_LOADID, sub, base, v);
    case StoreId(size, c, base, sub, v) => DecodeIII(SizePrefix(size), c, OP_STOREID, base, sub, v);
    case StoreRd(size, c, base, sub, off) => DecodeII(SizePrefix(size), c, OP_STORERD, base, sub, off);
  }

  lemma DispatchLoadRd(src: Source)
    requires src.LoadRd?
    ensures Decode(Encode(src)).condition == src.cond
    ensures Dispatch(Decode(Encode(src))) == Actual(src)
  {
    DecodeII(SizePrefix(src.size), src.cond, OP_LOADRD, src.sub, src.base, src.off);
    DecodeII(PREFIX_WORD, src.cond, OP_LOADRD, 0, src.base, 0);
  }

  lemma DispatchMove(src: Source)
    requires src.Mov? || src.Sex?
    requires WellFormed(src) && InRange(src)
    ensures Decode(Encode(src)).condition == src.cond
    ensures Dispatch(Decode(Encode(src))) == Actual(src)
  {
    match src
    case Mov(size, c, a, r) => DecodeII(SizePrefix(size), c, OP_MOV, 0, a, r);
    case Sex(size, c, a, sub) => DecodeII(SizePrefix(size), c, OP_SEX, 0, a, sub);
  }

  /**
   * Assembling what the disassembler shows of a word gives a word with the same condition, and with the same
   * action exactly when no operand is lost on the way.
   */
  lemma ReassemblePreservesMeaning(w: code4, src: Source)
    requires Disassemble(w) == Some(src) && WellFormed(src)
    ensures InRange(src)
    ensures Decode(Encode(src)).condition == Decode(w).condition
    ensures Dispatch(Decode(Encode(src))) == Dispatch(Decode(w)) <==> !Misencoded(src)
  {
    var i := Decode(w);
    if i.prefix == PREFIX_DWORD {
      ReassembleDword(i, src);
    } else if i.prefix == PREFIX_IMM {
      ReassembleImmediate(i, src);
    } else {
      ReassembleSized(i, src);
    }
  }

  lemma ReassembleDword(i: Ins, src: Source)
    requires i.prefix == PREFIX_DWORD && DisDword(i) == Some(src) && WellFormed(src)
    ensures InRange(src)
    ensures src.cond == i.condition && Decode(Encode(src)).condition == src.cond
    ensures Dispatch(Decode(Encode(src))) == Dispatch(i) <==> !Misencoded(src)
  {
    DispatchEncode(src);
  }

  lemma ReassembleImmediate(i: Ins, src: Source)
    requires i.prefix == PREFIX_IMM && i.opb == i.imm12 / 0x100 && DisImmediate(i) == Some(src)
    ensures WellFormed(src) && InRange(src) && !Misencoded(src)
    ensures src.cond == i.condition && Decode(Encode(src)).condition == src.cond
    ensures Dispatch(Decode(Encode(src))) == Dispatch(i)
  {
    if IsAlu(i.opcode) {
      DecodeIII(PREFIX_IMM, i.condition, i.opcode, i.dst, i.opa, i.imm12);
    } else {
      DispatchEncode(src);
    }
  }

  lemma ReassembleSized(i: Ins, src: Source)
    requires i.prefix == PREFIX_WORD || i.prefix == PREFIX_BYTE
    requires DisSized(i) == Some(src) && WellFormed(src)
    ensures InRange(src)
    ensures src.cond == i.condition && Decode(Encode(src)).condition == src.cond
    ensures Dispatch(Decode(Encode(src))) == Dispatch(i) <==> !Misencoded(src)
  {
    if src.Sex? {
      DecodeII(i.prefix, i.condition, OP_SEX, 0, i.opa, i.opb);
    } else {
      DispatchEncode(src);
    }
  }
}
