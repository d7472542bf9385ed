/** Instructions with their bytes and their text, one for every shape. */
module Examples {
  import opened Words
  import opened Isa
  import opened Encoding
  import opened Machine
  import opened Syntax
  import opened Assembly
  import opened Vasmdis

  /** An instruction is assembled to these bytes, and they are shown with this mnemonic and these operands. */
  predicate Reads(src: Source, w: code4, op: opcode, cond: nibble, args: seq<Arg>) {
    WellFormed(src) && InRange(src) && Encode(src) == w && LineOf(w) == Line(op, cond, Some(args))
  }

  /** The text of an instruction that keeps its operands. */
  lemma ReadsAsWritten(src: Source)
    requires WellFormed(src) && InRange(src) && !Misencoded(src)
    ensures Reads(src, Encode(src), Mnemonic(src), src.cond, Arguments(src))
  {
    hide Encode, Arguments, Mnemonic, WellFormed, InRange, Misencoded, LineOf, Kept;
    KeptEncodes(src);
    LineOfEncoded(src);
  }

  // ----- ADD R1, R1, 1, as an instruction, as bytes, as words and as a dword -----

  lemma AddExample()
    ensures Reads(Binary(OP_ADD, 0, 1, 1, Imm(1)), [0xEA, 0x01, 0x10, 0x01], 0x2A, 0, [Reg32(1), Reg32(1), Number(1)])
  {
    ReadsAsWritten(Binary(OP_ADD, 0, 1, 1, Imm(1)));
    hide LineOf;
  }

  lemma BytesExample(t: Labels)
    ensures AllPass([DataBytes([0xEA, 0x01, 0x10, 0x01])])
    ensures Direct([DataBytes([0xEA, 0x01, 0x10, 0x01])], t) == [0xEA, 0x01, 0x10, 0x01]
  {
    OneStatement(DataBytes([0xEA, 0x01, 0x10, 0x01]), t);
    hide Direct;
  }

  lemma WordsExample(t: Labels)
    ensures AllPass([DataWord(0x01EA), DataWord(0x0110)])
    ensures Direct([DataWord(0x01EA), DataWord(0x0110)], t) == [0xEA, 0x01, 0x10, 0x01]
  {
    OneStatement(DataWord(0x01EA), t);
    TwoStatements(DataWord(0x01EA), DataWord(0x0110), t);
    hide Direct;
  }

  lemma DwordExample(t: Labels)
    ensures AllPass([DataDword(0x0110_01EA)]) && Direct([DataDword(0x0110_01EA)], t) == [0xEA, 0x01, 0x10, 0x01]
  {
    OneStatement(DataDword(0x0110_01EA), t);
    hide Direct;
  }

  lemma OneStatement(st: Stmt, t: Labels)
    requires Grammatical(st) && PassesAlone(st)
    ensures AllPass([st]) && Direct([st], t) == Code(st, 0, t)
  {
    hide Code, Grammatical, Passes;
    assert [st][..0] == [];
    assert Direct([], t) == [];
  }

  lemma TwoStatements(x: Stmt, y: Stmt, t: Labels)
    requires Grammatical(x) && PassesAlone(x) && Grammatical(y) && PassesAlone(y)
    ensures AllPass([x, y]) && Direct([x, y], t) == Code(x, 0, t) + Code(y, |Code(x, 0, t)|, t)
  {
    OneStatement(x, t);
    hide Code, Grammatical, Passes;
    assert [x, y][..1] == [x];
  }

  // ----- one example for every shape -----

  /** AND R3, R0, R1. */
  lemma AndExample()
    ensures Reads(Binary(OP_AND, 0, 3, 0, Reg(1)), [0x21, 0x03, 0x01, 0x00], 0x21, 0, [Reg32(3), Reg32(0), Reg32(1)])
  {
    ReadsAsWritten(Binary(OP_AND, 0, 3, 0, Reg(1)));
    hide LineOf;
  }

  /** CMP R0, R1. */
  lemma CompareExample()
    ensures Reads(Pair(OP_CMP, 0, 0, 1), [0x18, 0x00, 0x01, 0x00], 0x18, 0, [Reg32(0), Reg32(1)])
  {
    ReadsAsWritten(Pair(OP_CMP, 0, 0, 1));
    hide LineOf;
  }

  /** CMP R1, 4. */
  lemma CompareImmediateExample()
    ensures Reads(CompareWith(0, 1, 4), [0xD8, 0x00, 0x10, 0x04], 0x18, 0, [Reg32(1), Number(4)])
  {
    ReadsAsWritten(CompareWith(0, 1, 4));
    hide LineOf;
  }

  /** JMP -16. */
  lemma JumpExample()
    ensures Reads(Single(OP_JMP, 0, Imm(0xFFF0)), [0xCB, 0x00, 0xF0, 0xFF], 0x0B, 0, [Number(0xFFF0)])
  {
    ReadsAsWritten(Single(OP_JMP, 0, Imm(0xFFF0)));
    hide LineOf;
  }

  /** CALLIZ RB. */
  lemma CallExample()
    ensures Reads(Single(OP_CALL, COND_IZ, Reg(11)), [0x0C, 0x1B, 0x00, 0x00], 0x0C, 1, [Reg32(11)])
  {
    ReadsAsWritten(Single(OP_CALL, COND_IZ, Reg(11)));
    hide LineOf;
  }

  /** FAILNZ 1. */
  lemma FailExample()
    ensures Reads(Signal(OP_FAIL, COND_NZ, 1), [0xC1, 0x20, 0x01, 0x00], 0x01, 2, [Number(1)])
  {
    ReadsAsWritten(Signal(OP_FAIL, COND_NZ, 1));
    hide LineOf;
  }

  /** STOP. */
  lemma StopExample()
    ensures Reads(Bare(OP_STOP, 0), [0x00, 0x00, 0x00, 0x00], 0x00, 0, [])
  {
    ReadsAsWritten(Bare(OP_STOP, 0));
    hide LineOf;
  }

  /** LOADID R1, R0, 4. */
  lemma LoadExample()
    ensures Reads(LoadId(Dword, 0, 1, 0, 4), [0x26, 0x01, 0x00, 0x04], 0x26, 0, [Reg32(1), Reg32(0), Number(4)])
  {
    ReadsAsWritten(LoadId(Dword, 0, 1, 0, 4));
    hide LineOf;
  }

  /** STOREID R0, R1, 4. */
  lemma StoreExample()
    ensures Reads(StoreId(Dword, 0, 0, 1, 4), [0x28, 0x00, 0x10, 0x04], 0x28, 0, [Reg32(0), Reg32(1), Number(4)])
  {
    ReadsAsWritten(StoreId(Dword, 0, 0, 1, 4));
    hide LineOf;
  }

  /** LOADRD R1L, R2, R3. */
  lemma LoadDisplacedExample()
    ensures Reads(LoadRd(Word, 0, 2, 2, 3), [0x67, 0x02, 0x23, 0x00], 0x27, 0, [Reg16(2), Reg32(2), Reg32(3)])
  {
    ReadsAsWritten(LoadRd(Word, 0, 2, 2, 3));
    hide LineOf;
  }

  /** STORERD R4, R0HL, R3. */
  lemma StoreDisplacedExample()
    ensures Reads(StoreRd(Byte, 0, 4, 2, 3), [0xA9, 0x04, 0x23, 0x00], 0x29, 0, [Reg32(4), Reg8(2), Reg32(3)])
  {
    ReadsAsWritten(StoreRd(Byte, 0, 4, 2, 3));
    hide LineOf;
  }

  /** LOADI R0L, 5. */
  lemma ImmediateExample()
    ensures Reads(LoadI(Word, 0, 0, 5), [0x46, 0x00, 0x05, 0x00], 0x06, 0, [Reg16(0), Number(5)])
  {
    ReadsAsWritten(LoadI(Word, 0, 0, 5));
    hide LineOf;
  }

  /** STOREMA SP, R0:R5. */
  lemma StoreManyExample()
    ensures Reads(Many(OP_STOREMA, 0, REG_SP, 0x05), [0xC8, 0x0E, 0x05, 0x00], 0x08, 0, [Reg32(14), Number(5)])
  {
    ReadsAsWritten(Many(OP_STOREMA, 0, REG_SP, 0x05));
    hide LineOf;
  }

  /** CMPXCHG R1, R2, R3. */
  lemma CompareExchangeExample()
    ensures Reads(CmpXchg(0, 1, 2, 3), [0x1B, 0x01, 0x23, 0x00], 0x1B, 0, [Reg32(1), Reg32(2), Reg32(3)])
  {
    ReadsAsWritten(CmpXchg(0, 1, 2, 3));
    hide LineOf;
  }

  /** MOV R0L, R1H. */
  lemma MoveExample()
    ensures Reads(Mov(Word, 0, 0, 3), [0x5A, 0x00, 0x03, 0x00], 0x1A, 0, [Reg16(0), Reg16(3)])
  {
    ReadsAsWritten(Mov(Word, 0, 0, 3));
    hide LineOf;
  }

  /** SEX R3, R1LL. */
  lemma ExtendExample()
    ensures Reads(Sex(Byte, 0, 3, 4), [0x94, 0x00, 0x34, 0x00], 0x14, 0, [Reg32(3), Reg8(4)])
  {
    ReadsAsWritten(Sex(Byte, 0, 3, 4));
    hide LineOf;
  }

  /** XCHGC R1, SSP. */
  lemma ExchangeControlExample()
    ensures Reads(XchgC(0, 1, 4), [0x2F, 0x00, 0x14, 0x00], 0x2F, 0, [Reg32(1), Control(4)])
  {
    ReadsAsWritten(XchgC(0, 1, 4));
    hide LineOf;
  }

  /** MOVTC SSP, R1. */
  lemma ToControlExample()
    ensures Reads(MoveToControl(0, 4, 1), [0x1D, 0x00, 0x41, 0x00], 0x1D, 0, [Control(4), Reg32(1)])
  {
    ReadsAsWritten(MoveToControl(0, 4, 1));
    hide LineOf;
  }

  /** MOVFC R1, SSP. */
  lemma FromControlExample()
    ensures Reads(MoveFromControl(0, 1, 4), [0x1E, 0x00, 0x14, 0x00], 0x1E, 0, [Reg32(1), Control(4)])
  {
    ReadsAsWritten(MoveFromControl(0, 1, 4));
    hide LineOf;
  }

  /** LOADAS R3. */
  lemma SystemExample()
    ensures Reads(System(OP_LOADAS, 0, 3), [0x0E, 0x03, 0x00, 0x00], 0x0E, 0, [Reg32(3)])
  {
    ReadsAsWritten(System(OP_LOADAS, 0, 3));
    hide LineOf;
  }
}
