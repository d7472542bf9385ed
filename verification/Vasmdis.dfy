/** The disassembler: its own instruction struct, and the line it shows for four bytes. */
module Vasmdis {
  import opened Words
  import opened Isa
  import opened Encoding
  import opened Machine
  import opened Syntax

  class DisInstruction {
    var opcode: opcode
    var prefix: prefix
    var condition: nibble
    var destination: nibble
    var operandA: nibble
    var operandB: nibble
    var imm16: word
    var imm12: imm12

    function Fields(): Ins
      reads this
    {
      Ins(prefix, opcode, condition, destination, operandA, operandB, imm16, imm12)
    }

    /** The processor's decoder and this one agree on every four bytes: both are Decode. */
    method BytesToInstruction(bytes: code4)
      modifies this
      ensures Fields() == Decode(bytes)
    {
      hide LowBits, OrBytes;
      opcode := LowBits(bytes[0], 6);
      prefix := bytes[0] / 0x40;
      condition := bytes[1] / 0x10;
      destination := LowBits(bytes[1], 4);
      operandA := bytes[2] / 0x10;
      operandB := LowBits(bytes[2], 4);
      imm16 := OrBytes(bytes[3], bytes[2]);
      imm12 := OrBytes(operandB, bytes[3]);
    }

    /** Operands under the dword prefix, by opcode; None where the text says that they are invalid. */
    method DecodeDwordPrefixOps() returns (args: Option<seq<Arg>>)
      ensures args == Operands(DisDword(Fields()))
    {
      if opcode == OP_STOP || opcode == OP_IRET {
        args := Some([]);
      } else if IsAlu(opcode) || opcode == OP_LOADRD || opcode == OP_STORERD || opcode == OP_CMPXCHG {
        args := Some([Reg32(destination), Reg32(operandA), Reg32(operandB)]);
      } else if opcode == OP_CALL || opcode == OP_JMP || opcode == OP_TEST || opcode == OP_LOADAS || opcode == OP_STOREAS {
        args := Some([Reg32(destination)]);
      } else if opcode == OP_CMP || opcode == OP_IN || opcode == OP_NOT || opcode == OP_OUT || opcode == OP_XCHG
             || opcode == OP_MOV {
        args := Some([Reg32(operandA), Reg32(operandB)]);
      } else if opcode == OP_LOADID || opcode == OP_STOREID {
        args := Some([Reg32(destination), Reg32(operandA), Number(imm12)]);
      } else if opcode == OP_MOVTC {
        args := Some([Control(operandA), Reg32(operandB)]);
      } else if opcode == OP_XCHGC || opcode == OP_MOVFC {
        args := Some([Reg32(operandA), Control(operandB)]);
      } else {
        args := None;
      }
    }

    method DecodeWordPrefixOps() returns (args: Option<seq<Arg>>)
      requires prefix == PREFIX_WORD
      ensures args == Operands(DisSized(Fields()))
    {
      if opcode == OP_LOADI {
        args := Some([Reg16(destination), Number(imm16)]);
      } else if opcode == OP_LOADID {
        args := Some([Reg16(destination), Reg32(operandA), Number(imm12)]);
      } else if opcode == OP_LOADRD {
        args := Some([Reg16(destination), Reg32(operandA), Reg32(operandB)]);
      } else if opcode == OP_MOV {
        args := Some([Reg16(operandA), Reg16(operandB)]);
      } else if opcode == OP_SEX {
        args := Some([Reg32(operandA), Reg16(operandB)]);
      } else if opcode == OP_STOREID {
        args := Some([Reg32(destination), Reg16(operandA), Number(imm12)]);
      } else if opcode == OP_STORERD {
        args := Some([Reg32(destination), Reg16(operandA), Reg32(operandB)]);
      } else {
        args := None;
      }
    }

    method DecodeBytePrefixOps() returns (args: Option<seq<Arg>>)
      requires prefix == PREFIX_BYTE
      ensures args == Operands(DisSized(Fields()))
    {
      if opcode == OP_LOADI {
        args := Some([Reg8(destination), Number(imm16)]);
      } else if opcode == OP_LOADID {
        args := Some([Reg8(destination), Reg32(operandA), Number(imm12)]);
      } else if opcode == OP_LOADRD {
        args := Some([Reg8(destination), Reg32(operandA), Reg32(operandB)]);
      } else if opcode == OP_MOV {
        args := Some([Reg8(operandA), Reg8(operandB)]);
      } else if opcode == OP_SEX {
        args := Some([Reg32(operandA), Reg8(operandB)]);
      } else if opcode == OP_STOREID {
        args := Some([Reg32(destination), Reg8(operandA), Number(imm12)]);
      } else if opcode == OP_STORERD {
        args := Some([Reg32(destination), Reg8(operandA), Reg32(operandB)]);
      } else {
        args := None;
      }
    }

    method DecodeImmediatePrefixOps() returns (args: Option<seq<Arg>>)
      ensures args == Operands(DisImmediate(Fields()))
    {
      if IsAlu(opcode) {
        args := Some([Reg32(destination), Reg32(operandA), Number(imm12)]);
      } else if opcode == OP_CMP {
        args := Some([Reg32(operandA), Number(imm12)]);
      } else if opcode == OP_CALL || opcode == OP_FAIL || opcode == OP_INT || opcode == OP_JMP || opcode == OP_TEST {
        args := Some([Number(imm16)]);
      } else if opcode == OP_LOADMA || opcode == OP_STOREMA {
        args := Some([Reg32(destination), Number(imm16)]);
      } else {
        args := None;
      }
    }

    /** The line shown for four bytes has the mnemonic, the condition and the operands of the instruction. */
    method DisasmInstruction(bytes: code4) returns (line: Line)
      modifies this
      ensures line == LineOf(bytes)
    {
      BytesToInstruction(bytes);
      hide DisDword, DisSized, DisImmediate, Arguments;
      var args;
      if prefix == PREFIX_DWORD {
        args := DecodeDwordPrefixOps();
      } else if prefix == PREFIX_WORD {
        args := DecodeWordPrefixOps();
      } else if prefix == PREFIX_BYTE {
        args := DecodeBytePrefixOps();
      } else {
        args := DecodeImmediatePrefixOps();
      }
      return Line(opcode, condition, args);
    }
  }

  /** One line of disassembly; no operands where the text says that they are invalid. */
  datatype Line = Line(op: opcode, cond: nibble, args: Option<seq<Arg>>)

  function Operands(shown: Option<Source>): Option<seq<Arg>> {
    match shown
    case None => None
    case Some(src) => Some(Arguments(src))
  }

  function LineOf(w: code4): Line {
    Line(Decode(w).opcode, Decode(w).condition, Operands(Disassemble(w)))
  }

  /** The line shown for an assembled instruction is how its source reads, or reads with the operands kept. */
  lemma LineOfEncoded(src: Source)
    requires WellFormed(src) && InRange(src)
    ensures LineOf(Encode(src)) == Line(Mnemonic(src), src.cond, Some(Arguments(Kept(src))))
  {
    hide Encode, Arguments, Disassemble, Decode, Kept, WellFormed, InRange, Mnemonic;
    DisassembleEncode(src);
    EncodedMnemonic(src);
    DispatchEncode(src);
  }

  /** Two instructions that read alike are the same instruction, so a line with its operands can be read back. */
  lemma LineDetermines(x: Source, y: Source)
    requires WellFormed(x) && WellFormed(y)
    requires Mnemonic(x) == Mnemonic(y) && x.cond == y.cond && Arguments(x) == Arguments(y)
    ensures x == y
  {
    var a := Arguments(x);
    if |a| == 3 {
      assert Arguments(y)[0] == a[0] && Arguments(y)[1] == a[1] && Arguments(y)[2] == a[2];
    } else if |a| == 2 {
      assert Arguments(y)[0] == a[0] && Arguments(y)[1] == a[1];
    } else if |a| == 1 {
      assert Arguments(y)[0] == a[0];
    }
  }
}
