/** The VA instruction set: code numbers, decoded instruction words and condition codes. */
module Isa {
  import opened Words

  const OP_STOP := 0x00
  const OP_FAIL := 0x01
  const OP_IRET := 0x04
  const OP_LOADI := 0x06
  const OP_STOREMA := 0x08
  const OP_LOADMA := 0x09
  const OP_INT := 0x0A
  const OP_JMP := 0x0B
  const OP_CALL := 0x0C
  const OP_STOREAS := 0x0D
  const OP_LOADAS := 0x0E
  const OP_SMUL := 0x10
  const OP_SDIV := 0x11
  const OP_NOT := 0x12
  const OP_SEX := 0x14
  const OP_MOD := 0x15
  const OP_TEST := 0x16
  const OP_CMP := 0x18
  const OP_IN := 0x19
  const OP_MOV := 0x1A
  const OP_CMPXCHG := 0x1B
  const OP_MOVTC := 0x1D
  const OP_MOVFC := 0x1E
  const OP_SAR := 0x1F
  const OP_XCHG := 0x20
  const OP_AND := 0x21
  const OP_OR := 0x22
  const OP_XOR := 0x23
  const OP_SHL := 0x24
  const OP_SHR := 0x25
  const OP_LOADID := 0x26
  const OP_LOADRD := 0x27
  const OP_STOREID := 0x28
  const OP_STORERD := 0x29
  const OP_ADD := 0x2A
  const OP_SUB := 0x2B
  const OP_MUL := 0x2C
  const OP_DIV := 0x2D
  const OP_OUT := 0x2E
  const OP_XCHGC := 0x2F

  const PREFIX_DWORD := 0
  const PREFIX_WORD := 1
  const PREFIX_BYTE := 2
  const PREFIX_IMM := 3

  const REG_R7 := 7
  const REG_RC := 12
  const REG_SP := 14
  const REG_FLGS := 15

  const CREG_MR1 := 0
  const CREG_MR2 := 1
  const CREG_CR1 := 2
  const CREG_SSP := 4

  const COND_ALWAYS := 0
  const COND_IZ := 1
  const COND_NZ := 2
  const COND_IS := 3
  const COND_NS := 4
  const COND_IO := 5
  const COND_NO := 6
  const COND_IP := 7
  const COND_NP := 8
  const COND_IZIS := 9
  const COND_IZIC := 10
  const COND_NZNS := 11
  const COND_NZNC := 12
  const COND_IC := 13
  const COND_NC := 14
  const COND_NF := 15

  type prefix = x: int | 0 <= x < 4
  type opcode = x: int | 0 <= x < 64
  type imm12 = x: int | 0 <= x < 0x1000

  /** One decoded instruction word. The two immediates overlap the operand fields. */
  datatype Ins = Ins(prefix: prefix, opcode: opcode, condition: nibble, dst: nibble, opa: nibble, opb: nibble,
                     imm16: word, imm12: imm12)

  /** The operand sizes that the first three prefixes select. */
  datatype Size = Dword | Word | Byte

  // ----- flags -----

  datatype Flag = Z | C | O | P | S | E

  /** The bit of the flags register that holds a flag. */
  function Index(x: Flag): (i: nat)
    ensures i < 6
  {
    match x
    case Z => 0
    case C => 1
    case O => 2
    case P => 3
    case S => 4
    case E => 5
  }

  predicate Has(flgs: dword, x: Flag) {
    Bit(flgs, Index(x))
  }

  function Put(flgs: dword, x: Flag, b: bool): dword {
    PutBit32(flgs, Index(x), b)
  }

  /** Writing one flag sets it and leaves the other five alone. */
  lemma PutHas(flgs: dword, x: Flag, b: bool, y: Flag)
    ensures Has(Put(flgs, x, b), y) == if x == y then b else Has(flgs, y)
  {
    BitPutBit(flgs, Index(x), b, Index(y));
  }

  /** Whether an instruction with the given condition code runs under the given flags. */
  predicate Holds(condition: nibble, flgs: dword) {
    if condition == COND_IZ then Has(flgs, Z)
    else if condition == COND_NZ then !Has(flgs, Z)
    else if condition == COND_IS then Has(flgs, S)
    else if condition == COND_NS then !Has(flgs, S)
    else if condition == COND_IO then Has(flgs, O)
    else if condition == COND_NO then !Has(flgs, O)
    else if condition == COND_IP then Has(flgs, P)
    else if condition == COND_NP then !Has(flgs, P)
    else if condition == COND_IZIS then Has(flgs, Z) || Has(flgs, S)
    else if condition == COND_IZIC then Has(flgs, Z) || Has(flgs, C)
    else if condition == COND_NZNS then !Has(flgs, Z) && !Has(flgs, S)
    else if condition == COND_NZNC then !Has(flgs, Z) && !Has(flgs, C)
    else if condition == COND_IC then Has(flgs, C)
    else if condition == COND_NC then !Has(flgs, C)
    else if condition == COND_NF then forall x: Flag :: !Has(flgs, x)
    else true
  }
}
