/** The processor as the emulator keeps it: register arrays and memory updated in place. */
module Processor {
  import opened Words
  import opened Isa
  import opened Storage
  import opened Encoding
  import opened Machine

  /** The decoder's instruction context, overwritten by every fetch. */
  class InstructionContext {
    var prefix: prefix
    var opcode: opcode
    var condition: nibble
    var dst: nibble
    var opa: nibble
    var opb: nibble
    var imm16: word
    var imm12: imm12

    function Fields(): Ins
      reads this
    {
      Ins(prefix, opcode, condition, dst, opa, opb, imm16, imm12)
    }

    /** Splits four bytes into the fields with the shifts and masks of the decoder. */
    method Fill(b1: byte, b2: byte, b3: byte, b4: byte)
      modifies this
      ensures Fields() == Decode([b1, b2, b3, b4])
    {
      hide LowBits, OrBytes;
      prefix := b1 / 0x40;
      opcode := LowBits(b1, 6);
      condition := b2 / 0x10;
      dst := LowBits(b2, 4);
      opa := b3 / 0x10;
      opb := LowBits(b3, 4);
      imm16 := OrBytes(b4, b3);
      imm12 := OrBytes(opb, b4);
    }
  }

  /** Replacing a byte or word of a dword by masking it out and or-ing the new value in. */
  lemma MaskedReplace(size: Size, x: dword, k: nat, v: dword)
    requires size != Dword && k < 4 / Width(size) && Fits(size, v)
    ensures Or(And(x, DWORD_MAX - FieldMask(size) * Shift(size, k)), v * Shift(size, k)) == Replace(size, x, k, v)
  {
    Pow2Values();
    assert Pow2(0) == 1;
    match size
    case Word =>
      if k == 0 {
        ReplaceField(16, 16, 0, x / 0x1_0000, x % 0x1_0000, 0, v, x, 0xFFFF_0000, v);
      } else {
        ReplaceField(0, 16, 16, 0, x / 0x1_0000, x % 0x1_0000, v, x, 0xFFFF, v * 0x1_0000);
      }
    case Byte => MaskedReplaceByte(x, k, v);
  }

  lemma MaskedReplaceByte(x: dword, k: nat, v: byte)
    requires k < 4
    ensures Or(And(x, DWORD_MAX - 0xFF * Shift(Byte, k)), v * Shift(Byte, k)) == Replace(Byte, x, k, v)
  {
    Pow2Values();
    JoinBytes(x);
    if k == 0 {
      assert Pow2(0) == 1;
      ReplaceField(24, 8, 0, x / 0x100, x % 0x100, 0, v, x, 0xFFFF_FF00, v);
    } else if k == 3 {
      ReplaceField(0, 8, 24, 0, ByteOf(x, 3), x % 0x100_0000, v, x, 0x00FF_FFFF, v * 0x100_0000);
    } else {
      MaskedReplaceInner(x, k, v);
    }
  }

  lemma MaskedReplaceInner(x: dword, k: nat, v: byte)
    requires 1 <= k < 3
    ensures Or(And(x, DWORD_MAX - 0xFF * Shift(Byte, k)), v * Shift(Byte, k)) == Replace(Byte, x, k, v)
  {
    if k == 1 {
      MaskedReplaceSecond(x, v);
    } else {
      MaskedReplaceThird(x, v);
    }
  }

  lemma MaskedReplaceSecond(x: dword, v: byte)
    ensures Or(And(x, 0xFFFF_00FF), v * 0x100) == Replace(Byte, x, 1, v)
  {
    hide Bitwise, Pow2;
    Pow2Values();
    JoinBytes(x);
    var upper := ByteOf(x, 2) as int + 0x100 * ByteOf(x, 3) as int;
    ReplaceField(16, 8, 8, upper, ByteOf(x, 1), ByteOf(x, 0), v, x, 0xFFFF_00FF, v * 0x100);
  }

  lemma MaskedReplaceThird(x: dword, v: byte)
    ensures Or(And(x, 0xFF00_FFFF), v * 0x1_0000) == Replace(Byte, x, 2, v)
  {
    hide Bitwise, Pow2;
    Pow2Values();
    JoinBytes(x);
    var lower := ByteOf(x, 0) as int + 0x100 * ByteOf(x, 1) as int;
    ReplaceField(8, 8, 16, ByteOf(x, 3), ByteOf(x, 2), lower, v, x, 0xFF00_FFFF, v * 0x1_0000);
  }

  function FieldMask(size: Size): nat {
    match size
    case Dword => 0xFFFF_FFFF
    case Word => 0xFFFF
    case Byte => 0xFF
  }

  /** The weight of byte or word number k of a dword. */
  function Shift(size: Size, k: nat): (p: nat)
    requires k < 4 / Width(size)
  {
    match size
    case Dword => 1
    case Word => if k == 0 then 1 else 0x1_0000
    case Byte => if k == 0 then 1 else if k == 1 then 0x100 else if k == 2 then 0x1_0000 else 0x100_0000
  }

  lemma ShiftByte(x: dword, k: nat)
    requires k < 4
    ensures x / Shift(Byte, k) % 0x100 == ByteOf(x, k)
  {
    match k
    case 0 =>
    case 1 =>
    case 2 =>
    case 3 => assert x / 0x100_0000 < 0x100;
  }

  lemma ShiftWord(x: dword, k: nat)
    requires k < 2
    ensures x / Shift(Word, k) % 0x1_0000 == if k == 0 then x % 0x1_0000 else x / 0x1_0000
  {
  }

  class Emulator {
    const regs: array<dword>
    const cregs: array<dword>
    const memory: array<byte>
    const context: InstructionContext
    var pos: dword
    var instructionCount: qword

    ghost predicate Valid()
      reads this
    {
      && regs.Length == 16 && cregs.Length == 16 && regs != cregs
      && memory.Length < DWORD_MODULUS
      && memory as object != regs && memory as object != cregs
    }

    ghost function Model(): Cpu
      reads this, regs, cregs, memory
      requires Valid()
    {
      Cpu(regs[..], cregs[..], pos, memory[..], instructionCount)
    }

    constructor (memorySize: dword)
      ensures Valid() && fresh(regs) && fresh(cregs) && fresh(memory) && fresh(context)
      ensures pos == 0 && instructionCount == 0
      ensures memory[..] == seq(if memorySize == 0 then DEFAULT_MEMORY else memorySize, _ => 0)
      ensures regs[REG_SP] == INIT_SP && cregs[CREG_SSP] == INIT_SSP && cregs[CREG_CR1] == 2 && cregs[CREG_MR2] == 0
    {
      regs := new dword[16];
      cregs := new dword[16];
      memory := new byte[if memorySize == 0 then DEFAULT_MEMORY else memorySize](_ => 0);
      context := new InstructionContext;
      pos, instructionCount := 0, 0;
      new;
      regs[REG_SP] := INIT_SP;
      cregs[CREG_SSP], cregs[CREG_CR1], cregs[CREG_MR2] := INIT_SSP, 2, 0;
    }

    // ----- memory -----

    method WriteByte(b: byte, addr: dword)
      requires Valid() && InMemory(memory[..], addr, 1)
      modifies memory
      ensures memory[..] == Store(Byte, old(memory[..]), addr, b)
    {
      memory[addr] := b;
    }

    method WriteWord(w: word, addr: dword)
      requires Valid() && InMemory(memory[..], addr, 2)
      modifies memory
      ensures memory[..] == Store(Word, old(memory[..]), addr, w)
    {
      memory[addr] := w % 0x100;
      memory[addr + 1] := w / 0x100 % 0x100;
    }

    method WriteDword(d: dword, addr: dword)
      requires Valid() && InMemory(memory[..], addr, 4)
      modifies memory
      ensures memory[..] == Store(Dword, old(memory[..]), addr, d)
    {
      memory[addr] := d % 0x100;
      memory[addr + 1] := d / 0x100 % 0x100;
      memory[addr + 2] := d / 0x1_0000 % 0x100;
      memory[addr + 3] := d / 0x100_0000;
    }

    method ReadByte(addr: dword) returns (b: byte)
      requires Valid() && InMemory(memory[..], addr, 1)
      ensures b == Load(Byte, memory[..], addr)
    {
      b := memory[addr];
    }

    method ReadWord(addr: dword) returns (w: word)
      requires Valid() && InMemory(memory[..], addr, 2)
      ensures w == Load(Word, memory[..], addr)
    {
      w := OrBytes(memory[addr + 1], memory[addr]);
    }

    method ReadDword(addr: dword) returns (d: dword)
      requires Valid() && InMemory(memory[..], addr, 4)
      ensures d == Load(Dword, memory[..], addr)
    {
      var ll, lh, ul, uh := memory[addr], memory[addr + 1], memory[addr + 2], memory[addr + 3];
      OrFourBytes(uh, ul, lh, ll);
      d := Or(Or(Or(uh as int * 0x100_0000, ul as int * 0x1_0000), lh as int * 0x100), ll);
    }

    // ----- registers -----

    method GetByteReg(reg: nibble) returns (b: byte)
      requires Valid()
      ensures b == GetReg(Byte, regs[..], reg)
    {
      var i := regs[reg / 4];
      ShiftByte(i, reg % 4);
      hide LowBits;
      b := LowBits(i / Shift(Byte, reg % 4), 8);
    }

    method GetWordReg(reg: nibble) returns (w: word)
      requires Valid()
      ensures w == GetReg(Word, regs[..], reg)
    {
      var i := regs[reg / 2];
      ShiftWord(i, reg % 2);
      hide LowBits;
      w := LowBits(i / Shift(Word, reg % 2), 16);
    }

    method SetByteReg(reg: nibble, val: byte)
      requires Valid()
      modifies regs
      ensures regs[..] == PutReg(Byte, old(regs[..]), reg, val)
    {
      var i, p := regs[reg / 4], Shift(Byte, reg % 4);
      MaskedReplace(Byte, i, reg % 4, val);
      regs[reg / 4] := Or(And(i, DWORD_MAX - 0xFF * p), val * p);
    }

    method SetWordReg(reg: nibble, val: word)
      requires Valid()
      modifies regs
      ensures regs[..] == PutReg(Word, old(regs[..]), reg, val)
    {
      var i, p := regs[reg / 2], Shift(Word, reg % 2);
      MaskedReplace(Word, i, reg % 2, val);
      regs[reg / 2] := Or(And(i, DWORD_MAX - 0xFFFF * p), val * p);
    }

    /** Sets or clears one bit of FLGS with an or-mask or an inverted and-mask. */
    method AssignFlag(x: Flag, b: bool)
      requires Valid()
      modifies regs
      ensures regs[..] == WithFlag(old(regs[..]), x, b)
    {
      var f, i := regs[REG_FLGS], Index(x);
      Pow2Values();
      PutBitBound(f, i, b, 32);
      if b {
        OrMask(f, i);
        regs[REG_FLGS] := Or(f, Pow2(i));
      } else {
        AndNotMask(f, i, 32);
        regs[REG_FLGS] := And(f, DWORD_MAX - Pow2(i));
      }
    }

    method Operand12(i: Ins) returns (b: dword)
      requires Valid()
      ensures b == Eval(Choose12(i), regs[..])
    {
      b := if i.prefix == PREFIX_IMM then i.imm12 else regs[i.opb];
    }

    // ----- arithmetic and logic -----

    method InsAdd(i: Ins)
      requires Valid() && i.opcode == OP_ADD
      modifies regs
      ensures Valid() && Next(Model()) == Perform(Dispatch(i), old(Model()))
    {
      hide Put;
      var a := regs[i.opa];
      var b := Operand12(i);
      var o, c := SignedOverflow(Signed32(a) + Signed32(b)), a + b > DWORD_MAX;
      regs[i.dst] := Wrap(a + b);
      AssignFlag(O, o);
      AssignFlag(C, c);
    }

    method InsSub(i: Ins)
      requires Valid() && i.opcode == OP_SUB
      modifies regs
      ensures Valid() && Next(Model()) == Perform(Dispatch(i), old(Model()))
    {
      hide Put;
      var a := regs[i.opa];
      var b := Operand12(i);
      var o, c := SignedOverflow(Signed32(a) - Signed32(b)), a < b;
      regs[i.dst] := Wrap(a as int - b);
      AssignFlag(O, o);
      AssignFlag(C, c);
    }

    method InsSmul(i: Ins)
      requires Valid() && i.opcode == OP_SMUL
      modifies regs
      ensures Valid() && Next(Model()) == Perform(Dispatch(i), old(Model()))
    {
      var a := regs[i.opa];
      var b := Operand12(i);
      var product := Signed32(a) * Signed32(b);
      regs[i.dst] := Wrap(product);
      AssignFlag(O, SignedOverflow(product));
    }

    method InsMul(i: Ins)
      requires Valid() && i.opcode == OP_MUL
      modifies regs
      ensures Valid() && Next(Model()) == Perform(Dispatch(i), old(Model()))
    {
      var b := Operand12(i);
      var res: int := regs[i.opa] as int * b;
      AssignFlag(C, res > DWORD_MAX);
      regs[i.dst] := Wrap(res);
    }

    method InsDiv(i: Ins)
      requires Valid() && i.opcode == OP_DIV
      modifies regs
      ensures Valid() && Next(Model()) == Perform(Dispatch(i), old(Model()))
    {
      var b := Operand12(i);
      if b == 0 {
        return;
      }
      QuotientBound(regs[i.opa], b);
      regs[i.dst] := regs[i.opa] / b;
    }

    method InsMod(i: Ins)
      requires Valid() && i.opcode == OP_MOD
      modifies regs
      ensures Valid() && Next(Model()) == Perform(Dispatch(i), old(Model()))
    {
      var modulo, value := regs[i.opb], regs[i.opa];
      if modulo == 0 {
        return;
      }
      regs[i.dst] := value % modulo;
    }

    method InsSdiv(i: Ins)
      requires Valid() && i.opcode == OP_SDIV
      modifies regs
      ensures Valid() && Next(Model()) == Perform(Dispatch(i), old(Model()))
    {
      var a := regs[i.opa];
      var b := Operand12(i);
      if b == 0 {
        return;
      }
      var r := TruncDiv(Signed32(a), Signed32(b));
      if r > 0x7FFF_FFFF || r < -0x8000_0000 {
        AssignFlag(O, true);
        r := 0;
      } else {
        AssignFlag(O, false);
      }
      regs[i.dst] := Wrap(r);
    }

    method InsAnd(i: Ins)
      requires Valid() && i.opcode == OP_AND
      modifies regs
      ensures Valid() && Next(Model()) == Perform(Dispatch(i), old(Model()))
    {
      var a := regs[i.opa];
      var b := Operand12(i);
      regs[i.dst] := Gate32(Conj, a, b);
    }

    method InsOr(i: Ins)
      requires Valid() && i.opcode == OP_OR
      modifies regs
      ensures Valid() && Next(Model()) == Perform(Dispatch(i), old(Model()))
    {
      var a := regs[i.opa];
      var b := Operand12(i);
      regs[i.dst] := Gate32(Disj, a, b);
    }

    method InsXor(i: Ins)
      requires Valid() && i.opcode == OP_XOR
      modifies regs
      ensures Valid() && Next(Model()) == Perform(Dispatch(i), old(Model()))
    {
      var a := regs[i.opa];
      var b := Operand12(i);
      regs[i.dst] := Gate32(Excl, a, b);
    }

    method InsShl(i: Ins)
      requires Valid() && i.opcode == OP_SHL
      modifies regs
      ensures Valid() && Next(Model()) == Perform(Dispatch(i), old(Model()))
    {
      var a := regs[i.opa];
      var b := Operand12(i);
      AssignFlag(C, a >= 0x8000_0000);
      regs[i.dst] := Wrap(a * Pow2(b % 32));
    }

    method InsShr(i: Ins)
      requires Valid() && i.opcode == OP_SHR
      modifies regs
      ensures Valid() && Next(Model()) == Perform(Dispatch(i), old(Model()))
    {
      var a := regs[i.opa];
      var b := Operand12(i);
      AssignFlag(C, a % 2 == 1);
      regs[i.dst] := ShiftRight(a, b % 32);
    }

    method InsSar(i: Ins)
      requires Valid() && i.opcode == OP_SAR
      modifies regs
      ensures Valid() && Next(Model()) == Perform(Dispatch(i), old(Model()))
    {
      var a := regs[i.opa];
      var b := Operand12(i);
      AssignFlag(C, a % 2 == 1);
      regs[i.dst] := Wrap(Signed32(a) / Pow2(b % 32));
    }

    method InsCmp(i: Ins)
      requires Valid() && i.opcode == OP_CMP
      modifies regs
      ensures Valid() && Next(Model()) == Perform(Dispatch(i), old(Model()))
    {
      var a := regs[i.opa];
      var b := Operand12(i);
      AssignFlag(Z, a == b);
      AssignFlag(C, a < b);
      AssignFlag(S, Signed32(a) < Signed32(b));
    }

    /** The parity flag comes from counting the bits of the value. */
    method InsTest(i: Ins)
      requires Valid() && i.opcode == OP_TEST
      modifies regs
      ensures Valid() && Next(Model()) == Perform(Dispatch(i), old(Model()))
    {
      hide PopCount, Put;
      var val: dword := if i.prefix == PREFIX_IMM then i.imm16 else regs[i.dst];
      AssignFlag(Z, val == 0);
      AssignFlag(S, val >= 0x8000_0000);
      AssignFlag(E, val % 2 == 0);
      var bits := CountBits(val);
      AssignFlag(P, bits % 2 == 1);
    }

    /** Shifts a value out bit by bit and counts the ones. */
    method CountBits(v: dword) returns (bits: nat)
      ensures bits == PopCount(v)
    {
      hide PopCount, Pow2;
      var val: nat := v;
      bits := 0;
      Pow2Values();
      for k := 0 to 32
        invariant bits + PopCount(val) == PopCount(v)
        invariant val < Pow2(32 - k)
      {
        PopCountHalve(val);
        Pow2Step(32 - k);
        if val % 2 == 1 {
          bits := bits + 1;
        }
        val := val / 2;
      }
      Pow2Zero();
      PopCountHalve(0);
    }

    method InsNot(i: Ins)
      requires Valid() && i.opcode == OP_NOT
      modifies regs
      ensures Valid() && Next(Model()) == Perform(Dispatch(i), old(Model()))
    {
      regs[i.opa] := Not32(regs[i.opb]);
    }

    method InsSex(i: Ins)
      requires Valid() && i.opcode == OP_SEX
      modifies regs
      ensures Valid() && Next(Model()) == Perform(Dispatch(i), old(Model()))
    {
      hide LowBits, Perform, Dispatch;
      SexReadsLowPart(i, Model());
      var value, unmasked := regs[i.opa], regs[i.opb];
      if i.prefix == PREFIX_BYTE {
        var masked := LowBits(unmasked, 8);
        value := if masked >= 0x80 then 0xFFFF_FF00 + masked else masked;
      } else if i.prefix == PREFIX_WORD {
        var masked := LowBits(unmasked, 16);
        value := if masked >= 0x8000 then 0xFFFF_0000 + masked else masked;
      }
      regs[i.opa] := value;
    }

    // ----- moves and jumps -----

    method InsCall(i: Ins)
      requires Valid() && i.opcode == OP_CALL
      modifies regs, this`pos
      ensures Valid() && Next(Model()) == Perform(Dispatch(i), old(Model()))
    {
      regs[REG_RC] := pos;
      pos := if i.prefix == PREFIX_IMM then Wrap(pos + Signed16(i.imm16)) else regs[i.dst];
    }

    method InsJmp(i: Ins)
      requires Valid() && i.opcode == OP_JMP
      modifies this`pos
      ensures Valid() && Next(Model()) == Perform(Dispatch(i), old(Model()))
    {
      pos := if i.prefix == PREFIX_IMM then Wrap(pos + Signed16(i.imm16)) else regs[i.dst];
    }

    method InsLoadi(i: Ins)
      requires Valid() && i.opcode == OP_LOADI
      modifies regs
      ensures Valid() && Next(Model()) == Perform(Dispatch(i), old(Model()))
    {
      if i.prefix == PREFIX_BYTE {
        SetByteReg(i.dst, i.imm16 % 0x100);
      } else {
        SetWordReg(i.dst, i.imm16);
      }
    }

    method InsMov(i: Ins)
      requires Valid() && i.opcode == OP_MOV
      modifies regs
      ensures Valid() && Next(Model()) == Perform(Dispatch(i), old(Model()))
    {
      if i.prefix == PREFIX_IMM {
        regs[i.opa] := i.imm12;
      } else if i.prefix == PREFIX_DWORD {
        regs[i.opa] := regs[i.opb];
      } else if i.prefix == PREFIX_WORD {
        var w := GetWordReg(i.opb);
        SetWordReg(i.opa, w);
      } else {
        var b := GetByteReg(i.opb);
        SetByteReg(i.opa, b);
      }
    }

    method InsMovfc(i: Ins)
      requires Valid() && i.opcode == OP_MOVFC
      modifies regs
      ensures Valid() && Next(Model()) == Perform(Dispatch(i), old(Model()))
    {
      regs[i.opa] := cregs[i.opb];
    }

    method InsMovtc(i: Ins)
      requires Valid() && i.opcode == OP_MOVTC
      modifies cregs
      ensures Valid() && Next(Model()) == Perform(Dispatch(i), old(Model()))
    {
      cregs[i.opa] := regs[i.opb];
    }

    method InsXchg(i: Ins)
      requires Valid() && i.opcode == OP_XCHG
      modifies regs
      ensures Valid() && Next(Model()) == Perform(Dispatch(i), old(Model()))
    {
      var temp := regs[i.opa];
      regs[i.opa] := regs[i.opb];
      regs[i.opb] := temp;
    }

    method InsXchgc(i: Ins)
      requires Valid() && i.opcode == OP_XCHGC
      modifies regs, cregs
      ensures Valid() && Next(Model()) == Perform(Dispatch(i), old(Model()))
    {
      var temp := regs[i.opa];
      regs[i.opa] := cregs[i.opb];
      cregs[i.opb] := temp;
    }

    // ----- loads and stores -----

    method LoadSized(size: Size, dst: nibble, addr: dword)
      requires Valid() && InMemory(memory[..], addr, Width(size))
      modifies regs
      ensures regs[..] == PutReg(size, old(regs[..]), dst, Load(size, memory[..], addr))
    {
      match size
      case Dword =>
        var data := ReadDword(addr);
        regs[dst] := data;
      case Word =>
        var data := ReadWord(addr);
        SetWordReg(dst, data);
      case Byte =>
        var data := ReadByte(addr);
        SetByteReg(dst, data);
    }

    method StoreSized(size: Size, src: nibble, addr: dword)
      requires Valid() && InMemory(memory[..], addr, Width(size))
      modifies memory
      ensures memory[..] == Store(size, old(memory[..]), addr, GetReg(size, regs[..], src))
    {
      match size
      case Dword => WriteDword(regs[src], addr);
      case Word =>
        var w := GetWordReg(src);
        WriteWord(w, addr);
      case Byte =>
        var b := GetByteReg(src);
        WriteByte(b, addr);
    }

    method InsLoadid(i: Ins)
      requires Valid() && i.opcode == OP_LOADID && Perform(Dispatch(i), Model()) != Fault
      modifies regs
      ensures Valid() && Next(Model()) == Perform(Dispatch(i), old(Model()))
    {
      if regs[i.opa] + i.imm12 > DWORD_MAX {
        return;
      }
      if i.prefix != PREFIX_IMM {
        LoadSized(PrefixSize(i.prefix), i.dst, regs[i.opa] + i.imm12);
      }
    }

    method InsLoadrd(i: Ins)
      requires Valid() && i.opcode == OP_LOADRD && Perform(Dispatch(i), Model()) != Fault
      modifies regs
      ensures Valid() && Next(Model()) == Perform(Dispatch(i), old(Model()))
    {
      var disp := Signed32(regs[i.opb]);
      if regs[i.opa] + disp > DWORD_MAX || regs[i.opa] + disp < 0 {
        return;
      }
      if i.prefix != PREFIX_IMM {
        LoadSized(PrefixSize(i.prefix), i.dst, regs[i.opa] + disp);
      }
    }

    method InsStoreid(i: Ins)
      requires Valid() && i.opcode == OP_STOREID && Perform(Dispatch(i), Model()) != Fault
      modifies memory
      ensures Valid() && Next(Model()) == Perform(Dispatch(i), old(Model()))
    {
      if regs[i.dst] + i.imm12 > DWORD_MAX {
        return;
      }
      if i.prefix != PREFIX_IMM {
        StoreSized(PrefixSize(i.prefix), i.opa, regs[i.dst] + i.imm12);
      }
    }

    method InsStorerd(i: Ins)
      requires Valid() && i.opcode == OP_STORERD && Perform(Dispatch(i), Model()) != Fault
      modifies memory
      ensures Valid() && Next(Model()) == Perform(Dispatch(i), old(Model()))
    {
      var disp := Signed32(regs[i.opb]);
      if regs[i.dst] + disp > DWORD_MAX || regs[i.dst] + disp < 0 {
        return;
      }
      if i.prefix != PREFIX_IMM {
        StoreSized(PrefixSize(i.prefix), i.opa, regs[i.dst] + disp);
      }
    }

    method InsCmpxchg(i: Ins)
      requires Valid() && i.opcode == OP_CMPXCHG && Perform(Dispatch(i), Model()) != Fault
      modifies regs, memory
      ensures Valid() && Next(Model()) == Perform(Dispatch(i), old(Model()))
    {
      var dest := regs[i.dst];
      if i.prefix == PREFIX_DWORD {
        var memValue := ReadDword(dest);
        if memValue == regs[i.opa] {
          WriteDword(regs[i.opb], dest);
          AssignFlag(Z, true);
        } else {
          regs[i.opa] := memValue;
          AssignFlag(Z, false);
        }
      }
    }

    /** Stores val where reg points and moves reg down; the new value of reg is returned. */
    method PushDword(reg: dword, val: dword) returns (reg': dword)
      requires Valid() && InMemory(memory[..], reg, 4)
      modifies memory
      ensures memory[..] == Store(Dword, old(memory[..]), reg, val) && reg' == Wrap(reg - 4)
    {
      WriteDword(val, reg);
      reg' := Wrap(reg - 4);
    }

    /** Moves reg up and loads register number target from there. */
    method PopDword(reg: dword, target: nibble) returns (reg': dword)
      requires Valid() && InMemory(memory[..], Wrap(reg + 4), 4)
      modifies regs
      ensures Block(regs[..], memory[..], reg') == PopOne(old(Block(regs[..], memory[..], reg)), target)
    {
      reg' := Wrap(reg + 4);
      var data := ReadDword(reg');
      regs[target] := data;
    }

    method StoreRange(base: nibble, regstart: nibble, regend: nibble)
      requires Valid() && DoStoreMany(base, regstart, regend, Model()) != Fault
      modifies regs, memory
      ensures Valid() && Next(Model()) == DoStoreMany(base, regstart, regend, old(Model()))
    {
      var temp := regs[base];
      ghost var goal := PushAll(Block(regs[..], memory[..], temp), regstart, regend);
      var regp: byte := regstart;
      while regp <= regend
        invariant regstart <= regp <= 16 && regs[..] == old(regs[..])
        invariant PushAll(Block(regs[..], memory[..], temp), regp, regend) == goal
        decreases 16 - regp
      {
        temp := PushDword(temp, regs[regp]);
        regp := regp + 1;
      }
      regs[base] := temp;
    }

    /** The register counter is an unsigned byte, so reaching regstart must leave the loop. */
    method PopRange(start: dword, regstart: nibble, regend: nibble) returns (temp: dword)
      requires Valid() && PopAll(Block(regs[..], memory[..], start), regstart, regend).Some?
      modifies regs
      ensures PopAll(old(Block(regs[..], memory[..], start)), regstart, regend) == Some(Block(regs[..], memory[..], temp))
    {
      hide PopAll, PopOne, Load;
      temp := start;
      var regp: byte := regend;
      ghost var left: int := regend;
      while regp >= regstart
        invariant left == regp < 16
        invariant PopAll(Block(regs[..], memory[..], temp), regstart, left)
               == PopAll(old(Block(regs[..], memory[..], start)), regstart, regend)
        decreases regp
      {
        PopStep(Block(regs[..], memory[..], temp), regstart, regp);
        temp := PopDword(temp, regp);
        left := left - 1;
        if regp == regstart {
          break;
        }
        regp := regp - 1;
      }
      PopNone(Block(regs[..], memory[..], temp), regstart, left);
    }

    method LoadRange(base: nibble, regstart: nibble, regend: nibble)
      requires Valid() && DoLoadMany(base, regstart, regend, Model()) != Fault
      modifies regs
      ensures Valid() && Next(Model()) == DoLoadMany(base, regstart, regend, old(Model()))
    {
      var temp := PopRange(regs[base], regstart, regend);
      regs[base] := temp;
    }

    method InsStorema(i: Ins)
      requires Valid() && i.opcode == OP_STOREMA && Perform(Dispatch(i), Model()) != Fault
      modifies regs, memory
      ensures Valid() && Next(Model()) == Perform(Dispatch(i), old(Model()))
    {
      var immr: byte := i.imm16 % 0x100;
      StoreRange(i.dst, immr / 0x10, immr % 0x10);
    }

    method InsLoadma(i: Ins)
      requires Valid() && i.opcode == OP_LOADMA && Perform(Dispatch(i), Model()) != Fault
      modifies regs
      ensures Valid() && Next(Model()) == Perform(Dispatch(i), old(Model()))
    {
      var immr: byte := i.imm16 % 0x100;
      LoadRange(i.dst, immr / 0x10, immr % 0x10);
    }

    // ----- fetch, condition test and dispatch -----

    method FetchInstruction()
      requires Valid() && InMemory(memory[..], pos, 4)
      modifies this`pos, context
      ensures pos == Wrap(old(pos) + 4) && context.Fields() == Decode(WordAt(memory[..], old(pos)))
    {
      assert WordAt(memory[..], pos) == [memory[pos], memory[pos + 1], memory[pos + 2], memory[pos + 3]];
      context.Fill(memory[pos], memory[pos + 1], memory[pos + 2], memory[pos + 3]);
      pos := Wrap(pos + 4);
    }

    /** The flag tests of the condition switch, by and-masks on FLGS. */
    method ConditionHolds(condition: nibble) returns (b: bool)
      requires Valid()
      ensures b == Holds(condition, regs[REG_FLGS])
    {
      var f := regs[REG_FLGS];
      var z, c := TestFlag(f, Z), TestFlag(f, C);
      var s, o := TestFlag(f, S), TestFlag(f, O);
      var p, e := TestFlag(f, P), TestFlag(f, E);
      if condition == COND_IZ {
        b := z;
      } else if condition == COND_NZ {
        b := !z;
      } else if condition == COND_IS {
        b := s;
      } else if condition == COND_NS {
        b := !s;
      } else if condition == COND_IO {
        b := o;
      } else if condition == COND_NO {
        b := !o;
      } else if condition == COND_IP {
        b := p;
      } else if condition == COND_NP {
        b := !p;
      } else if condition == COND_IZIS {
        b := z || s;
      } else if condition == COND_NZNS {
        b := !z && !s;
      } else if condition == COND_IZIC {
        b := z || c;
      } else if condition == COND_NZNC {
        b := !z && !c;
      } else if condition == COND_IC {
        b := c;
      } else if condition == COND_NC {
        b := !c;
      } else if condition == COND_NF {
        b := !z && !c && !s && !o && !p && !e;
      } else {
        b := true;
      }
    }

    method SwitchAlu(i: Ins)
      requires Valid() && IsAlu(i.opcode)
      modifies regs
      ensures Valid() && Next(Model()) == Perform(Dispatch(i), old(Model()))
    {
      hide Perform, Dispatch;
      if i.opcode == OP_ADD {
        InsAdd(i);
      } else if i.opcode == OP_AND {
        InsAnd(i);
      } else if i.opcode == OP_DIV {
        InsDiv(i);
      } else if i.opcode == OP_MUL {
        InsMul(i);
      } else if i.opcode == OP_MOD {
        InsMod(i);
      } else if i.opcode == OP_OR {
        InsOr(i);
      } else if i.opcode == OP_SAR {
        InsSar(i);
      } else if i.opcode == OP_SDIV {
        InsSdiv(i);
      } else if i.opcode == OP_SHL {
        InsShl(i);
      } else if i.opcode == OP_SHR {
        InsShr(i);
      } else if i.opcode == OP_SMUL {
        InsSmul(i);
      } else if i.opcode == OP_SUB {
        InsSub(i);
      } else if i.opcode == OP_XOR {
        InsXor(i);
      }
    }

    method SwitchMemory(i: Ins)
      requires Valid() && IsMemory(i.opcode) && Perform(Dispatch(i), Model()) != Fault
      modifies regs, memory
      ensures Valid() && Next(Model()) == Perform(Dispatch(i), old(Model()))
    {
      hide Perform, Dispatch;
      if i.opcode == OP_CMPXCHG {
        InsCmpxchg(i);
      } else if i.opcode == OP_LOADI {
        InsLoadi(i);
      } else if i.opcode == OP_LOADID {
        InsLoadid(i);
      } else if i.opcode == OP_LOADMA {
        InsLoadma(i);
      } else if i.opcode == OP_LOADRD {
        InsLoadrd(i);
      } else if i.opcode == OP_STOREID {
        InsStoreid(i);
      } else if i.opcode == OP_STOREMA {
        InsStorema(i);
      } else if i.opcode == OP_STORERD {
        InsStorerd(i);
      }
    }

    method SwitchOther(i: Ins)
      requires Valid() && !IsAlu(i.opcode) && !IsMemory(i.opcode) && Perform(Dispatch(i), Model()).Next?
      modifies regs, cregs, this`pos
      ensures Valid() && Next(Model()) == Perform(Dispatch(i), old(Model()))
    {
      if i.opcode == OP_CALL {
        InsCall(i);
      } else if i.opcode == OP_CMP {
        InsCmp(i);
      } else if i.opcode == OP_JMP {
        InsJmp(i);
      } else if i.opcode == OP_MOV {
        InsMov(i);
      } else if i.opcode == OP_MOVFC {
        InsMovfc(i);
      } else if i.opcode == OP_MOVTC {
        InsMovtc(i);
      } else if i.opcode == OP_NOT {
        InsNot(i);
      } else if i.opcode == OP_SEX {
        InsSex(i);
      } else if i.opcode == OP_TEST {
        InsTest(i);
      } else if i.opcode == OP_XCHG {
        InsXchg(i);
      } else if i.opcode == OP_XCHGC {
        InsXchgc(i);
      }
    }

    method Switch(i: Ins)
      requires Valid() && Perform(Dispatch(i), Model()).Next?
      modifies regs, cregs, memory, this`pos
      ensures Valid() && Next(Model()) == Perform(Dispatch(i), old(Model()))
    {
      hide Perform, Dispatch;
      if IsAlu(i.opcode) {
        SwitchAlu(i);
      } else if IsMemory(i.opcode) {
        SwitchMemory(i);
      } else {
        SwitchOther(i);
      }
    }

    /** One fetched instruction: halted is set when it was STOP or FAIL, whose return value is code. */
    method ExecuteOne() returns (halted: bool, code: int)
      requires Valid() && (Step(Model()).Next? || Step(Model()).Done?)
      modifies this, regs, cregs, memory, context
      ensures Valid()
      ensures Step(old(Model())) == if halted then Done(Model(), code) else Next(Model())
      ensures halted <==> code != -1
    {
      hide Perform, Dispatch, Holds, Decode;
      FetchInstruction();
      instructionCount := (instructionCount + 1) % 0x1_0000_0000_0000_0000;
      var i := context.Fields();
      halted, code := false, -1;
      var holds := ConditionHolds(i.condition);
      if !holds {
        return;
      }
      OnlyTwoHalt(i, Model());
      if i.opcode == OP_FAIL {
        return true, i.imm16;
      }
      if i.opcode == OP_STOP {
        return true, 0;
      }
      Switch(i);
    }

    /**
     * The processor loop. A single step returns -1 unless it was STOP or FAIL; free running returns only
     * from STOP or FAIL, so it is called on a state that reaches one after at most n steps.
     */
    method CpuExecute(step: bool, ghost n: nat) returns (code: int)
      requires Valid()
      requires if step then Step(Model()).Next? || Step(Model()).Done? else Run(Model(), n).Done?
      modifies this, regs, cregs, memory, context
      ensures Valid()
      ensures step ==> Step(old(Model())) == if code == -1 then Next(Model()) else Done(Model(), code)
      ensures !step ==> Run(old(Model()), n) == Done(Model(), code)
    {
      if step {
        var halted;
        halted, code := ExecuteOne();
      } else {
        code := RunFreely(n);
      }
    }

    /** The loop of cpu_execute when it is not single-stepping. */
    method RunFreely(ghost n: nat) returns (code: int)
      requires Valid() && Run(Model(), n).Done?
      modifies this, regs, cregs, memory, context
      ensures Valid()
      ensures Run(old(Model()), n) == Done(Model(), code)
    {
      hide Step, Run;
      var halted := false;
      code := -1;
      ghost var left := n;
      while !halted
        invariant Valid()
        invariant Run(old(Model()), n) == if halted then Done(Model(), code) else Run(Model(), left)
        decreases !halted, left
      {
        RunUnfold(Model(), left);
        left := left - 1;
        halted, code := ExecuteOne();
      }
    }

    /** Copies an image to the load address and points the processor at it. */
    method LoadImage(image: seq<byte>)
      requires Valid() && LOAD_OFFSET + |image| <= memory.Length
      modifies this`pos, memory
      ensures Valid() && Model() == old(Model()).(mem := Write(old(memory[..]), LOAD_OFFSET, image), pos := LOAD_OFFSET)
    {
      forall k | 0 <= k < |image| {
        memory[LOAD_OFFSET + k] := image[k];
      }
      pos := LOAD_OFFSET;
    }
  }

  const LOAD_OFFSET := 4096
  const DEFAULT_MEMORY := 0x40_0000
  const INIT_SP := 0x600
  const INIT_SSP := 0x800

  /** An and-mask test of one flag. */
  function TestFlag(f: dword, x: Flag): (b: bool)
    ensures b == Has(f, x)
  {
    TestMask(f, Index(x));
    And(f, Pow2(Index(x))) != 0
  }

  lemma OrFourBytes(uh: byte, ul: byte, lh: byte, ll: byte)
    ensures Or(Or(Or(uh as int * 0x100_0000, ul as int * 0x1_0000), lh as int * 0x100), ll) == Join(ll, lh, ul, uh)
  {
    Pow2Values();
    hide Bitwise, Pow2;
    OrConcat(24, uh, ul as int * 0x1_0000);
    OrConcat(16, uh as int * 0x100 + ul, lh as int * 0x100);
    OrConcat(8, uh as int * 0x1_0000 + ul as int * 0x100 + lh, ll);
  }
}
