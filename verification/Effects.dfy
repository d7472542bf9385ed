/** Laws of single instructions: exactness of the arithmetic flags, inverses and round trips. */
module Effects {
  import opened Words
  import opened Isa
  import opened Storage
  import opened Machine
  import opened Arithmetic
  import opened Shifts

  // ----- arithmetic flags -----

  lemma SignedSum(a: dword, b: dword)
    ensures Wrap(Signed32(a) + Signed32(b)) == Wrap(a + b) && Wrap(Signed32(a) - Signed32(b)) == Wrap(a - b)
  {
  }

  /** ADD and SUB: O is clear exactly when the signed result is exact, C exactly when the unsigned one is. */
  lemma AddSubExact(regs: registers, dst: nibble, a: dword, b: dword)
    requires dst != REG_FLGS
    ensures var r := AluResult(Add, regs, dst, a, b);
            && (Has(r[REG_FLGS], O) <==> Signed32(r[dst]) != Signed32(a) + Signed32(b))
            && (Has(r[REG_FLGS], C) <==> r[dst] as int != a + b)
    ensures var r := AluResult(Sub, regs, dst, a, b);
            && (Has(r[REG_FLGS], O) <==> Signed32(r[dst]) != Signed32(a) - Signed32(b))
            && (Has(r[REG_FLGS], C) <==> r[dst] as int != a - b)
  {
    hide Has, Put;
    SignedSum(a, b);
    WrapSigned(Signed32(a) + Signed32(b));
    WrapSigned(Signed32(a) - Signed32(b));
    TwoFlags(regs[dst := Wrap(a + b)], SignedOverflow(Signed32(a) + Signed32(b)), a + b > DWORD_MAX);
    TwoFlags(regs[dst := Wrap(a - b)], SignedOverflow(Signed32(a) - Signed32(b)), a < b);
    hide SignedOverflow;
  }

  lemma TwoFlags(regs: registers, o: bool, c: bool)
    ensures var f := WithFlag(WithFlag(regs, O, o), C, c)[REG_FLGS]; Has(f, O) == o && Has(f, C) == c
  {
    hide Has, Put;
    var r1 := WithFlag(regs, O, o);
    WithFlagHas(regs, O, o, O);
    WithFlagHas(r1, C, c, O);
    WithFlagHas(r1, C, c, C);
  }

  lemma SignedProduct(a: dword, b: dword)
    ensures Wrap(Signed32(a) * Signed32(b)) == Wrap(a * b)
  {
    var i, j := if a < 0x8000_0000 then 0 else 1, if b < 0x8000_0000 then 0 else 1;
    var k := i * b + j * a - i * j * DWORD_MODULUS;
    ProductOfDifferences(a, b, i, j);
    ModShift(Signed32(a) * Signed32(b), k);
  }

  lemma ProductOfDifferences(a: int, b: int, i: int, j: int)
    ensures (a - i * DWORD_MODULUS) * (b - j * DWORD_MODULUS) + (i * b + j * a - i * j * DWORD_MODULUS) * DWORD_MODULUS
         == a * b
  {
  }

  lemma ModShift(x: int, k: int)
    ensures Wrap(x + k * DWORD_MODULUS) == Wrap(x)
  {
    DivModUnique(x + k * DWORD_MODULUS, DWORD_MODULUS, x / DWORD_MODULUS + k, x % DWORD_MODULUS);
  }

  /** MUL and SMUL leave the same 32 bits; C and O tell whether the unsigned and the signed product are exact. */
  lemma MulExact(regs: registers, dst: nibble, a: dword, b: dword)
    requires dst != REG_FLGS
    ensures var u, s := AluResult(Mul, regs, dst, a, b), AluResult(SMul, regs, dst, a, b);
            && u[dst] == s[dst]
            && (Has(u[REG_FLGS], C) <==> u[dst] as int != a * b)
            && (Has(s[REG_FLGS], O) <==> Signed32(s[dst]) != Signed32(a) * Signed32(b))
  {
    hide Has, Put;
    SignedProduct(a, b);
    WrapSigned(Signed32(a) * Signed32(b));
    ProductExact(a, b);
    WithFlagHas(regs, C, a * b > DWORD_MAX, C);
    WithFlagHas(regs[dst := Wrap(Signed32(a) * Signed32(b))], O, SignedOverflow(Signed32(a) * Signed32(b)), O);
    hide SignedOverflow;
  }

  lemma ProductExact(a: nat, b: nat)
    ensures a * b >= 0 && (a * b <= DWORD_MAX ==> Wrap(a * b) == a * b)
  {
  }

  /** DIV and the register form of MOD split the dividend. */
  lemma DivModSplit(regs: registers, dst: nibble, a: dword, b: dword)
    requires dst != REG_FLGS && b != 0
    ensures AluResult(Div, regs, dst, a, b)[dst] * b + AluResult(Mod, regs, dst, a, b)[dst] as int == a
    ensures AluResult(Mod, regs, dst, a, b)[dst] < b
  {
    QuotientBound(a, b);
  }

  /** Shifts leave in C the bit that a shift by one pushes out. */
  lemma ShiftCarry(regs: registers, dst: nibble, a: dword, b: dword)
    requires dst != REG_FLGS
    ensures Has(AluResult(Shl, regs, dst, a, b)[REG_FLGS], C) <==> Bit(a, 31)
    ensures Has(AluResult(Shr, regs, dst, a, b)[REG_FLGS], C) <==> Bit(a, 0)
    ensures Has(AluResult(Sar, regs, dst, a, b)[REG_FLGS], C) <==> Bit(a, 0)
  {
    WithFlagHas(regs, C, a >= 0x8000_0000, C);
    WithFlagHas(regs, C, a % 2 == 1, C);
    TopBit(a);
    hide Has, Put, Pow2;
  }

  lemma TopBit(a: dword)
    ensures Bit(a, 31) <==> a >= 0x8000_0000
  {
    Pow2Values();
    assert Pow2(32) == 2 * Pow2(31);
    var low := if a >= 0x8000_0000 then a - 0x8000_0000 else a;
    BitConcat(if a >= 0x8000_0000 then 1 else 0, low, 31, 31);
  }

  /** Bit i of a logical instruction's result depends on bit i of its operands alone. */
  lemma LogicBits(regs: registers, dst: nibble, a: dword, b: dword, i: nat)
    ensures Bit(AluResult(BitAnd, regs, dst, a, b)[dst], i) <==> Bit(a, i) && Bit(b, i)
    ensures Bit(AluResult(BitOr, regs, dst, a, b)[dst], i) <==> Bit(a, i) || Bit(b, i)
    ensures Bit(AluResult(BitXor, regs, dst, a, b)[dst], i) <==> Bit(a, i) != Bit(b, i)
  {
    BitwiseAtBit(Conj, a, b, i);
    BitwiseAtBit(Disj, a, b, i);
    BitwiseAtBit(Excl, a, b, i);
    hide Bit, Bitwise;
  }

  lemma LowestBit(x: nat, p: nat)
    requires p < 2
    ensures Bit(2 * x + p, 0) <==> p == 1
  {
  }

  lemma {:induction false} ComplementBits(x: nat, n: nat, i: nat)
    requires x < Pow2(n) && i < n
    ensures Bit(Pow2(n) - 1 - x, i) <==> !Bit(x, i)
    decreases n
  {
    var y := Pow2(n - 1) - 1 - x / 2;
    Pow2Step(n);
    hide Pow2, Bit;
    assert x == 2 * (x / 2) + x % 2;
    assert Pow2(n) - 1 - x == 2 * y + (1 - x % 2);
    LowestBit(x / 2, x % 2);
    LowestBit(y, 1 - x % 2);
    if i > 0 {
      ComplementBits(x / 2, n - 1, i - 1);
      GluedBit(y, 1 - x % 2, i);
      GluedBit(x / 2, x % 2, i);
    }
  }

  /** NOT inverts all 32 bits. */
  lemma NotBits(a: nibble, b: nibble, s: Cpu, i: nat)
    requires i < 32
    ensures Perform(Complement(a, b), s).Next?
    ensures Bit(Perform(Complement(a, b), s).s.regs[a], i) <==> !Bit(s.regs[b], i)
  {
    Pow2Values();
    ComplementBits(s.regs[b], 32, i);
    hide Bit, Pow2;
  }

  /** Sign extension keeps the signed value. */
  lemma SignExtendValue(size: Size, v: dword)
    requires Fits(size, v)
    ensures Signed32(SignExtend(size, v)) ==
            match size
            case Dword => Signed32(v)
            case Word => Signed16(v)
            case Byte => if v < 0x80 then v else v - 0x100
  {
  }

  // ----- inverses and round trips -----

  /** Storing a register and loading it back from the same place changes no register. */
  lemma StoreThenLoadBack(size: Size, base: nibble, sub: nibble, disp: Operand, s: Cpu)
    requires Perform(StoreMem(size, base, sub, disp), s).Next?
    ensures var s1 := Perform(StoreMem(size, base, sub, disp), s).s;
            Perform(LoadMem(size, sub, base, disp), s1) == Next(s1) && s1 == s.(mem := s1.mem)
  {
    hide Load, Store, PutReg, GetReg;
    var addr := Address(base, disp, s.regs);
    if 0 <= addr <= DWORD_MAX {
      LoadStored(size, s.mem, addr, GetReg(size, s.regs, sub));
      StoredLength(size, s.mem, addr, GetReg(size, s.regs, sub));
      PutGetReg(size, s.regs, sub);
    }
  }
}
