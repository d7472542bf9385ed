/**
 * What each arithmetic instruction does when its bytes are executed, by mnemonic: results from register values,
 * flags bit by bit, and everything that stays. Dispatch and actions are not mentioned.
 */
module Laws {
  import opened Words
  import opened Isa
  import opened Storage
  import opened Machine
  import opened Syntax
  import opened Simulation
  import opened Shifts
  import opened Effects

  // ----- vocabulary -----

  /** The bytes of an instruction stand at the position, and its condition holds. */
  predicate Executes(src: Source, s: Cpu) {
    && WellFormed(src) && InRange(src)
    && InMemory(s.mem, s.pos, 4) && s.mem[s.pos..s.pos + 4] == Encode(src)
    && Holds(src.cond, s.regs[REG_FLGS])
  }

  /** The same state, one instruction further. */
  function Past(s: Cpu): Cpu
    requires s.pos + 4 < 0x1_0000_0000
  {
    s.(pos := s.pos + 4, count := (s.count + 1) % 0x1_0000_0000_0000_0000)
  }

  /** The value of the second source operand. */
  function Second(b: Operand, regs: registers): dword {
    match b
    case Reg(r) => regs[r]
    case Imm(v) => v
  }

  /** Nothing but one register and the flags changes. */
  predicate Touches(s: Cpu, t: Cpu, dst: nibble)
    requires s.pos + 4 < 0x1_0000_0000
  {
    && t == Past(s).(regs := t.regs)
    && forall j :: 0 <= j < 16 && j != dst && j != REG_FLGS ==> t.regs[j] == s.regs[j]
  }

  /** Nothing but one register changes. */
  predicate Sets(s: Cpu, t: Cpu, dst: nibble)
    requires s.pos + 4 < 0x1_0000_0000
  {
    t == Past(s).(regs := t.regs) && t.regs == s.regs[dst := t.regs[dst]]
  }

  /** All bits but those listed are the same. */
  predicate SameBut(f: dword, g: dword, bits: set<nat>) {
    forall i: nat :: i < 32 && i !in bits ==> (Bit(g, i) <==> Bit(f, i))
  }

  predicate Fits32(x: int) {
    -0x8000_0000 <= x < 0x8000_0000
  }

  /** Signed32 is the one number of the signed range that is congruent to its argument. */
  lemma SignedValue(x: dword)
    ensures Fits32(Signed32(x)) && Signed32(x) % 0x1_0000_0000 == x
    ensures forall y :: Fits32(y) && y % 0x1_0000_0000 == x ==> y == Signed32(x)
  {
    forall y | Fits32(y) && y % 0x1_0000_0000 == x
      ensures y == Signed32(x)
    {
      WrapSigned(y);
    }
  }

  // ----- execution -----

  lemma StepPerforms(src: Source, s: Cpu)
    requires Executes(src, s)
    ensures WellFormed(src) && InRange(src) && s.pos + 4 < 0x1_0000_0000
    ensures Step(s) == Perform(Actual(src), Past(s))
  {
    hide Perform, Encode, Holds, Actual, WellFormed, InRange;
    StepIsSourceStep(src, s);
  }

  /** An instruction that loses operands is executed as what is kept of it. */
  lemma KeptExecutes(src: Source, s: Cpu)
    requires Executes(src, s)
    ensures Executes(Kept(src), s) && !Misencoded(Kept(src))
  {
    hide Encode, Kept, Misencoded, Holds;
    KeptEncodes(src);
  }

  /** An instruction whose condition fails is skipped. */
  lemma Skipped(src: Source, s: Cpu)
    requires WellFormed(src) && InRange(src)
    requires InMemory(s.mem, s.pos, 4) && s.mem[s.pos..s.pos + 4] == Encode(src)
    requires !Holds(src.cond, s.regs[REG_FLGS])
    ensures s.pos + 4 < 0x1_0000_0000 && Step(s) == Next(Past(s))
  {
    hide Perform, Encode, Holds, Actual, WellFormed, InRange;
    StepIsSourceStep(src, s);
  }

  /** What each condition code tests, by number of code and bit of FLGS. */
  lemma ConditionBits(f: dword)
    ensures Holds(0, f)
    ensures (Holds(1, f) <==> Bit(f, 0)) && (Holds(2, f) <==> !Bit(f, 0))
    ensures (Holds(3, f) <==> Bit(f, 4)) && (Holds(4, f) <==> !Bit(f, 4))
    ensures (Holds(5, f) <==> Bit(f, 2)) && (Holds(6, f) <==> !Bit(f, 2))
    ensures (Holds(7, f) <==> Bit(f, 3)) && (Holds(8, f) <==> !Bit(f, 3))
    ensures (Holds(9, f) <==> Bit(f, 0) || Bit(f, 4)) && (Holds(10, f) <==> Bit(f, 0) || Bit(f, 1))
    ensures (Holds(11, f) <==> !Bit(f, 0) && !Bit(f, 4)) && (Holds(12, f) <==> !Bit(f, 0) && !Bit(f, 1))
    ensures (Holds(13, f) <==> Bit(f, 1)) && (Holds(14, f) <==> !Bit(f, 1))
    ensures Holds(15, f) <==> !Bit(f, 0) && !Bit(f, 1) && !Bit(f, 2) && !Bit(f, 3) && !Bit(f, 4) && !Bit(f, 5)
  {
    hide Bit;
    assert Has(f, Z) == Bit(f, 0) && Has(f, C) == Bit(f, 1) && Has(f, O) == Bit(f, 2);
    assert Has(f, P) == Bit(f, 3) && Has(f, S) == Bit(f, 4) && Has(f, E) == Bit(f, 5);
  }

  lemma AluStep(src: Source, s: Cpu)
    requires Executes(src, s) && src.Binary? && !(src.op == OP_MOD && src.b.Imm?)
    ensures s.pos + 4 < 0x1_0000_0000
    ensures Step(s) == Next(Past(s).(regs := AluResult(AluOpOf(src.op), s.regs, src.dst, s.regs[src.a], Second(src.b, s.regs))))
  {
    StepPerforms(src, s);
    hide AluResult, AluOpOf, Executes;
  }

  // ----- flags -----

  lemma OneBit(f: dword, x: Flag, b: bool)
    ensures (Bit(Put(f, x, b), Index(x)) <==> b) && SameBut(f, Put(f, x, b), {Index(x)})
  {
    forall i: nat
      ensures Bit(Put(f, x, b), i) == if i == Index(x) then b else Bit(f, i)
    {
      BitPutBit(f, Index(x), b, i);
    }
    hide Bit, Put;
  }

  /** Writing O and then C, as after ADD and SUB. */
  lemma OverflowThenCarry(regs: registers, o: bool, c: bool)
    ensures var r := WithFlag(WithFlag(regs, O, o), C, c);
            && (Bit(r[REG_FLGS], 1) <==> c) && (Bit(r[REG_FLGS], 2) <==> o) && SameBut(regs[REG_FLGS], r[REG_FLGS], {1, 2})
            && forall j :: 0 <= j < 16 && j != REG_FLGS ==> r[j] == regs[j]
  {
    hide Bit, Put;
    OneBit(regs[REG_FLGS], O, o);
    OneBit(WithFlag(regs, O, o)[REG_FLGS], C, c);
  }

  lemma OneFlag(regs: registers, x: Flag, b: bool)
    ensures var r := WithFlag(regs, x, b);
            && (Bit(r[REG_FLGS], Index(x)) <==> b) && SameBut(regs[REG_FLGS], r[REG_FLGS], {Index(x)})
            && forall j :: 0 <= j < 16 && j != REG_FLGS ==> r[j] == regs[j]
  {
    hide Bit, Put;
    OneBit(regs[REG_FLGS], x, b);
  }

  // ----- addition and subtraction -----

  lemma WrapOnce(x: int)
    requires -0x1_0000_0000 < x < 0x2_0000_0000
    ensures Wrap(x) == if x < 0 then x + 0x1_0000_0000 else if x < 0x1_0000_0000 then x else x - 0x1_0000_0000
  {
  }

  /** ADD: the sum modulo 2^32; C when it does not fit unsigned, O when it does not fit signed. */
  lemma AddLaw(src: Source, s: Cpu)
    requires Executes(src, s) && src.Binary? && src.op == OP_ADD
    ensures s.pos + 4 < 0x1_0000_0000 && Step(s).Next?
    ensures var t, x, y := Step(s).s, s.regs[src.a] as int, Second(src.b, s.regs) as int;
            var sum := if x + y < 0x1_0000_0000 then x + y else x + y - 0x1_0000_0000;
            && Touches(s, t, src.dst) && (src.dst != REG_FLGS ==> t.regs[src.dst] == sum)
            && (Bit(t.regs[REG_FLGS], 1) <==> x + y >= 0x1_0000_0000)
            && (Bit(t.regs[REG_FLGS], 2) <==> !Fits32(Signed32(x) + Signed32(y)))
            && SameBut(if src.dst == REG_FLGS then sum else s.regs[REG_FLGS], t.regs[REG_FLGS], {1, 2})
  {
    hide Executes, Bit, Step, WithFlag, SameBut, Wrap, Second, Signed32, Encode;
    AluStep(src, s);
    var x, y := s.regs[src.a], Second(src.b, s.regs);
    WrapOnce(x + y);
    OverflowThenCarry(s.regs[src.dst := Wrap(x + y)], SignedOverflow(Signed32(x) + Signed32(y)), x + y > DWORD_MAX);
  }

  /** SUB: the second operand from the first; C is the borrow, O tells that the difference does not fit signed. */
  lemma SubLaw(src: Source, s: Cpu)
    requires Executes(src, s) && src.Binary? && src.op == OP_SUB
    ensures s.pos + 4 < 0x1_0000_0000 && Step(s).Next?
    ensures var t, x, y := Step(s).s, s.regs[src.a] as int, Second(src.b, s.regs) as int;
            var difference := if x >= y then x - y else x - y + 0x1_0000_0000;
            && Touches(s, t, src.dst) && (src.dst != REG_FLGS ==> t.regs[src.dst] == difference)
            && (Bit(t.regs[REG_FLGS], 1) <==> x < y)
            && (Bit(t.regs[REG_FLGS], 2) <==> !Fits32(Signed32(x) - Signed32(y)))
            && SameBut(if src.dst == REG_FLGS then difference else s.regs[REG_FLGS], t.regs[REG_FLGS], {1, 2})
  {
    hide Executes, Bit, Step, WithFlag, SameBut, Wrap, Second, Signed32, Encode;
    AluStep(src, s);
    var x: int, y: int := s.regs[src.a], Second(src.b, s.regs);
    WrapOnce(x - y);
    OverflowThenCarry(s.regs[src.dst := Wrap(x - y)], SignedOverflow(Signed32(x) - Signed32(y)), x < y);
  }

  // ----- multiplication and division -----

  /** MUL: the product modulo 2^32; C when it does not fit. */
  lemma MulLaw(src: Source, s: Cpu)
    requires Executes(src, s) && src.Binary? && src.op == OP_MUL
    ensures s.pos + 4 < 0x1_0000_0000 && Step(s).Next?
    ensures var t, x, y := Step(s).s, s.regs[src.a] as int, Second(src.b, s.regs) as int;
            && Touches(s, t, src.dst) && t.regs[src.dst] == x * y % 0x1_0000_0000
            && (src.dst != REG_FLGS ==>
                 (Bit(t.regs[REG_FLGS], 1) <==> x * y >= 0x1_0000_0000) && SameBut(s.regs[REG_FLGS], t.regs[REG_FLGS], {1}))
  {
    hide Executes, Bit, Step, WithFlag, SameBut;
    AluStep(src, s);
    var x, y := s.regs[src.a] as int, Second(src.b, s.regs) as int;
    OneFlag(s.regs, C, x * y > DWORD_MAX);
  }

  /** SMUL: the signed product modulo 2^32; O when it does not fit signed. */
  lemma SmulLaw(src: Source, s: Cpu)
    requires Executes(src, s) && src.Binary? && src.op == OP_SMUL
    ensures s.pos + 4 < 0x1_0000_0000 && Step(s).Next?
    ensures var t, product := Step(s).s, Signed32(s.regs[src.a]) * Signed32(Second(src.b, s.regs));
            && Touches(s, t, src.dst) && (src.dst != REG_FLGS ==> t.regs[src.dst] == product % 0x1_0000_0000)
            && (Bit(t.regs[REG_FLGS], 2) <==> !Fits32(product))
            && SameBut(if src.dst == REG_FLGS then product % 0x1_0000_0000 else s.regs[REG_FLGS], t.regs[REG_FLGS], {2})
  {
    hide Executes, Bit, Step, WithFlag, SameBut;
    AluStep(src, s);
    var product := Signed32(s.regs[src.a]) * Signed32(Second(src.b, s.regs));
    OneFlag(s.regs[src.dst := Wrap(product)], O, SignedOverflow(product));
  }

  /** DIV: the unsigned quotient; a zero divisor changes nothing. */
  lemma DivLaw(src: Source, s: Cpu)
    requires Executes(src, s) && src.Binary? && src.op == OP_DIV
    ensures s.pos + 4 < 0x1_0000_0000 && Step(s).Next?
    ensures var t, x, y := Step(s).s, s.regs[src.a], Second(src.b, s.regs);
            if y == 0 then t == Past(s)
            else Sets(s, t, src.dst) && t.regs[src.dst] * y <= x < t.regs[src.dst] * y + y
  {
    hide Executes, Step, Second;
    AluStep(src, s);
    var x, y := s.regs[src.a], Second(src.b, s.regs);
    if y != 0 {
      Quotient(x, y);
    }
  }

  lemma Quotient(x: dword, y: dword)
    requires y != 0
    ensures 0 <= x / y <= DWORD_MAX && x / y * y <= x < x / y * y + y && x % y == x as int - x / y * y
  {
    QuotientBound(x, y);
    assert x == x / y * y + x % y;
  }

  /** MOD: the unsigned remainder by a register; the register is numbered by the top digit of an immediate. */
  lemma ModLaw(src: Source, s: Cpu)
    requires Executes(src, s) && src.Binary? && src.op == OP_MOD
    ensures s.pos + 4 < 0x1_0000_0000 && Step(s).Next? && (src.b.Imm? ==> src.b.v < 0x1000)
    ensures var t, x, y := Step(s).s, s.regs[src.a], s.regs[if src.b.Reg? then src.b.r else src.b.v / 0x100];
            if y == 0 then t == Past(s)
            else Sets(s, t, src.dst) && t.regs[src.dst] < y && (x as int - t.regs[src.dst]) % y == 0
  {
    hide Executes, Step, Perform, Actual;
    StepPerforms(src, s);
    ModActs(src, Past(s));
    var x, y := s.regs[src.a], s.regs[if src.b.Reg? then src.b.r else src.b.v / 0x100];
    if y != 0 {
      RemainderLeaves(x, y);
    }
  }

  lemma ModActs(src: Source, s: Cpu)
    requires WellFormed(src) && InRange(src) && src.Binary? && src.op == OP_MOD
    ensures src.b.Imm? ==> src.b.v < 0x1000
    ensures var x, y := s.regs[src.a], s.regs[if src.b.Reg? then src.b.r else src.b.v / 0x100];
            Perform(Actual(src), s) == Next(s.(regs := if y == 0 then s.regs else s.regs[src.dst := x % y]))
  {
    if src.b.Imm? {
      DivModUnique(src.b.v, 0x1000, 0, src.b.v);
    }
  }

  lemma RemainderLeaves(x: dword, y: dword)
    requires y != 0
    ensures 0 <= x % y < y && (x as int - x % y) % y == 0
  {
    assert x == x / y * y + x % y;
    DivModUnique(x as int - x % y, y, x / y, 0);
  }

  /** Truncated division: the remainder is smaller than the divisor and has the sign of the dividend. */
  predicate Truncates(x: int, y: int, q: int) {
    var r := x - q * y;
    && -(if y < 0 then -y else y) < r < (if y < 0 then -y else y)
    && (r != 0 ==> (r < 0 <==> x < 0))
  }

  lemma TruncDivTruncates(x: int, y: int)
    requires y != 0
    ensures Truncates(x, y, TruncDiv(x, y))
  {
    var n, d := if x < 0 then -x else x, if y < 0 then -y else y;
    var q, r := n / d, n % d;
    assert n == q * d + r;
    SignOfDivisor(n, d);
    Signs(q, d);
  }

  lemma Signs(q: int, d: int)
    ensures (-q) * d == -(q * d) && q * (-d) == -(q * d) && (-q) * (-d) == q * d
  {
  }

  /** SDIV: the truncated signed quotient; O and 0 for the one quotient that does not fit. */
  lemma SdivLaw(src: Source, s: Cpu)
    requires Executes(src, s) && src.Binary? && src.op == OP_SDIV
    ensures s.pos + 4 < 0x1_0000_0000 && Step(s).Next?
    ensures var t, x, y := Step(s).s, s.regs[src.a], Second(src.b, s.regs);
            if y == 0 then t == Past(s)
            else
              var overflow := x == 0x8000_0000 && y == 0xFFFF_FFFF;
              && Touches(s, t, src.dst)
              && (if overflow then t.regs[src.dst] == 0 else Truncates(Signed32(x), Signed32(y), Signed32(t.regs[src.dst])))
              && (src.dst != REG_FLGS ==>
                   (Bit(t.regs[REG_FLGS], 2) <==> overflow) && SameBut(s.regs[REG_FLGS], t.regs[REG_FLGS], {2}))
  {
    hide Executes, Bit, Step, WithFlag, SameBut, TruncDiv, Truncates;
    AluStep(src, s);
    var x, y := s.regs[src.a], Second(src.b, s.regs);
    if y != 0 {
      var q := TruncDiv(Signed32(x), Signed32(y));
      OneFlag(s.regs, O, SignedOverflow(q));
      QuotientOverflow(x, y);
      TruncDivTruncates(Signed32(x), Signed32(y));
      WrapSigned(q);
    }
  }

  // ----- bits -----

  /** AND, OR and XOR: each bit of the result is the conjunction, disjunction or difference of the operands' bits. */
  lemma LogicLaw(src: Source, s: Cpu, i: nat)
    requires Executes(src, s) && src.Binary? && i < 32
    requires src.op == OP_AND || src.op == OP_OR || src.op == OP_XOR
    ensures s.pos + 4 < 0x1_0000_0000 && Step(s).Next? && Sets(s, Step(s).s, src.dst)
    ensures var z, x, y := Step(s).s.regs[src.dst], s.regs[src.a], Second(src.b, s.regs);
            && (src.op == OP_AND ==> (Bit(z, i) <==> Bit(x, i) && Bit(y, i)))
            && (src.op == OP_OR ==> (Bit(z, i) <==> Bit(x, i) || Bit(y, i)))
            && (src.op == OP_XOR ==> (Bit(z, i) <==> Bit(x, i) != Bit(y, i)))
  {
    hide Executes, Bit, Step, Gate32;
    AluStep(src, s);
    LogicBits(s.regs, src.dst, s.regs[src.a], Second(src.b, s.regs), i);
  }

  /** NOT inverts each bit. */
  lemma NotLaw(src: Source, s: Cpu, i: nat)
    requires Executes(src, s) && src.Pair? && src.op == OP_NOT && i < 32
    ensures s.pos + 4 < 0x1_0000_0000 && Step(s).Next? && Sets(s, Step(s).s, src.a)
    ensures Bit(Step(s).s.regs[src.a], i) <==> !Bit(s.regs[src.r], i)
  {
    hide Executes, Bit, Step;
    StepPerforms(src, s);
    NotBits(src.a, src.r, Past(s), i);
  }

  predicate IsShift(op: opcode) {
    op == OP_SHL || op == OP_SHR || op == OP_SAR
  }

  /** Where bit i of a shift by k comes from: a bit below, a bit above, or above with the sign filling in. */
  predicate Shifted(op: opcode, x: dword, k: nat, z: dword, i: nat) {
    Bit(z, i) <==>
      if op == OP_SHL then i >= k && Bit(x, i - k)
      else if op == OP_SHR then i + k < 32 && Bit(x, i + k)
      else if i + k < 32 then Bit(x, i + k) else Bit(x, 31)
  }

  /** SHL, SHR and SAR by the second operand modulo 32; C is the top bit for SHL and the lowest for the others. */
  lemma ShiftLaw(src: Source, s: Cpu, i: nat)
    requires Executes(src, s) && src.Binary? && IsShift(src.op) && i < 32
    ensures s.pos + 4 < 0x1_0000_0000 && Step(s).Next? && Touches(s, Step(s).s, src.dst)
    ensures var t, x, k := Step(s).s, s.regs[src.a], Second(src.b, s.regs) % 32;
            && Shifted(src.op, x, k, t.regs[src.dst], i)
            && (src.dst != REG_FLGS ==>
                 && (Bit(t.regs[REG_FLGS], 1) <==> Bit(x, if src.op == OP_SHL then 31 else 0))
                 && SameBut(s.regs[REG_FLGS], t.regs[REG_FLGS], {1}))
  {
    hide Executes, Bit, Step, SameBut, AluResult, Shifted;
    AluStep(src, s);
    var x, y := s.regs[src.a], Second(src.b, s.regs);
    ShiftedResult(src.op, s.regs, src.dst, x, y, i);
    ShiftFlags(src.op, s.regs, src.dst, x, y);
  }

  /** The three shifts write their destination, and else only FLGS. */
  lemma ShiftFlags(op: opcode, regs: registers, dst: nibble, x: dword, y: dword)
    requires IsShift(op)
    ensures var r := AluResult(AluOpOf(op), regs, dst, x, y);
            && (forall j :: 0 <= j < 16 && j != dst && j != REG_FLGS ==> r[j] == regs[j])
            && (dst != REG_FLGS ==>
                 && (Bit(r[REG_FLGS], 1) <==> Bit(x, if op == OP_SHL then 31 else 0))
                 && SameBut(regs[REG_FLGS], r[REG_FLGS], {1}))
  {
    hide Put, SameBut, Pow2, ShiftRight;
    TopBit(x);
    assert Bit(x, 0) <==> x % 2 == 1;
    hide Bit;
    OneFlag(regs, C, if op == OP_SHL then x >= 0x8000_0000 else x % 2 == 1);
  }

  lemma ShiftedResult(op: opcode, regs: registers, dst: nibble, x: dword, y: dword, i: nat)
    requires IsShift(op) && i < 32
    ensures Shifted(op, x, y % 32, AluResult(AluOpOf(op), regs, dst, x, y)[dst], i)
  {
    var k := y % 32;
    TopBit(x);
    ShlBits(regs, 0, x, k, i);
    ShrBits(regs, 0, x, k, i);
    SarBits(regs, 0, x, k, i);
    HighestBits(x, i + k);
    SameShift(op, regs, dst, x, y);
    hide AluResult, Bit;
  }

  lemma HighestBits(x: dword, j: nat)
    ensures j >= 32 ==> !Bit(x, j)
  {
    Pow2Values();
    if j >= 32 {
      BitBeyond(x, 32, j);
    }
  }

  lemma SameShift(op: opcode, regs: registers, dst: nibble, x: dword, y: dword)
    requires IsShift(op)
    ensures AluResult(AluOpOf(op), regs, dst, x, y)[dst] == AluResult(AluOpOf(op), regs, 0, x, y % 32)[0]
  {
    DivModUnique(y % 32, 32, 0, y % 32);
    hide Put, Pow2, ShiftRight;
  }

  /** SEX: the low byte or word of the 32-bit register that the operand numbers, with its sign. */
  lemma SexLaw(src: Source, s: Cpu)
    requires Executes(src, s) && src.Sex?
    ensures s.pos + 4 < 0x1_0000_0000 && Step(s).Next? && Sets(s, Step(s).s, src.a)
    ensures var z, x := Signed32(Step(s).s.regs[src.a]), s.regs[src.sub] as int;
            if src.size == Byte then z == x % 0x100 - (if x % 0x100 < 0x80 then 0 else 0x100)
            else z == x % 0x1_0000 - (if x % 0x1_0000 < 0x8000 then 0 else 0x1_0000)
  {
    hide Executes, Step;
    StepPerforms(src, s);
    var x := s.regs[src.sub];
    assert (4 * src.sub) / 4 == src.sub && (4 * src.sub) % 4 == 0 && (2 * src.sub) / 2 == src.sub && (2 * src.sub) % 2 == 0;
  }
}
