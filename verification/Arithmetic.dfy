/** What the arithmetic, comparison and test instructions mean. */
module Arithmetic {
  import opened Words
  import opened Isa
  import opened Storage
  import opened Machine
  import opened Syntax
  import opened Simulation
  import opened Macros

  // ----- comparison -----

  lemma WithFlagHas(regs: registers, x: Flag, b: bool, y: Flag)
    ensures Has(WithFlag(regs, x, b)[REG_FLGS], y) == if x == y then b else Has(regs[REG_FLGS], y)
  {
    PutHas(regs[REG_FLGS], x, b, y);
  }

  lemma CompareFlags(regs: registers, a: dword, b: dword)
    ensures var f := CompareResult(regs, a, b)[REG_FLGS];
            && (Has(f, Z) <==> a == b) && (Has(f, C) <==> a < b) && (Has(f, S) <==> Signed32(a) < Signed32(b))
            && (Has(f, O) <==> Has(regs[REG_FLGS], O)) && (Has(f, P) <==> Has(regs[REG_FLGS], P))
            && (Has(f, E) <==> Has(regs[REG_FLGS], E))
  {
    var r1 := WithFlag(regs, Z, a == b);
    var r2 := WithFlag(r1, C, a < b);
    forall y: Flag
      ensures Has(CompareResult(regs, a, b)[REG_FLGS], y) ==
              if y == Z then a == b else if y == C then a < b
              else if y == S then Signed32(a) < Signed32(b) else Has(regs[REG_FLGS], y)
    {
      WithFlagHas(regs, Z, a == b, y);
      WithFlagHas(r1, C, a < b, y);
      WithFlagHas(r2, S, Signed32(a) < Signed32(b), y);
    }
  }

  /** After a comparison each condition code decides its order relation, unsigned or signed. */
  lemma CompareDecides(regs: registers, a: dword, b: dword)
    ensures var f := CompareResult(regs, a, b)[REG_FLGS];
            && (Holds(COND_IZ, f) <==> a == b)
            && (Holds(COND_IC, f) <==> a < b) && (Holds(COND_IZIC, f) <==> a <= b)
            && (Holds(COND_NC, f) <==> a >= b) && (Holds(COND_NZNC, f) <==> a > b)
            && (Holds(COND_IS, f) <==> Signed32(a) < Signed32(b))
            && (Holds(COND_IZIS, f) <==> Signed32(a) <= Signed32(b))
            && (Holds(COND_NS, f) <==> Signed32(a) >= Signed32(b))
            && (Holds(COND_NZNS, f) <==> Signed32(a) > Signed32(b))
  {
    hide Has, CompareResult;
    CompareFlags(regs, a, b);
  }

  /** The code that is documented as the opposite of a condition code; ALWAYS and NF have none. */
  function Opposite(c: nibble): nibble {
    if c == COND_IZ then COND_NZ else if c == COND_NZ then COND_IZ
    else if c == COND_IS then COND_NS else if c == COND_NS then COND_IS
    else if c == COND_IO then COND_NO else if c == COND_NO then COND_IO
    else if c == COND_IP then COND_NP else if c == COND_NP then COND_IP
    else if c == COND_IZIS then COND_NZNS else if c == COND_NZNS then COND_IZIS
    else if c == COND_IZIC then COND_NZNC else if c == COND_NZNC then COND_IZIC
    else if c == COND_IC then COND_NC else if c == COND_NC then COND_IC
    else c
  }

  /** Of two opposite codes exactly one holds, whatever the flags. */
  lemma OppositeNegates(c: nibble, f: dword)
    requires c != COND_ALWAYS && c != COND_NF
    ensures Holds(c, f) <==> !Holds(Opposite(c), f)
    ensures Opposite(Opposite(c)) == c
  {
    hide Has;
  }

  /** CMP's carry is SUB's carry, and its sign flag is the sign of SUB's result corrected by its overflow. */
  lemma CompareAgreesWithSub(regs: registers, dst: nibble, a: dword, b: dword)
    requires dst != REG_FLGS
    ensures var f, r := CompareResult(regs, a, b)[REG_FLGS], AluResult(Sub, regs, dst, a, b);
            && (Has(f, C) <==> Has(r[REG_FLGS], C))
            && (Has(f, S) <==> ((r[dst] >= 0x8000_0000) != Has(r[REG_FLGS], O)))
            && (Has(f, Z) <==> r[dst] == 0)
  {
    var r0 := regs[dst := Wrap(a - b)];
    var overflow := SignedOverflow(Signed32(a) - Signed32(b));
    hide Has, Put, CompareResult;
    CompareFlags(regs, a, b);
    WithFlagHas(r0, O, overflow, O);
    WithFlagHas(WithFlag(r0, O, overflow), C, a < b, O);
    WithFlagHas(WithFlag(r0, O, overflow), C, a < b, C);
    SubSign(a, b);
  }

  lemma SubSign(a: dword, b: dword)
    ensures (Signed32(a) < Signed32(b)) <==> ((Wrap(a - b) >= 0x8000_0000) != SignedOverflow(Signed32(a) - Signed32(b)))
    ensures a == b <==> Wrap(a - b) == 0
  {
    var d := Signed32(a) - Signed32(b);
    assert Wrap(a - b) == if a >= b then a - b else a - b + DWORD_MODULUS;
  }

  // ----- multi-limb addition -----

  /** The number held by a list of registers, least significant first. */
  function Value(regs: registers, limbs: seq<nibble>): nat {
    if limbs == [] then 0 else regs[limbs[0]] + 0x1_0000_0000 * Value(regs, limbs[1..])
  }

  function Base(k: nat): nat {
    if k == 0 then 1 else 0x1_0000_0000 * Base(k - 1)
  }

  predicate Distinct(limbs: seq<nibble>) {
    forall i, j :: 0 <= i < j < |limbs| ==> limbs[i] != limbs[j]
  }

  /** ADDIC r, r, 1 */
  function AddCarry(r: nibble): Source {
    Binary(OP_ADD, COND_IC, r, r, Imm(1))
  }

  function CarryChain(limbs: seq<nibble>): (code: seq<Source>)
    ensures |code| == |limbs| && AllSound(code)
  {
    seq(|limbs|, i requires 0 <= i < |limbs| => AddCarry(limbs[i]))
  }

  /** ADD r0, r0, y followed by ADDIC for every further limb. */
  function RippleCode(limbs: seq<nibble>, y: nibble): (code: seq<Source>)
    requires limbs != []
    ensures |code| == |limbs| && AllSound(code)
  {
    [Binary(OP_ADD, COND_ALWAYS, limbs[0], limbs[0], Reg(y))] + CarryChain(limbs[1..])
  }

  function Carry(regs: registers): nat {
    CarryOut(regs, 0)
  }

  /** The carry flag as a number with the weight of limb k. */
  function CarryOut(regs: registers, k: nat): nat {
    if Has(regs[REG_FLGS], C) then Base(k) else 0
  }

  lemma CarryWeight(regs: registers, k: nat)
    ensures CarryOut(regs, k + 1) == 0x1_0000_0000 * CarryOut(regs, k) && CarryOut(regs, 0) == Carry(regs)
  {
    hide Has;
  }

  lemma {:induction false} ValueSame(r1: registers, r2: registers, limbs: seq<nibble>)
    requires forall i :: 0 <= i < |limbs| ==> r1[limbs[i]] == r2[limbs[i]]
    ensures Value(r1, limbs) == Value(r2, limbs)
  {
    if limbs != [] {
      assert forall i :: 0 <= i < |limbs[1..]| ==> limbs[1..][i] == limbs[i + 1];
      ValueSame(r1, r2, limbs[1..]);
    }
  }

  /** Only limbs and the flags change. */
  predicate OthersKept(r1: registers, r2: registers, limbs: seq<nibble>) {
    forall r :: 0 <= r < 16 && r != REG_FLGS && r !in limbs ==> r1[r] == r2[r]
  }

  lemma AddEffect(regs: registers, dst: nibble, a: dword, b: dword)
    requires dst != REG_FLGS
    ensures var r := AluResult(Add, regs, dst, a, b);
            && r[dst] + 0x1_0000_0000 * Carry(r) == a + b
            && forall j :: 0 <= j < 16 && j != dst && j != REG_FLGS ==> r[j] == regs[j]
  {
    var r0 := regs[dst := Wrap(a + b)];
    var r1 := WithFlag(r0, O, SignedOverflow(Signed32(a) + Signed32(b)));
    hide Has, Put;
    WithFlagHas(r1, C, a + b > DWORD_MAX, C);
  }

  lemma AddCarryStep(r: nibble, s: Cpu)
    requires r != REG_FLGS
    ensures Sound(AddCarry(r))
    ensures var o := SourceStep(AddCarry(r), s);
            && o.Next? && o.s == Fetched(s).(regs := o.s.regs)
            && o.s.regs[r] + 0x1_0000_0000 * Carry(o.s.regs) == s.regs[r] + Carry(s.regs)
            && forall j :: 0 <= j < 16 && j != r && j != REG_FLGS ==> o.s.regs[j] == s.regs[j]
  {
    AddEffect(s.regs, r, s.regs[r], 1);
    hide Has, AluResult;
  }

  /** Adding y to the lowest limb and its carry to the rest adds y to the whole number. */
  lemma LimbsCombine(limbs: seq<nibble>, r0: registers, r1: registers, r2: registers, y: nat)
    requires limbs != [] && Distinct(limbs) && REG_FLGS !in limbs
    requires r1[limbs[0]] + 0x1_0000_0000 * Carry(r1) == r0[limbs[0]] + y
    requires forall j :: 0 <= j < 16 && j != limbs[0] && j != REG_FLGS ==> r1[j] == r0[j]
    requires Value(r2, limbs[1..]) + CarryOut(r2, |limbs| - 1) == Value(r1, limbs[1..]) + Carry(r1)
    requires OthersKept(r1, r2, limbs[1..])
    ensures Value(r2, limbs) + CarryOut(r2, |limbs|) == Value(r0, limbs) + y
    ensures OthersKept(r0, r2, limbs)
  {
    hide Carry, CarryOut;
    var rest := limbs[1..];
    assert forall i :: 0 <= i < |rest| ==> rest[i] == limbs[i + 1];
    ValueSame(r0, r1, rest);
    FirstLimbKept(limbs, r1, r2);
    CarryWeight(r2, |rest|);
  }

  lemma {:induction false} CarryRipples(limbs: seq<nibble>, s: Cpu)
    requires Distinct(limbs) && REG_FLGS !in limbs
    ensures var o := Straight(CarryChain(limbs), s);
            && o.Next? && o.s == Advanced(s, |limbs|).(regs := o.s.regs)
            && Value(o.s.regs, limbs) + CarryOut(o.s.regs, |limbs|) == Value(s.regs, limbs) + Carry(s.regs)
            && OthersKept(s.regs, o.s.regs, limbs)
    decreases |limbs|
  {
    hide SourceStep, Carry, CarryOut, Value, OthersKept, WellFormed, InRange;
    if limbs == [] {
      assert CarryChain(limbs) == [];
      AdvancedZero(s);
      CarryWeight(s.regs, 0);
      NoLimbs(s.regs);
    } else {
      var rest := limbs[1..];
      AddCarryStep(limbs[0], s);
      var s1 := SourceStep(AddCarry(limbs[0]), s).s;
      assert CarryChain(limbs)[0] == AddCarry(limbs[0]) && CarryChain(limbs)[1..] == CarryChain(rest);
      CarryRipples(rest, s1);
      LimbsCombine(limbs, s.regs, s1.regs, Straight(CarryChain(rest), s1).s.regs, Carry(s.regs));
      AdvancedAfter(s, |rest|);
    }
  }

  lemma NoLimbs(regs: registers)
    ensures Value(regs, []) == 0 && OthersKept(regs, regs, [])
  {
  }

  lemma FirstLimbKept(limbs: seq<nibble>, r1: registers, r2: registers)
    requires limbs != [] && Distinct(limbs) && REG_FLGS !in limbs && OthersKept(r1, r2, limbs[1..])
    ensures r1[limbs[0]] == r2[limbs[0]]
  {
    assert limbs[0] !in limbs[1..];
  }

  lemma {:induction false} ValueBound(regs: registers, limbs: seq<nibble>)
    ensures Value(regs, limbs) < Base(|limbs|)
  {
    if limbs != [] {
      ValueBound(regs, limbs[1..]);
    }
  }

  /** A sum that splits into a value and a carry has the value as remainder and the carry as quotient. */
  lemma SumSplits(regs: registers, limbs: seq<nibble>, sum: nat)
    requires Value(regs, limbs) + CarryOut(regs, |limbs|) == sum
    ensures Base(|limbs|) > 0
    ensures Value(regs, limbs) == sum % Base(|limbs|)
    ensures Has(regs[REG_FLGS], C) <==> sum >= Base(|limbs|)
  {
    ValueBound(regs, limbs);
    hide Value, Base, Has;
    DivModUnique(sum, Base(|limbs|), if Has(regs[REG_FLGS], C) then 1 else 0, Value(regs, limbs));
  }

  /**
   * Ripple-carry addition: for any number of limbs in distinct registers, ADD and a chain of ADDIC add the
   * register y to the whole number modulo 2^(32 * limbs) and leave the true carry-out in C, whether or not
   * the ADDICs are skipped.
   */
  lemma RippleAdd(limbs: seq<nibble>, y: nibble, s: Cpu)
    requires limbs != [] && Distinct(limbs) && REG_FLGS !in limbs
    ensures var o := Straight(RippleCode(limbs, y), s);
            && o.Next? && o.s == Advanced(s, |limbs|).(regs := o.s.regs)
            && Added(s.regs, o.s.regs, limbs, s.regs[y])
            && OthersKept(s.regs, o.s.regs, limbs)
  {
    hide SourceStep, Straight, Sound, Carry, CarryOut, Value, OthersKept, CarryChain, RippleCode, Advanced, Distinct, Fetched;
    var rest, first := limbs[1..], Binary(OP_ADD, COND_ALWAYS, limbs[0], limbs[0], Reg(y));
    RippleSplit(limbs, y, s);
    FirstAdd(limbs[0], y, s);
    var s1 := SourceStep(first, s).s;
    RestDistinct(limbs);
    CarryRipples(rest, s1);
    var r2 := Straight(CarryChain(rest), s1).s.regs;
    LimbsCombine(limbs, s.regs, s1.regs, r2, s.regs[y]);
    SumSplits(r2, limbs, Value(s.regs, limbs) + s.regs[y]);
    AdvancedTail(s, s1, Straight(CarryChain(rest), s1).s, |rest|, |limbs|);
  }

  /** The number in r2 is the one in r1 plus y modulo 2^(32 * limbs), and C is what that loses. */
  predicate Added(r1: registers, r2: registers, limbs: seq<nibble>, y: dword) {
    && Base(|limbs|) > 0
    && Value(r2, limbs) == (Value(r1, limbs) + y) % Base(|limbs|)
    && (Has(r2[REG_FLGS], C) <==> Value(r1, limbs) + y >= Base(|limbs|))
  }

  lemma RestDistinct(limbs: seq<nibble>)
    requires limbs != [] && Distinct(limbs) && REG_FLGS !in limbs
    ensures Distinct(limbs[1..]) && REG_FLGS !in limbs[1..]
  {
  }

  lemma AdvancedTail(s: Cpu, s1: Cpu, s2: Cpu, n: nat, m: nat)
    requires s1 == Fetched(s).(regs := s1.regs) && s2 == Advanced(s1, n).(regs := s2.regs) && m == n + 1
    ensures s2 == Advanced(s, m).(regs := s2.regs)
  {
    AdvancedAfter(s, n);
  }

  lemma RippleSplit(limbs: seq<nibble>, y: nibble, s: Cpu)
    requires limbs != [] && limbs[0] != REG_FLGS
    ensures Straight(RippleCode(limbs, y), s) ==
            Straight(CarryChain(limbs[1..]), SourceStep(Binary(OP_ADD, COND_ALWAYS, limbs[0], limbs[0], Reg(y)), s).s)
  {
    hide SourceStep, Straight, Sound;
    var first := Binary(OP_ADD, COND_ALWAYS, limbs[0], limbs[0], Reg(y));
    FirstAdd(limbs[0], y, s);
    StraightOne(first, s);
    StraightAppend([first], CarryChain(limbs[1..]), s);
  }

  lemma FirstAdd(r: nibble, y: nibble, s: Cpu)
    requires r != REG_FLGS
    ensures Sound(Binary(OP_ADD, COND_ALWAYS, r, r, Reg(y)))
    ensures var o := SourceStep(Binary(OP_ADD, COND_ALWAYS, r, r, Reg(y)), s);
            && o.Next? && o.s == Fetched(s).(regs := o.s.regs)
            && o.s.regs[r] + 0x1_0000_0000 * Carry(o.s.regs) == s.regs[r] as int + s.regs[y]
            && forall j :: 0 <= j < 16 && j != r && j != REG_FLGS ==> o.s.regs[j] == s.regs[j]
  {
    AddEffect(s.regs, r, s.regs[r], s.regs[y]);
    hide Has, AluResult;
  }
}
