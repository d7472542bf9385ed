/** Multi-register transfers and the stack that PUSH and POP keep in memory. */
module Stack {
  import opened Words
  import opened Isa
  import opened Storage
  import opened Machine
  import opened Syntax
  import opened Assembly
  import opened Simulation
  import opened Macros

  // ----- one transfer -----

  /** Address of the k-th dword below a, and of the k-th one above. */
  function Below(a: dword, k: nat): dword { Wrap(a - 4 * k) }

  function Above(a: dword, k: nat): dword { Wrap(a + 4 * k) }

  /** Up to 2^30 slots below an address do not overlap, even when the addresses wrap around. */
  lemma SlotsApart(a: dword, k: nat, j: nat)
    requires k < j < k + 0x4000_0000 && Below(a, k) + 4 <= DWORD_MODULUS && Below(a, j) + 4 <= DWORD_MODULUS
    ensures Below(a, k) + 4 <= Below(a, j) || Below(a, j) + 4 <= Below(a, k)
  {
  }

  lemma NoSlots(a: dword)
    ensures Below(a, 0) == a && Above(a, 0) == a
  {
  }

  lemma BelowShift(a: dword, k: nat)
    ensures Below(Wrap(a - 4), k) == Below(a, k + 1)
  {
    ModSum(a - 4, -4 * k, DWORD_MODULUS);
  }

  lemma {:induction false} PushAllAddr(blk: Block, lo: nat, hi: int)
    requires lo <= hi + 1 && hi < 16 && PushAll(blk, lo, hi).Some?
    ensures PushAll(blk, lo, hi).value.regs == blk.regs
    ensures PushAll(blk, lo, hi).value.addr == Below(blk.addr, hi + 1 - lo)
    ensures |PushAll(blk, lo, hi).value.mem| == |blk.mem|
    decreases hi - lo
  {
    NoSlots(blk.addr);
    hide Store, Below;
    if lo <= hi {
      PushStep(blk, lo, hi);
      PushAllAddr(PushOne(blk, lo), lo + 1, hi);
      BelowShift(blk.addr, hi - lo);
    }
  }

  lemma {:induction false} PushAllInMemory(blk: Block, lo: nat, hi: int, k: nat)
    requires lo + k <= hi < 16 && PushAll(blk, lo, hi).Some?
    ensures InMemory(blk.mem, Below(blk.addr, k), 4)
    decreases hi - lo
  {
    NoSlots(blk.addr);
    PushStep(blk, lo, hi);
    hide PushAll, Store, Below;
    if k > 0 {
      PushAllInMemory(PushOne(blk, lo), lo + 1, hi, k - 1);
      BelowShift(blk.addr, k - 1);
    }
  }

  /** After a push of lo..hi, slot k below the start holds register lo + k. */
  lemma {:induction false} PushAllSlot(blk: Block, lo: nat, hi: int, k: nat)
    requires lo + k <= hi < 16 && PushAll(blk, lo, hi).Some?
    ensures |PushAll(blk, lo, hi).value.mem| == |blk.mem| && InMemory(blk.mem, Below(blk.addr, k), 4)
    ensures Load(Dword, PushAll(blk, lo, hi).value.mem, Below(blk.addr, k)) == blk.regs[lo + k]
    decreases hi - lo
  {
    hide *;
    PushStep(blk, lo, hi);
    PushAllAddr(blk, lo, hi);
    PushAllInMemory(blk, lo, hi, k);
    if k > 0 {
      OneDown(blk, lo, k);
      PushAllSlot(PushOne(blk, lo), lo + 1, hi, k - 1);
    } else {
      NoSlots(blk.addr);
      FirstSlotStays(blk, lo, hi);
      JustStored(blk, lo);
    }
  }

  lemma OneDown(blk: Block, lo: nibble, k: nat)
    requires InMemory(blk.mem, blk.addr, 4) && k > 0
    ensures Below(PushOne(blk, lo).addr, k - 1) == Below(blk.addr, k) && PushOne(blk, lo).regs == blk.regs
  {
    BelowShift(blk.addr, k - 1);
  }

  lemma JustStored(blk: Block, lo: nibble)
    requires InMemory(blk.mem, blk.addr, 4)
    ensures |PushOne(blk, lo).mem| == |blk.mem|
    ensures Load(Dword, PushOne(blk, lo).mem, blk.addr) == blk.regs[lo]
  {
    LoadStored(Dword, blk.mem, blk.addr, blk.regs[lo]);
  }

  lemma FirstSlotStays(blk: Block, lo: nat, hi: int)
    requires lo <= hi < 16 && PushAll(blk, lo, hi).Some?
    ensures |PushAll(blk, lo, hi).value.mem| == |blk.mem| && InMemory(blk.mem, blk.addr, 4)
    ensures Load(Dword, PushAll(blk, lo, hi).value.mem, blk.addr) == Load(Dword, PushOne(blk, lo).mem, blk.addr)
  {
    hide PushAll, InSlot, PushOne;
    PushStep(blk, lo, hi);
    PushAllAddr(blk, lo, hi);
    var next, r := PushOne(blk, lo), PushAll(blk, lo, hi).value;
    forall i | blk.addr <= i < blk.addr + 4
      ensures r.mem[i] == next.mem[i]
    {
      NotLater(blk, lo, hi, i);
      PushAllFrame(next, lo + 1, hi, i);
    }
    assert r.mem[blk.addr..blk.addr + 4] == next.mem[blk.addr..blk.addr + 4];
  }

  lemma NotLater(blk: Block, lo: nat, hi: int, i: nat)
    requires lo <= hi < 16 && PushAll(blk, lo, hi).Some? && blk.addr <= i < blk.addr as int + 4
    ensures InMemory(blk.mem, blk.addr, 4)
    ensures forall k: nat :: k <= hi - (lo + 1) ==> !InSlot(PushOne(blk, lo).addr, k, i)
  {
    PushStep(blk, lo, hi);
    forall k: nat | k <= hi - (lo + 1)
      ensures !InSlot(PushOne(blk, lo).addr, k, i)
    {
      NotInSlot(blk, lo, hi, k, i);
    }
  }

  lemma NotInSlot(blk: Block, lo: nat, hi: int, k: nat, i: nat)
    requires lo + k < hi < 16 && PushAll(blk, lo, hi).Some? && blk.addr <= i < blk.addr as int + 4
    ensures InMemory(blk.mem, blk.addr, 4) && !InSlot(PushOne(blk, lo).addr, k, i)
  {
    hide PushAll, PushOne, Below, InSlot;
    PushStep(blk, lo, hi);
    PushAllInMemory(blk, lo, hi, k + 1);
    NoSlots(blk.addr);
    SlotsApart(blk.addr, 0, k + 1);
    OneDown(blk, lo, k + 1);
    SlotIsBelow(PushOne(blk, lo).addr, k, i);
  }

  lemma SlotIsBelow(a: dword, k: nat, i: int)
    ensures InSlot(a, k, i) <==> Below(a, k) <= i < Below(a, k) + 4
  {
  }

  // ----- popping -----

  lemma AboveShift(a: dword, k: nat)
    ensures Above(Above(a, 1), k) == Above(a, k + 1)
  {
    ModSum(a + 4, 4 * k, DWORD_MODULUS);
  }

  /** A pop of hi..lo succeeds when the dwords above the start are in memory, and fills the registers in order. */
  lemma {:induction false} PopAllSlots(blk: Block, lo: nat, hi: int)
    requires lo <= hi + 1 && hi < 16
    requires forall k :: 1 <= k <= hi + 1 - lo ==> InMemory(blk.mem, Above(blk.addr, k), 4)
    ensures PopAll(blk, lo, hi).Some?
    ensures var r := PopAll(blk, lo, hi).value;
            && r.mem == blk.mem && r.addr == Above(blk.addr, hi + 1 - lo)
            && forall j :: 0 <= j < 16 ==>
                 r.regs[j] == if lo <= j <= hi then Load(Dword, blk.mem, Above(blk.addr, hi + 1 - j)) else blk.regs[j]
    decreases hi
  {
    NoSlots(blk.addr);
    if lo <= hi {
      PopUnfold(blk, lo, hi);
      var next := PopOne(blk, hi);
      forall k: nat
        ensures Above(next.addr, k) == Above(blk.addr, k + 1)
      {
        AboveShift(blk.addr, k);
      }
      hide Above, PopOne, PopAll, Load;
      forall k | 1 <= k <= hi - lo
        ensures InMemory(blk.mem, Above(next.addr, k), 4)
      {
        assert InMemory(blk.mem, Above(blk.addr, k + 1), 4);
      }
      PopAllSlots(next, lo, hi - 1);
    }
  }

  lemma PopUnfold(blk: Block, lo: nat, hi: int)
    requires lo <= hi < 16 && InMemory(blk.mem, Above(blk.addr, 1), 4)
    ensures PopAll(blk, lo, hi) == PopAll(PopOne(blk, hi), lo, hi - 1)
    ensures PopOne(blk, hi) ==
            Block(blk.regs[hi := Load(Dword, blk.mem, Above(blk.addr, 1))], blk.mem, Above(blk.addr, 1))
  {
    hide Load;
  }

  // ----- STOREMA then LOADMA -----

  lemma BackUp(a: dword, n: nat, k: nat)
    requires k <= n
    ensures Above(Below(a, n), k) == Below(a, n - k)
  {
    ModSum(a - 4 * n, 4 * k, DWORD_MODULUS);
  }

  /** Registers s2..e2 of r2 are registers s..e of r1, the base excepted; all others agree. */
  predicate Moved(r1: registers, r2: registers, base: nibble, s: nibble, e: nibble, s2: nibble, e2: nibble)
    requires s <= e && e2 - s2 == e - s
  {
    forall j :: 0 <= j < 16 ==> r2[j] == if s2 <= j <= e2 && j != base then r1[s + (j - s2)] else r1[j]
  }

  /**
   * Storing registers s..e and loading s2..e2 of the same length through the same base register moves the
   * block: whatever the ranges and their overlap, register s2 + k gets what s + k held, and the base register is
   * restored even when it lies inside a range.
   */
  lemma StoreThenLoad(base: nibble, s: nibble, e: nibble, s2: nibble, e2: nibble, c: Cpu)
    requires s <= e && e2 - s2 == e - s && DoStoreMany(base, s, e, c).Next?
    ensures var c1 := DoStoreMany(base, s, e, c).s;
            && DoLoadMany(base, s2, e2, c1).Next?
            && var c2 := DoLoadMany(base, s2, e2, c1).s;
               && c2 == c.(regs := c2.regs, mem := c1.mem)
               && Moved(c.regs, c2.regs, base, s, e, s2, e2)
  {
    hide PushAll, PopAll, Load, Above, Moved;
    var blk := Block(c.regs, c.mem, c.regs[base]);
    StoredBlock(blk, s, e);
    var c1 := DoStoreMany(base, s, e, c).s;
    var start := Block(c1.regs, c1.mem, c1.regs[base]);
    PopAllSlots(start, s2, e2);
    BlockMoved(c.regs, start, PopAll(start, s2, e2).value, base, s, e, s2, e2);
  }

  lemma BlockMoved(regs: registers, start: Block, end: Block, base: nibble, s: nibble, e: nibble, s2: nibble, e2: nibble)
    requires s <= e && e2 - s2 == e - s
    requires start.regs == regs[base := start.addr] && end.addr == regs[base]
    requires forall k :: 1 <= k <= e - s + 1 ==> InMemory(start.mem, Above(start.addr, k), 4)
    requires forall k :: 1 <= k <= e - s + 1 ==> Load(Dword, start.mem, Above(start.addr, k)) == regs[e + 1 - k]
    requires forall j :: 0 <= j < 16 ==>
               end.regs[j] == if s2 <= j <= e2 then Load(Dword, start.mem, Above(start.addr, e2 + 1 - j)) else start.regs[j]
    ensures Moved(regs, end.regs[base := end.addr], base, s, e, s2, e2)
  {
    hide Load, Above;
  }

  /** Seen from the address where a push of s..e ends, the registers stand above it in reverse order. */
  lemma StoredBlock(blk: Block, s: nat, e: int)
    requires s <= e < 16 && PushAll(blk, s, e).Some?
    ensures var r := PushAll(blk, s, e).value;
            && r.regs == blk.regs && |r.mem| == |blk.mem| && Above(r.addr, e - s + 1) == blk.addr
            && (forall k :: 1 <= k <= e - s + 1 ==> InMemory(r.mem, Above(r.addr, k), 4))
            && (forall k :: 1 <= k <= e - s + 1 ==> Load(Dword, r.mem, Above(r.addr, k)) == blk.regs[e + 1 - k])
  {
    hide PushAll, Load, Below, Above, Unbytes;
    PushAllAddr(blk, s, e);
    var r, n := PushAll(blk, s, e).value, e - s + 1;
    NoSlots(blk.addr);
    BackUp(blk.addr, n, n);
    forall k | 1 <= k <= n
      ensures InMemory(r.mem, Above(r.addr, k), 4)
      ensures Load(Dword, r.mem, Above(r.addr, k)) == blk.regs[e + 1 - k]
    {
      BackUp(blk.addr, n, k);
      PushAllSlot(blk, s, e, n - k);
    }
  }

  /** A STOREMA writes nothing outside the n dwords that end with its base, addresses wrapping modulo 2^32. */
  lemma StoreFrame(base: nibble, s: nibble, e: nibble, c: Cpu, i: nat)
    requires s <= e && DoStoreMany(base, s, e, c).Next? && i < |c.mem|
    requires Wrap(i - Wrap(c.regs[base] - 4 * (e - s))) >= 4 * (e - s) + 4
    ensures |DoStoreMany(base, s, e, c).s.mem| == |c.mem|
    ensures DoStoreMany(base, s, e, c).s.mem[i] == c.mem[i]
  {
    hide PushAll, InSlot;
    assert Perform(StoreMany(base, s, e), c) == DoStoreMany(base, s, e, c);
    forall k: nat | k as int <= e - s
      ensures !InSlot(c.regs[base], k, i)
    {
      SlotInBlock(c.regs[base], e - s, k, i);
    }
    PerformFrame(StoreMany(base, s, e), c, i);
  }

  lemma SlotInBlock(a: dword, n: nat, k: nat, i: int)
    requires k <= n < 16
    ensures InSlot(a, k, i) ==> Wrap(i - Wrap(a - 4 * n)) < 4 * n + 4
  {
    var p, m := Wrap(a - 4 * n), 4 * (n - k);
    ModSum(a - 4 * n, m, DWORD_MODULUS);
    assert Wrap(a - 4 * k) == Wrap(p + m);
    hide Wrap;
    if InSlot(a, k, i) {
      OffsetInBlock(p, m, i);
    }
  }

  lemma OffsetInBlock(p: dword, m: nat, i: int)
    requires m <= 60 && Wrap(p + m) <= i < Wrap(p + m) + 4
    ensures Wrap(i - p) < m + 4
  {
    var d := i - Wrap(p + m);
    if p + m < DWORD_MODULUS {
      DivModUnique(p + m, DWORD_MODULUS, 0, p + m);
      DivModUnique(i - p, DWORD_MODULUS, 0, m + d);
    } else {
      DivModUnique(p + m, DWORD_MODULUS, 1, p + m - DWORD_MODULUS);
      DivModUnique(i - p, DWORD_MODULUS, -1, m + d);
    }
  }

  // ----- PUSH and POP as a stack -----

  datatype StackOp = DoPush(cond: nibble, reg: nibble) | DoPop(cond: nibble, reg: nibble)

  /** An abstract machine: registers and a stack of dwords, no memory and no stack pointer. */
  datatype Lifo = Lifo(regs: registers, items: seq<dword>)

  /** An operation whose condition fails does nothing. */
  function LifoStep(op: StackOp, l: Lifo): Option<Lifo> {
    if !Holds(op.cond, l.regs[REG_FLGS]) then Some(l)
    else
      match op
      case DoPush(_, r) => Some(l.(items := l.items + [l.regs[r]]))
      case DoPop(_, r) =>
        if l.items == [] then None
        else Some(Lifo(l.regs[r := l.items[|l.items| - 1]], l.items[..|l.items| - 1]))
  }

  /** Running a list; None when it pops an empty stack or grows it beyond the limit. */
  function LifoRun(ops: seq<StackOp>, l: Lifo, limit: nat): Option<Lifo>
    decreases |ops|
  {
    if ops == [] then Some(l)
    else
      match LifoStep(ops[0], l)
      case None => None
      case Some(l') => if |l'.items| > limit then None else LifoRun(ops[1..], l', limit)
  }

  function OpCode(op: StackOp): Source {
    match op
    case DoPush(c, r) => PushCode(c, r)
    case DoPop(c, r) => PopCode(c, r)
  }

  function OpCodes(ops: seq<StackOp>): (code: seq<Source>)
    ensures |code| == |ops| && AllSound(code)
  {
    seq(|ops|, i requires 0 <= i < |ops| => OpCode(ops[i]))
  }

  predicate AvoidsSp(ops: seq<StackOp>) {
    forall i :: 0 <= i < |ops| ==> ops[i].reg != REG_SP
  }

  /** SP and the memory above it, up to base, spell the abstract stack; the other registers agree. */
  predicate Spells(s: Cpu, l: Lifo, base: dword) {
    && 4 * |l.items| <= base && InMemory(s.mem, base, 4)
    && s.regs[REG_SP] == base - 4 * |l.items|
    && (forall r :: 0 <= r < 16 && r != REG_SP ==> s.regs[r] == l.regs[r])
    && (forall i :: 0 <= i < |l.items| ==> Load(Dword, s.mem, base - 4 * i) == l.items[i])
  }

  /** Memory outside the limit dwords below base is the same. */
  predicate SameOutside(m: memory, m': memory, base: dword, limit: nat) {
    && |m'| == |m|
    && forall i :: 0 <= i < |m| && (i < base + 4 - 4 * limit || i >= base + 4) ==> m'[i] == m[i]
  }

  lemma PushActual(c: nibble, r: nibble)
    ensures Actual(PushCode(c, r)) == StoreMany(REG_SP, r, r) && PushCode(c, r).cond == c
  {
  }

  lemma PopActual(c: nibble, r: nibble)
    ensures Actual(PopCode(c, r)) == LoadMany(REG_SP, r, r) && PopCode(c, r).cond == c
  {
  }

  lemma PushOneRegister(r: nibble, s: Cpu)
    requires InMemory(s.mem, s.regs[REG_SP], 4)
    ensures DoStoreMany(REG_SP, r, r, Fetched(s)) ==
            Next(Fetched(s).(regs := s.regs[REG_SP := Wrap(s.regs[REG_SP] as int - 4)],
                             mem := Store(Dword, s.mem, s.regs[REG_SP], s.regs[r])))
  {
    hide Store;
    var blk := Block(s.regs, s.mem, s.regs[REG_SP]);
    assert PushAll(blk, r, r) == PushAll(PushOne(blk, r), r + 1, r);
  }

  lemma PopOneRegister(r: nibble, s: Cpu)
    requires InMemory(s.mem, Wrap(s.regs[REG_SP] as int + 4), 4)
    ensures var addr := Wrap(s.regs[REG_SP] as int + 4);
            DoLoadMany(REG_SP, r, r, Fetched(s)) ==
            Next(Fetched(s).(regs := s.regs[r := Load(Dword, s.mem, addr)][REG_SP := addr]))
  {
    hide Load;
    var blk := Block(s.regs, s.mem, s.regs[REG_SP]);
    assert PopAll(blk, r, r) == PopAll(PopOne(blk, r), r, r - 1);
  }

  lemma PushEffect(c: nibble, r: nibble, s: Cpu)
    requires InMemory(s.mem, s.regs[REG_SP], 4) && Holds(c, s.regs[REG_FLGS])
    ensures SourceStep(PushCode(c, r), s) ==
            Next(Fetched(s).(regs := s.regs[REG_SP := Wrap(s.regs[REG_SP] as int - 4)],
                             mem := Store(Dword, s.mem, s.regs[REG_SP], s.regs[r])))
  {
    PushOneRegister(r, s);
    PushActual(c, r);
    hide Store, Actual, PushCode, DoStoreMany, Holds;
  }

  lemma PopEffect(c: nibble, r: nibble, s: Cpu)
    requires InMemory(s.mem, Wrap(s.regs[REG_SP] as int + 4), 4) && Holds(c, s.regs[REG_FLGS])
    ensures var addr := Wrap(s.regs[REG_SP] as int + 4);
            SourceStep(PopCode(c, r), s) ==
            Next(Fetched(s).(regs := s.regs[r := Load(Dword, s.mem, addr)][REG_SP := addr]))
  {
    PopOneRegister(r, s);
    PopActual(c, r);
    hide Load, Actual, PopCode, DoLoadMany, Holds;
  }

  lemma PushSpells(c: nibble, r: nibble, s: Cpu, l: Lifo, base: dword, limit: nat)
    requires r != REG_SP && Spells(s, l, base) && |l.items| < limit && 4 * limit <= base
    requires Holds(c, s.regs[REG_FLGS])
    ensures var o := SourceStep(PushCode(c, r), s);
            && o.Next? && Spells(o.s, LifoStep(DoPush(c, r), l).value, base)
            && o.s == Fetched(s).(regs := o.s.regs, mem := o.s.mem)
            && SameOutside(s.mem, o.s.mem, base, limit)
  {
    hide Load, Store, SourceStep, PushCode, SameOutside, Holds;
    var sp, n := s.regs[REG_SP], |l.items|;
    PushEffect(c, r, s);
    var m := Store(Dword, s.mem, sp, s.regs[r]);
    StoreOutside(s.mem, sp, s.regs[r], base, limit);
    SameLength(s.mem, m, base, limit);
    LoadStored(Dword, s.mem, sp, s.regs[r]);
    forall i | 0 <= i < n
      ensures Load(Dword, m, base - 4 * i) == l.items[i]
    {
      LoadOther(Dword, s.mem, sp, s.regs[r], Dword, base - 4 * i);
    }
  }

  lemma StoreOutside(m: memory, sp: dword, v: dword, base: dword, limit: nat)
    requires InMemory(m, sp, 4) && base + 4 - 4 * limit <= sp <= base
    ensures SameOutside(m, Store(Dword, m, sp, v), base, limit)
  {
    hide Bytes;
  }

  lemma SameLength(m: memory, m': memory, base: dword, limit: nat)
    requires SameOutside(m, m', base, limit)
    ensures |m'| == |m|
  {
  }

  lemma PopSpells(c: nibble, r: nibble, s: Cpu, l: Lifo, base: dword, limit: nat)
    requires r != REG_SP && Spells(s, l, base) && l.items != [] && Holds(c, s.regs[REG_FLGS])
    ensures var o := SourceStep(PopCode(c, r), s);
            && o.Next? && Spells(o.s, LifoStep(DoPop(c, r), l).value, base)
            && o.s == Fetched(s).(regs := o.s.regs, mem := o.s.mem)
            && SameOutside(s.mem, o.s.mem, base, limit)
  {
    hide Load, Holds, SourceStep, PopCode;
    PopEffect(c, r, s);
  }

  /**
   * Any run of conditional PUSH and POP on registers other than SP does what the abstract stack does: SP stays base minus
   * four times the depth, memory above it spells the stack, pops give back what was pushed last, and memory
   * outside the stack's area never changes.
   */
  lemma {:induction false} StackRefinesLifo(ops: seq<StackOp>, s: Cpu, l: Lifo, base: dword, limit: nat)
    requires AvoidsSp(ops) && Spells(s, l, base) && 4 * limit <= base && |l.items| <= limit
    requires LifoRun(ops, l, limit).Some?
    ensures var o := Straight(OpCodes(ops), s);
            && o.Next? && Spells(o.s, LifoRun(ops, l, limit).value, base)
            && o.s == Advanced(s, |ops|).(regs := o.s.regs, mem := o.s.mem)
            && SameOutside(s.mem, o.s.mem, base, limit)
    decreases |ops|
  {
    hide SourceStep, Spells, WellFormed, InRange, PushCode, PopCode;
    if ops == [] {
      assert OpCodes(ops) == [];
      AdvancedZero(s);
    } else {
      var l' := LifoStep(ops[0], l).value;
      OneSpells(ops[0], s, l, base, limit);
      var s' := SourceStep(OpCode(ops[0]), s).s;
      assert OpCodes(ops)[1..] == OpCodes(ops[1..]) && OpCodes(ops)[0] == OpCode(ops[0]);
      StackRefinesLifo(ops[1..], s', l', base, limit);
      AdvancedAfter(s, |ops| - 1);
      AdvancedFields(s', s, |ops| - 1);
    }
  }

  lemma OneSpells(op: StackOp, s: Cpu, l: Lifo, base: dword, limit: nat)
    requires op.reg != REG_SP && Spells(s, l, base) && 4 * limit <= base
    requires LifoStep(op, l).Some? && |LifoStep(op, l).value.items| <= limit
    ensures WellFormed(OpCode(op))
    ensures var o := SourceStep(OpCode(op), s);
            && o.Next? && Spells(o.s, LifoStep(op, l).value, base)
            && o.s == Fetched(s).(regs := o.s.regs, mem := o.s.mem)
            && SameOutside(s.mem, o.s.mem, base, limit)
  {
    SpellsFlags(s, l, base);
    if !Holds(op.cond, s.regs[REG_FLGS]) {
      SkippedSpells(op, s, l, base, limit);
    } else {
      hide SourceStep, Spells, SameOutside, Holds;
      match op
      case DoPush(c, r) => PushSpells(c, r, s, l, base, limit);
      case DoPop(c, r) => PopSpells(c, r, s, l, base, limit);
    }
  }

  lemma SpellsFlags(s: Cpu, l: Lifo, base: dword)
    requires Spells(s, l, base)
    ensures s.regs[REG_FLGS] == l.regs[REG_FLGS]
  {
  }

  lemma SkippedSpells(op: StackOp, s: Cpu, l: Lifo, base: dword, limit: nat)
    requires Spells(s, l, base) && !Holds(op.cond, s.regs[REG_FLGS])
    ensures WellFormed(OpCode(op))
    ensures var o := SourceStep(OpCode(op), s);
            && o == Next(Fetched(s)) && Spells(Fetched(s), l, base) && SameOutside(s.mem, s.mem, base, limit)
  {
    hide Load, Holds;
  }

  lemma AdvancedFields(s1: Cpu, s: Cpu, n: nat)
    requires s1.pos == Fetched(s).pos && s1.count == Fetched(s).count
    ensures Advanced(s1, n).pos == Advanced(Fetched(s), n).pos && Advanced(s1, n).count == Advanced(Fetched(s), n).count
  {
  }
}
