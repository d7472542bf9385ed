/** What loads, stores, moves and exchanges do when their bytes are executed, register file and memory byte by byte. */
module Accesses {
  import opened Words
  import opened Isa
  import opened Storage
  import opened Encoding
  import opened Machine
  import opened Syntax
  import opened Simulation
  import opened Stack
  import opened Laws

  // ----- the register file as bytes -----

  /** The bytes of the register file determine the registers. */
  lemma FlatDetermines(r: registers, q: registers)
    requires Flat(r) == Flat(q)
    ensures r == q
  {
    hide Flat, Unbytes;
    forall j | 0 <= j < 16
      ensures r[j] == q[j]
    {
      GetDwordIsRead(r, j);
      GetDwordIsRead(q, j);
    }
  }

  /** The bytes of one register. */
  function View(size: Size, regs: registers, r: nat): (bs: seq<byte>)
    requires r < Views(size)
    ensures |bs| == Width(size)
  {
    ViewInFile(size, r);
    Flat(regs)[r * Width(size)..r * Width(size) + Width(size)]
  }

  /** The registers with the bytes of one register replaced, all other bytes as before. */
  predicate Replaces(size: Size, regs: registers, r: nat, bs: seq<byte>, after: registers)
    requires r < Views(size) && |bs| == Width(size)
  {
    ViewInFile(size, r);
    Flat(after) == Write(Flat(regs), r * Width(size), bs)
  }

  lemma PutReplaces(size: Size, regs: registers, r: nat, v: dword)
    requires r < Views(size) && Fits(size, v)
    ensures Replaces(size, regs, r, Bytes(size, v), PutReg(size, regs, r, v))
  {
    PutRegIsWrite(size, regs, r, v);
  }

  /** After a replacement the register reads the new bytes. */
  lemma ReplacedView(size: Size, regs: registers, r: nat, bs: seq<byte>, after: registers)
    requires r < Views(size) && |bs| == Width(size) && Replaces(size, regs, r, bs, after)
    ensures View(size, after, r) == bs && GetReg(size, after, r) == Unbytes(size, bs)
  {
    ViewInFile(size, r);
    GetRegIsRead(size, after, r);
    hide Flat, Width;
    var a, w := r * Width(size), Width(size);
    assert Write(Flat(regs), a, bs)[a..a + w] == bs;
  }

  lemma ViewIsBytes(size: Size, regs: registers, r: nat)
    requires r < Views(size)
    ensures View(size, regs, r) == Bytes(size, GetReg(size, regs, r))
  {
    GetRegIsRead(size, regs, r);
    BytesUnbytes(size, View(size, regs, r));
    hide Flat, GetReg, Unbytes, Bytes;
  }

  // ----- LOADI -----

  /** LOADI: the low byte, or both bytes, of the immediate. */
  lemma LoadImmLaw(src: Source, s: Cpu)
    requires Executes(src, s) && src.LoadI?
    ensures s.pos + 4 < 0x1_0000_0000 && Step(s).Next?
    ensures src.size != Dword && Step(s).s == Past(s).(regs := Step(s).s.regs)
    ensures Replaces(src.size, s.regs, src.sub, if src.size == Byte then [src.v % 0x100] else [src.v % 0x100, src.v / 0x100],
                     Step(s).s.regs)
  {
    hide Executes, Step, PutReg, Replaces, Bytes;
    StepPerforms(src, s);
    if src.size == Byte {
      PutReplaces(Byte, s.regs, src.sub, src.v % 0x100);
    } else {
      PutReplaces(Word, s.regs, src.sub, src.v);
    }
    ImmediateBytes(src.v);
  }

  lemma ImmediateBytes(v: word)
    ensures Bytes(Byte, v % 0x100) == [v % 0x100] && Bytes(Word, v) == [v % 0x100, v / 0x100]
  {
  }

  // ----- loads and stores -----

  /** The address of a load or store: a register plus a 12-bit number, or plus a signed register. */
  function Effective(src: Source, regs: registers): int
    requires src.LoadId? || src.LoadRd? || src.StoreId? || src.StoreRd?
  {
    if src.LoadId? || src.StoreId? then regs[src.base] + src.v
    else regs[src.base] as int + (if regs[src.off] < 0x8000_0000 then 0 else -0x1_0000_0000) + regs[src.off]
  }

  /**
   * LOADID and LOADRD of every size: the bytes of the named register become the bytes of memory at the address.
   * Outside 32 bits the instruction does nothing, outside memory it faults.
   */
  lemma LoadLaw(src: Source, s: Cpu)
    requires Executes(src, s) && (src.LoadId? || src.LoadRd?) && !Misencoded(src)
    ensures s.pos + 4 < 0x1_0000_0000
    ensures var a, w := Effective(src, s.regs), Width(src.size);
            if a < 0 || a > 0xFFFF_FFFF then Step(s) == Next(Past(s))
            else if a + w > |s.mem| then Step(s) == Fault
            else
              && Step(s).Next? && Step(s).s == Past(s).(regs := Step(s).s.regs)
              && Replaces(src.size, s.regs, src.sub, s.mem[a..a + w], Step(s).s.regs)
  {
    hide Executes, Step, Perform, Replaces, Effective, Misencoded, Actual;
    StepPerforms(src, s);
    LoadActs(src, Past(s));
  }

  lemma LoadActs(src: Source, s: Cpu)
    requires WellFormed(src) && (src.LoadId? || src.LoadRd?) && !Misencoded(src)
    ensures var a, w := Effective(src, s.regs), Width(src.size);
            var o := Perform(Actual(src), s);
            if a < 0 || a > 0xFFFF_FFFF then o == Next(s)
            else if a + w > |s.mem| then o == Fault
            else
              && o.Next? && o.s == s.(regs := o.s.regs)
              && Replaces(src.size, s.regs, src.sub, s.mem[a..a + w], o.s.regs)
  {
    hide Replaces, PutReg, Bytes;
    var a, w := Effective(src, s.regs), Width(src.size);
    if 0 <= a <= 0xFFFF_FFFF && a + w <= |s.mem| {
      var v := Load(src.size, s.mem, a);
      PutReplaces(src.size, s.regs, src.sub, v);
      BytesUnbytes(src.size, s.mem[a..a + w]);
    }
  }

  /** STOREID and STORERD of every size: memory at the address becomes the bytes of the named register. */
  lemma StoreLaw(src: Source, s: Cpu)
    requires Executes(src, s) && (src.StoreId? || src.StoreRd?)
    ensures s.pos + 4 < 0x1_0000_0000
    ensures var a, w := Effective(src, s.regs), Width(src.size);
            if a < 0 || a > 0xFFFF_FFFF then Step(s) == Next(Past(s))
            else if a + w > |s.mem| then Step(s) == Fault
            else Step(s) == Next(Past(s).(mem := Write(s.mem, a, View(src.size, s.regs, src.sub))))
  {
    hide Executes, Step, Perform, Effective, Actual, View;
    StepPerforms(src, s);
    StoreActs(src, Past(s));
  }

  lemma StoreActs(src: Source, s: Cpu)
    requires WellFormed(src) && (src.StoreId? || src.StoreRd?)
    ensures var a, w := Effective(src, s.regs), Width(src.size);
            var o := Perform(Actual(src), s);
            if a < 0 || a > 0xFFFF_FFFF then o == Next(s)
            else if a + w > |s.mem| then o == Fault
            else o == Next(s.(mem := Write(s.mem, a, View(src.size, s.regs, src.sub))))
  {
    hide View, Bytes, GetReg;
    ViewIsBytes(src.size, s.regs, src.sub);
  }

  /** Storing one register and loading another from the same place copies the one to the other. */
  lemma StoreThenLoadOther(size: Size, c: nibble, d: nibble, base: nibble, x: nibble, y: nibble, v: word, s: Cpu)
    requires Executes(StoreId(size, c, base, x, v), s) && Step(s).Next? && Executes(LoadId(size, d, y, base, v), Step(s).s)
    requires s.regs[base] + v + Width(size) <= |s.mem|
    ensures Step(Step(s).s).Next? && GetReg(size, Step(Step(s).s).s.regs, y) == GetReg(size, s.regs, x)
  {
    var a := s.regs[base] as int + v;
    hide Executes, Step, Replaces, View, GetReg, Unbytes, Width, Past, Write;
    Stores(size, c, base, x, v, s);
    var t := Step(s).s;
    PastKeeps(s);
    Loads(size, d, base, y, v, t);
    WrittenSlice(s.mem, a, View(size, s.regs, x));
    ReplacedView(size, t.regs, y, t.mem[a..a + Width(size)], Step(t).s.regs);
    ViewUnbytes(size, s.regs, x);
  }

  lemma Stores(size: Size, c: nibble, base: nibble, x: nibble, v: word, s: Cpu)
    requires Executes(StoreId(size, c, base, x, v), s) && s.regs[base] + v + Width(size) <= |s.mem|
    ensures s.pos + 4 < 0x1_0000_0000
    ensures Step(s) == Next(Past(s).(mem := Write(s.mem, s.regs[base] as int + v, View(size, s.regs, x))))
  {
    hide Executes, Step, View, Past;
    StoreLaw(StoreId(size, c, base, x, v), s);
  }

  lemma Loads(size: Size, c: nibble, base: nibble, y: nibble, v: word, s: Cpu)
    requires Executes(LoadId(size, c, y, base, v), s) && s.regs[base] + v + Width(size) <= |s.mem|
    ensures var a := s.regs[base] as int + v;
            Step(s).Next? && Replaces(size, s.regs, y, s.mem[a..a + Width(size)], Step(s).s.regs)
  {
    hide Executes, Step, Replaces, Past;
    LoadLaw(LoadId(size, c, y, base, v), s);
  }

  lemma PastKeeps(s: Cpu)
    requires s.pos + 4 < 0x1_0000_0000
    ensures Past(s).regs == s.regs && Past(s).mem == s.mem && Past(s).cregs == s.cregs
  {
  }

  lemma WrittenSlice(m: seq<byte>, a: nat, bs: seq<byte>)
    requires a + |bs| <= |m|
    ensures Write(m, a, bs)[a..a + |bs|] == bs
  {
  }

  lemma ViewUnbytes(size: Size, regs: registers, r: nat)
    requires r < Views(size)
    ensures Unbytes(size, View(size, regs, r)) == GetReg(size, regs, r)
  {
    GetRegIsRead(size, regs, r);
    hide Flat, GetReg, Unbytes;
  }

  // ----- moves and exchanges -----

  /** MOV of every size: the bytes of the second register go to the first. */
  lemma MoveLaw(src: Source, s: Cpu)
    requires Executes(src, s) && src.Mov?
    ensures s.pos + 4 < 0x1_0000_0000 && Step(s).Next? && Step(s).s == Past(s).(regs := Step(s).s.regs)
    ensures Replaces(src.size, s.regs, src.a, View(src.size, s.regs, src.r), Step(s).s.regs)
  {
    hide Executes, Step, Replaces, View, GetReg, PutReg, Bytes;
    StepPerforms(src, s);
    ViewIsBytes(src.size, s.regs, src.r);
    PutReplaces(src.size, s.regs, src.a, GetReg(src.size, s.regs, src.r));
  }

  /** A MOV word with the immediate prefix, which no mnemonic has, loads its 12-bit immediate. */
  lemma MoveImmediateLaw(s: Cpu)
    requires InMemory(s.mem, s.pos, 4)
    requires var i := Decode(s.mem[s.pos..s.pos + 4]);
             i.opcode == OP_MOV && i.prefix == PREFIX_IMM && Holds(i.condition, s.regs[REG_FLGS])
    ensures var i := Decode(s.mem[s.pos..s.pos + 4]);
            s.pos + 4 < 0x1_0000_0000 && Step(s) == Next(Past(s).(regs := s.regs[i.opa := i.imm12]))
  {
    hide Decode, Holds;
  }

  /** XCHG swaps two registers, XCHGC a register and a control register. */
  lemma ExchangeLaw(src: Source, s: Cpu)
    requires Executes(src, s) && ((src.Pair? && src.op == OP_XCHG) || (src.XchgC? && !Misencoded(src)))
    ensures s.pos + 4 < 0x1_0000_0000 && Step(s).Next?
    ensures var t := Step(s).s;
            if src.Pair? then
              && t == Past(s).(regs := t.regs) && t.regs[src.a] == s.regs[src.r] && t.regs[src.r] == s.regs[src.a]
              && forall j :: 0 <= j < 16 && j != src.a && j != src.r ==> t.regs[j] == s.regs[j]
            else
              && t == Past(s).(regs := s.regs[src.a := t.regs[src.a]], cregs := s.cregs[src.c := t.cregs[src.c]])
              && t.regs[src.a] == s.cregs[src.c] && t.cregs[src.c] == s.regs[src.a]
  {
    hide Executes, Step, Perform, Actual, Misencoded;
    StepPerforms(src, s);
    ExchangeActs(src, Past(s));
  }

  lemma ExchangeActs(src: Source, s: Cpu)
    requires WellFormed(src) && ((src.Pair? && src.op == OP_XCHG) || (src.XchgC? && !Misencoded(src)))
    ensures Perform(Actual(src), s) ==
            Next(if src.Pair? then s.(regs := s.regs[src.a := s.regs[src.r]][src.r := s.regs[src.a]])
                 else s.(regs := s.regs[src.a := s.cregs[src.c]], cregs := s.cregs[src.c := s.regs[src.a]]))
  {
  }

  /** MOVFC copies a control register to a register, MOVTC a register to a control register. */
  lemma ControlLaw(src: Source, s: Cpu)
    requires Executes(src, s) && (src.MoveFromControl? || src.MoveToControl?)
    ensures s.pos + 4 < 0x1_0000_0000
    ensures src.MoveFromControl? ==> Step(s) == Next(Past(s).(regs := s.regs[src.a := s.cregs[src.c]]))
    ensures src.MoveToControl? ==> Step(s) == Next(Past(s).(cregs := s.cregs[src.c := s.regs[src.a]]))
  {
    hide Executes, Step;
    StepPerforms(src, s);
  }

  /**
   * CMPXCHG: when the dword at the first register equals the second register, it becomes the third register and
   * Z is set; otherwise the second register becomes the dword, and then Z is cleared.
   */
  lemma CompareExchangeLaw(src: Source, s: Cpu)
    requires Executes(src, s) && src.CmpXchg?
    ensures s.pos + 4 < 0x1_0000_0000
    ensures var at := s.regs[src.dst];
            if at + 4 > |s.mem| then Step(s) == Fault
            else
              var found := Load(Dword, s.mem, at);
              var regs := if found == s.regs[src.a] then s.regs else s.regs[src.a := found];
              && Step(s).Next?
              && Step(s).s == Past(s).(mem := if found == s.regs[src.a] then Write(s.mem, at, View(Dword, s.regs, src.r)) else s.mem,
                                       regs := regs[REG_FLGS := Step(s).s.regs[REG_FLGS]])
              && (Bit(Step(s).s.regs[REG_FLGS], 0) <==> found == s.regs[src.a])
              && SameBut(regs[REG_FLGS], Step(s).s.regs[REG_FLGS], {0})
  {
    hide Executes, Step, Load, Bytes, Bit, SameBut, Put, View;
    StepPerforms(src, s);
    ViewIsBytes(Dword, s.regs, src.r);
    var at := s.regs[src.dst];
    if at + 4 <= |s.mem| {
      var found := Load(Dword, s.mem, at);
      OneFlag(s.regs, Z, true);
      OneFlag(s.regs[src.a := found], Z, false);
    }
  }

  // ----- multi-register transfers -----

  /** The n dwords from a downward are in memory. */
  predicate AllBelow(a: dword, n: int, size: nat) {
    forall k: nat :: k < n ==> Below(a, k) + 4 <= size
  }

  /** The n dwords above a are in memory. */
  predicate AllAbove(a: dword, n: int, size: nat) {
    forall k: nat :: 1 <= k <= n ==> Above(a, k) + 4 <= size
  }

  lemma FirstBelow(a: dword, n: int, size: nat)
    requires n > 0
    ensures AllBelow(a, n, size) <==> a + 4 <= size && AllBelow(Wrap(a - 4), n - 1, size)
  {
    NoSlots(a);
    var b := Wrap(a - 4);
    forall k: nat
      ensures Below(b, k) == Below(a, k + 1)
    {
      BelowShift(a, k);
    }
    hide Below;
    if AllBelow(b, n - 1, size) && a + 4 <= size {
      forall k: nat | k < n
        ensures Below(a, k) + 4 <= size
      {
        if k > 0 {
          assert Below(b, k - 1) == Below(a, k - 1 + 1);
        }
      }
    }
  }

  lemma FirstAbove(a: dword, n: int, size: nat)
    requires n > 0
    ensures AllAbove(a, n, size) <==> Above(a, 1) + 4 <= size && AllAbove(Above(a, 1), n - 1, size)
  {
    forall k: nat
      ensures Above(Above(a, 1), k) == Above(a, k + 1)
    {
      AboveShift(a, k);
    }
    hide Above;
    if AllAbove(Above(a, 1), n - 1, size) && Above(a, 1) + 4 <= size {
      forall k: nat | 1 <= k <= n
        ensures Above(a, k) + 4 <= size
      {
        if k > 1 {
          assert Above(Above(a, 1), k - 1) == Above(a, k - 1 + 1);
        }
      }
    }
  }

  lemma {:induction false} PushesInMemory(blk: Block, lo: nat, hi: int)
    requires lo <= 16 && hi < 16
    ensures PushAll(blk, lo, hi).Some? <==> AllBelow(blk.addr, hi - lo + 1, |blk.mem|)
    decreases hi - lo
  {
    hide Store, AllBelow;
    if lo > hi {
      NoneBelow(blk.addr, hi - lo + 1, |blk.mem|);
    } else {
      FirstBelow(blk.addr, hi - lo + 1, |blk.mem|);
      if InMemory(blk.mem, blk.addr, 4) {
        StoredLength(Dword, blk.mem, blk.addr, blk.regs[lo]);
        PushesInMemory(PushOne(blk, lo), lo + 1, hi);
      }
    }
  }

  lemma NoneBelow(a: dword, n: int, size: nat)
    requires n <= 0
    ensures AllBelow(a, n, size) && AllAbove(a, n, size)
  {
  }

  lemma {:induction false} PopsInMemory(blk: Block, lo: nat, hi: int)
    requires -1 <= hi < 16
    ensures PopAll(blk, lo, hi).Some? <==> AllAbove(blk.addr, hi - lo + 1, |blk.mem|)
    decreases hi
  {
    hide Load, AllAbove;
    if lo > hi {
      NoneBelow(blk.addr, hi - lo + 1, |blk.mem|);
    } else {
      FirstAbove(blk.addr, hi - lo + 1, |blk.mem|);
      if InMemory(blk.mem, Wrap(blk.addr + 4), 4) {
        PopsInMemory(PopOne(blk, hi), lo, hi - 1);
      }
    }
  }

  /** Registers lo to hi stand in the dwords from a downward. */
  predicate Stored(regs: registers, lo: nat, hi: nat, a: dword, m: memory) {
    forall k: nat :: lo + k <= hi && lo + k < 16 ==>
      Below(a, k) + 4 <= |m| && Load(Dword, m, Below(a, k)) == regs[lo + k]
  }

  /** No byte outside the n dwords from a downward is different. */
  predicate SameOutsideSlots(m: memory, m': memory, a: dword, n: int) {
    && |m'| == |m|
    && forall i :: 0 <= i < |m| && Untouched(a, n, i) ==> m'[i] == m[i]
  }

  predicate Untouched(a: dword, n: int, i: nat) {
    forall k: nat :: k < n ==> !(Below(a, k) <= i < Below(a, k) + 4)
  }

  /**
   * STOREMA lo:hi stores register lo + k in the k-th dword below the base, for every k, and moves the base below
   * the last one; no other byte changes. It faults when one of the dwords is not in memory.
   */
  lemma StoreManyLaw(src: Source, s: Cpu)
    requires Executes(src, s) && src.Many? && src.op == OP_STOREMA
    ensures s.pos + 4 < 0x1_0000_0000
    ensures var lo, hi, a := src.range / 0x10 % 0x10, src.range % 0x10, s.regs[src.base];
            if lo > hi then Step(s) == Next(Past(s))
            else if !AllBelow(a, hi - lo + 1, |s.mem|) then Step(s) == Fault
            else
              && Step(s).Next?
              && Step(s).s == Past(s).(regs := s.regs[src.base := Below(a, hi - lo + 1)], mem := Step(s).s.mem)
              && Stored(s.regs, lo, hi, a, Step(s).s.mem) && SameOutsideSlots(s.mem, Step(s).s.mem, a, hi - lo + 1)
  {
    hide Executes, Step, DoStoreMany, Below, Stored, SameOutsideSlots, AllBelow, Perform, Actual;
    StepPerforms(src, s);
    ManyActs(src, Past(s));
    StoreManyActs(src.base, src.range / 0x10 % 0x10, src.range % 0x10, Past(s));
  }

  lemma ManyActs(src: Source, s: Cpu)
    requires WellFormed(src) && src.Many?
    ensures var lo, hi := src.range / 0x10 % 0x10, src.range % 0x10;
            Perform(Actual(src), s) ==
            if src.op == OP_STOREMA then DoStoreMany(src.base, lo, hi, s) else DoLoadMany(src.base, lo, hi, s)
  {
    RangeDigits(src.range);
    hide DoStoreMany, DoLoadMany;
  }

  lemma RangeDigits(range: word)
    ensures range % 0x100 % 0x10 == range % 0x10 && range % 0x100 / 0x10 == range / 0x10 % 0x10
  {
  }

  lemma StoreManyActs(base: nibble, lo: nibble, hi: nibble, s: Cpu)
    ensures var o, a := DoStoreMany(base, lo, hi, s), s.regs[base];
            if lo > hi then o == Next(s)
            else if !AllBelow(a, hi - lo + 1, |s.mem|) then o == Fault
            else
              && o.Next? && o.s == s.(regs := s.regs[base := Below(a, hi - lo + 1)], mem := o.s.mem)
              && Stored(s.regs, lo, hi, a, o.s.mem) && SameOutsideSlots(s.mem, o.s.mem, a, hi - lo + 1)
  {
    var blk := Block(s.regs, s.mem, s.regs[base]);
    PushesInMemory(blk, lo, hi);
    hide AllBelow;
    if lo <= hi && PushAll(blk, lo, hi).Some? {
      PushAllAddr(blk, lo, hi);
      hide PushAll, Load, Below;
      var m := PushAll(blk, lo, hi).value.mem;
      forall k: nat | lo + k <= hi
        ensures Below(blk.addr, k) + 4 <= |m| && Load(Dword, m, Below(blk.addr, k)) == s.regs[lo + k]
      {
        PushAllSlot(blk, lo, hi, k);
      }
      forall i | 0 <= i < |s.mem| && Untouched(blk.addr, hi - lo + 1, i)
        ensures m[i] == s.mem[i]
      {
        UntouchedSlots(blk.addr, hi - lo + 1, i);
        PushAllFrame(blk, lo, hi, i);
      }
    }
  }

  lemma UntouchedSlots(a: dword, n: int, i: nat)
    requires Untouched(a, n, i)
    ensures forall k: nat :: k < n ==> !InSlot(a, k, i)
  {
    forall k: nat | k < n
      ensures !InSlot(a, k, i)
    {
      assert !(Below(a, k) <= i < Below(a, k) + 4);
    }
  }

  /** Registers lo to hi of after, the base excepted, are the dwords above a, the last register first. */
  predicate Filled(regs: registers, base: nibble, lo: nibble, hi: nibble, a: dword, m: memory, after: registers)
    requires AllAbove(a, hi - lo + 1, |m|)
  {
    forall j :: 0 <= j < 16 ==>
      after[j] == if j == base then Above(a, if lo <= hi then hi - lo + 1 else 0)
                  else if lo <= j <= hi then Load(Dword, m, Above(a, hi - j + 1))
                  else regs[j]
  }

  /**
   * LOADMA lo:hi fills the registers of the range, but for the base, from the dwords above the base address, the
   * last register first, and moves the base to the last dword. It faults when one of them is not in memory.
   */
  lemma LoadManyLaw(src: Source, s: Cpu)
    requires Executes(src, s) && src.Many? && src.op == OP_LOADMA
    ensures s.pos + 4 < 0x1_0000_0000
    ensures var lo, hi, a := src.range / 0x10 % 0x10, src.range % 0x10, s.regs[src.base];
            if !AllAbove(a, hi - lo + 1, |s.mem|) then Step(s) == Fault
            else
              && Step(s).Next? && Step(s).s == Past(s).(regs := Step(s).s.regs)
              && Filled(s.regs, src.base, lo, hi, a, s.mem, Step(s).s.regs)
  {
    hide Executes, Step, DoLoadMany, Above, AllAbove, Filled, Perform, Actual;
    StepPerforms(src, s);
    ManyActs(src, Past(s));
    LoadManyActs(src.base, src.range / 0x10 % 0x10, src.range % 0x10, Past(s));
  }

  lemma LoadManyActs(base: nibble, lo: nibble, hi: nibble, s: Cpu)
    ensures var o, a := DoLoadMany(base, lo, hi, s), s.regs[base];
            if !AllAbove(a, hi - lo + 1, |s.mem|) then o == Fault
            else o.Next? && o.s == s.(regs := o.s.regs) && Filled(s.regs, base, lo, hi, a, s.mem, o.s.regs)
  {
    var blk := Block(s.regs, s.mem, s.regs[base]);
    PopsInMemory(blk, lo, hi);
    NoSlots(blk.addr);
    hide Load, Above;
    if PopAll(blk, lo, hi).Some? && lo <= hi {
      PopAllSlots(blk, lo, hi);
      hide PopAll, AllAbove;
    }
  }
}
