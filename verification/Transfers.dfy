/** Partial stores and compare-exchange. */
module Transfers {
  import opened Words
  import opened Isa
  import opened Storage
  import opened Machine
  import opened Syntax
  import opened Simulation
  import opened Macros
  import opened Arithmetic

  // ----- a register stored in parts -----

  lemma PartsOfRegister(regs: registers, r: nat)
    requires r < 16
    ensures forall i :: 0 <= i < 4 ==> GetReg(Byte, regs, 4 * r + i) == ByteOf(regs[r], i)
    ensures Bytes(Word, GetReg(Word, regs, 2 * r)) == [ByteOf(regs[r], 0), ByteOf(regs[r], 1)]
    ensures Bytes(Word, GetReg(Word, regs, 2 * r + 1)) == [ByteOf(regs[r], 2), ByteOf(regs[r], 3)]
  {
    forall i | 0 <= i < 4
      ensures GetReg(Byte, regs, 4 * r + i) == ByteOf(regs[r], i)
    {
      assert (4 * r + i) / 4 == r && (4 * r + i) % 4 == i;
    }
    var x := regs[r];
    assert (2 * r) / 2 == r && (2 * r) % 2 == 0 && (2 * r + 1) / 2 == r && (2 * r + 1) % 2 == 1;
    WordHalves(x);
    BytesUnbytes(Word, [ByteOf(x, 0), ByteOf(x, 1)]);
    BytesUnbytes(Word, [ByteOf(x, 2), ByteOf(x, 3)]);
  }

  lemma WriteParts(m: memory, a: nat, b: seq<byte>, c: seq<byte>)
    requires a + |b| + |c| <= |m|
    ensures Write(Write(m, a, b), a + |b|, c) == Write(m, a, b + c)
  {
  }

  lemma StoreIsWrite(m: memory, addr: dword, v: dword)
    requires InMemory(m, addr, 4)
    ensures v < 0x100 ==> Store(Byte, m, addr, v) == Write(m, addr, [v])
    ensures Store(Dword, m, addr, v) == Write(m, addr, [ByteOf(v, 0), ByteOf(v, 1), ByteOf(v, 2), ByteOf(v, 3)])
  {
  }

  lemma ByteIsWrite(m: memory, addr: dword, v: byte)
    requires InMemory(m, addr, 1)
    ensures Store(Byte, m, addr, v) == Write(m, addr, [v])
  {
  }

  /** The four bytes of a register, stored one after the other. */
  lemma BytesStored(m: memory, regs: registers, r: nat, addr: dword)
    requires r < 4 && InMemory(m, addr, 4)
    ensures var m1 := Store(Byte, m, addr, GetReg(Byte, regs, 4 * r));
            |m1| == |m| && var m2 := Store(Byte, m1, addr + 1, GetReg(Byte, regs, 4 * r + 1));
            |m2| == |m| && var m3 := Store(Byte, m2, addr + 2, GetReg(Byte, regs, 4 * r + 2));
            |m3| == |m| && Store(Byte, m3, addr + 3, GetReg(Byte, regs, 4 * r + 3)) == Store(Dword, m, addr, regs[r])
  {
    hide GetReg, ByteOf, Store;
    var x := regs[r];
    PartsOfRegister(regs, r);
    assert GetReg(Byte, regs, 4 * r + 0) == ByteOf(x, 0);
    var m1 := Write(m, addr, [ByteOf(x, 0)]);
    var m2 := Write(m1, addr + 1, [ByteOf(x, 1)]);
    var m3 := Write(m2, addr + 2, [ByteOf(x, 2)]);
    ByteIsWrite(m, addr, ByteOf(x, 0));
    ByteIsWrite(m1, addr + 1, ByteOf(x, 1));
    ByteIsWrite(m2, addr + 2, ByteOf(x, 2));
    ByteIsWrite(m3, addr + 3, ByteOf(x, 3));
    WriteParts(m, addr, [ByteOf(x, 0)], [ByteOf(x, 1)]);
    WriteParts(m, addr, [ByteOf(x, 0), ByteOf(x, 1)], [ByteOf(x, 2)]);
    WriteParts(m, addr, [ByteOf(x, 0), ByteOf(x, 1), ByteOf(x, 2)], [ByteOf(x, 3)]);
    StoreIsWrite(m, addr, x);
  }

  /** The two words of a register, stored one after the other. */
  lemma WordsStored(m: memory, regs: registers, r: nat, addr: dword)
    requires r < 8 && InMemory(m, addr, 4)
    ensures var m1 := Store(Word, m, addr, GetReg(Word, regs, 2 * r));
            |m1| == |m| && Store(Word, m1, addr + 2, GetReg(Word, regs, 2 * r + 1)) == Store(Dword, m, addr, regs[r])
  {
    hide GetReg, ByteOf;
    PartsOfRegister(regs, r);
    var x := regs[r];
    WriteParts(m, addr, [ByteOf(x, 0), ByteOf(x, 1)], [ByteOf(x, 2), ByteOf(x, 3)]);
  }

  /** The address that a STORERD of this base and offset register computes. */
  predicate Aims(base: nibble, off: nibble, regs: registers, addr: dword) {
    Address(base, Reg(off), regs) == addr
  }

  lemma StoreRdStep(size: Size, c: nibble, base: nibble, sub: nibble, off: nibble, addr: dword, s: Cpu)
    requires Aims(base, off, s.regs, addr) && InMemory(s.mem, addr, Width(size))
    ensures SourceStep(StoreRd(size, c, base, sub, off), s) ==
            Next(Fetched(s).(mem := if Holds(c, s.regs[REG_FLGS]) then Store(size, s.mem, addr, GetReg(size, s.regs, sub))
                                    else s.mem))
  {
    hide Store, GetReg, Holds;
  }

  /**
   * Four STORERD of the bytes of R0..R3 to consecutive addresses store what one STORERD of the register stores,
   * under any condition.
   */
  lemma FourByteStores(c: nibble, base: nibble, r: nibble, o: seq<nibble>, addr: dword, s: Cpu)
    requires r < 4 && |o| == 4 && InMemory(s.mem, addr, 4)
    requires forall i :: 0 <= i < 4 ==> Aims(base, o[i], s.regs, addr + i)
    ensures var whole := SourceStep(StoreRd(Dword, c, base, r, o[0]), s);
            var s1 := SourceStep(StoreRd(Byte, c, base, 4 * r, o[0]), s);
            s1.Next? && var s2 := SourceStep(StoreRd(Byte, c, base, 4 * r + 1, o[1]), s1.s);
            s2.Next? && var s3 := SourceStep(StoreRd(Byte, c, base, 4 * r + 2, o[2]), s2.s);
            s3.Next? && whole.Next? && SourceStep(StoreRd(Byte, c, base, 4 * r + 3, o[3]), s3.s) ==
                                       Next(Advanced(s, 4).(mem := whole.s.mem))
  {
    hide Store, GetReg, Holds, SourceStep, Aims, Width, Fetched, Advanced;
    assert Width(Byte) == 1 && Width(Dword) == 4 by { Widths(); }
    assert Aims(base, o[0], s.regs, addr + 0);
    BytesStored(s.mem, s.regs, r, addr);
    DwordReg(s.regs, r);
    var m1 := Store(Byte, s.mem, addr, GetReg(Byte, s.regs, 4 * r));
    var m2 := Store(Byte, m1, addr + 1, GetReg(Byte, s.regs, 4 * r + 1));
    var m3 := Store(Byte, m2, addr + 2, GetReg(Byte, s.regs, 4 * r + 2));
    StoreRdStep(Dword, c, base, r, o[0], addr, s);
    StoreRdStep(Byte, c, base, 4 * r, o[0], addr, s);
    FetchedKept(s);
    var s1 := SourceStep(StoreRd(Byte, c, base, 4 * r, o[0]), s).s;
    StoreRdStep(Byte, c, base, 4 * r + 1, o[1], addr + 1, s1);
    FetchedKept(s1);
    var s2 := SourceStep(StoreRd(Byte, c, base, 4 * r + 1, o[1]), s1).s;
    StoreRdStep(Byte, c, base, 4 * r + 2, o[2], addr + 2, s2);
    FetchedKept(s2);
    var s3 := SourceStep(StoreRd(Byte, c, base, 4 * r + 2, o[2]), s2).s;
    StoreRdStep(Byte, c, base, 4 * r + 3, o[3], addr + 3, s3);
    FourFetched(s, s1, s2, s3);
  }

  lemma Widths()
    ensures Width(Byte) == 1 && Width(Word) == 2 && Width(Dword) == 4
  {
  }

  lemma DwordReg(regs: registers, r: nibble)
    ensures GetReg(Dword, regs, r) == regs[r]
  {
  }

  lemma FetchedKept(s: Cpu)
    ensures Fetched(s).regs == s.regs && Fetched(s).mem == s.mem && Fetched(s).cregs == s.cregs
  {
  }

  lemma FourFetched(s: Cpu, s1: Cpu, s2: Cpu, s3: Cpu)
    requires s1 == Fetched(s).(mem := s1.mem) && s2 == Fetched(s1).(mem := s2.mem) && s3 == Fetched(s2).(mem := s3.mem)
    ensures Fetched(s1) == Advanced(s, 2).(mem := s1.mem) && Fetched(s3) == Advanced(s, 4).(mem := s3.mem)
  {
    FetchedTwice(s);
    FetchedNext(s, 2);
    FetchedNext(s, 3);
  }

  /** Two STORERD of the words of R0..R7 store what one STORERD of the register stores, under any condition. */
  lemma TwoWordStores(c: nibble, base: nibble, r: nibble, o0: nibble, o1: nibble, addr: dword, s: Cpu)
    requires r < 8 && InMemory(s.mem, addr, 4)
    requires Aims(base, o0, s.regs, addr) && Aims(base, o1, s.regs, addr + 2)
    ensures var whole := SourceStep(StoreRd(Dword, c, base, r, o0), s);
            var s1 := SourceStep(StoreRd(Word, c, base, 2 * r, o0), s);
            s1.Next? && whole.Next? && SourceStep(StoreRd(Word, c, base, 2 * r + 1, o1), s1.s) ==
                                       Next(Advanced(s, 2).(mem := whole.s.mem))
  {
    hide Store, GetReg, Holds, SourceStep, Aims, Width, Fetched, Advanced;
    Widths();
    WordsStored(s.mem, s.regs, r, addr);
    DwordReg(s.regs, r);
    StoreRdStep(Dword, c, base, r, o0, addr, s);
    StoreRdStep(Word, c, base, 2 * r, o0, addr, s);
    FetchedKept(s);
    var s1 := SourceStep(StoreRd(Word, c, base, 2 * r, o0), s).s;
    StoreRdStep(Word, c, base, 2 * r + 1, o1, addr + 2, s1);
    FourFetched(s, s1, Fetched(s1), Fetched(Fetched(s1)));
  }

  // ----- compare-exchange -----

  /**
   * CMPXCHG: Z tells whether memory held the expected value; if so memory gets the new value and the expected
   * register stays, otherwise memory stays and the register gets what memory held. Nothing else changes.
   */
  lemma CompareExchangeMeaning(addr: nibble, a: nibble, b: nibble, s: Cpu)
    requires InMemory(s.mem, s.regs[addr], 4)
    ensures var o, at := DoCompareExchange(addr, a, b, s), s.regs[addr];
            && o.Next? && |o.s.mem| == |s.mem|
            && (Has(o.s.regs[REG_FLGS], Z) <==> Load(Dword, s.mem, at) == s.regs[a])
            && Load(Dword, o.s.mem, at) ==
               (if Has(o.s.regs[REG_FLGS], Z) then s.regs[b] else Load(Dword, s.mem, at))
            && (a != REG_FLGS ==> o.s.regs[a] == Load(Dword, s.mem, at))
    ensures var o, at := DoCompareExchange(addr, a, b, s).s, s.regs[addr];
            && o == s.(regs := o.regs, mem := o.mem)
            && (forall i :: 0 <= i < |s.mem| && !(at <= i < at as int + 4) ==> o.mem[i] == s.mem[i])
            && (forall j :: 0 <= j < 16 && j != a && j != REG_FLGS ==> o.regs[j] == s.regs[j])
            && (a != REG_FLGS ==> forall x: Flag :: x != Z ==> Has(o.regs[REG_FLGS], x) == Has(s.regs[REG_FLGS], x))
  {
    hide Has, Put, Load, Bytes;
    LoadStored(Dword, s.mem, s.regs[addr], s.regs[b]);
    var found := Load(Dword, s.mem, s.regs[addr]);
    WithFlagHas(s.regs, Z, true, Z);
    WithFlagHas(s.regs[a := found], Z, false, Z);
    forall x: Flag
      ensures Has(WithFlag(s.regs, Z, true)[REG_FLGS], x) == if x == Z then true else Has(s.regs[REG_FLGS], x)
      ensures Has(WithFlag(s.regs[a := found], Z, false)[REG_FLGS], x) ==
              if x == Z then false else Has(s.regs[a := found][REG_FLGS], x)
    {
      WithFlagHas(s.regs, Z, true, x);
      WithFlagHas(s.regs[a := found], Z, false, x);
    }
  }

  /**
   * A failed CMPXCHG whose address register survives the failure, repeated at once: it succeeds, because the
   * failure fetched the value to expect, unless that value went to FLGS and lost its Z bit there.
   */
  lemma RetrySucceeds(addr: nibble, a: nibble, b: nibble, s: Cpu)
    requires InMemory(s.mem, s.regs[addr], 4) && addr != a && addr != REG_FLGS
    requires Load(Dword, s.mem, s.regs[addr]) != s.regs[a]
    ensures var o1 := DoCompareExchange(addr, a, b, s);
            && o1.Next?
            && var o2 := DoCompareExchange(addr, a, b, o1.s);
               && o2.Next? && |o2.s.mem| == |s.mem|
               && (Has(o2.s.regs[REG_FLGS], Z) <==> a != REG_FLGS || !Has(Load(Dword, s.mem, s.regs[addr]), Z))
               && (Has(o2.s.regs[REG_FLGS], Z) ==> Load(Dword, o2.s.mem, s.regs[addr]) == o1.s.regs[b])
  {
    CompareExchangeMeaning(addr, a, b, s);
    var found, s1 := Load(Dword, s.mem, s.regs[addr]), DoCompareExchange(addr, a, b, s).s;
    CompareExchangeMeaning(addr, a, b, s1);
    ClearedSame(found);
    hide Has, Put, Load, Store;
  }

  lemma ClearedSame(f: dword)
    ensures Put(f, Z, false) == f <==> !Has(f, Z)
  {
    PutSameBit(f, Index(Z));
    BitPutBit(f, Index(Z), false, Index(Z));
  }
}
