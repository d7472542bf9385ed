/** Running assembled bytes is running the instruction list they were assembled from. */
module Simulation {
  import opened Words
  import opened Isa
  import opened Encoding
  import opened Storage
  import opened Machine
  import opened Syntax

  /** An instruction that the grammar accepts and the assembler encodes. */
  predicate Sound(src: Source) {
    WellFormed(src) && InRange(src)
  }

  predicate AllSound(code: seq<Source>) {
    forall i :: 0 <= i < |code| ==> Sound(code[i])
  }

  /** One step of the list interpreter: fetch bookkeeping, condition, action. No bytes are decoded. */
  function SourceStep(src: Source, s: Cpu): Outcome
    requires WellFormed(src)
  {
    if Holds(src.cond, s.regs[REG_FLGS]) then Perform(Actual(src), Fetched(s)) else Next(Fetched(s))
  }

  /** Where the bytes of an instruction stand, the processor's step is the interpreter's step. */
  lemma StepIsSourceStep(src: Source, s: Cpu)
    requires Sound(src) && InMemory(s.mem, s.pos, 4) && WordAt(s.mem, s.pos) == Encode(src)
    ensures Step(s) == SourceStep(src, s)
  {
    hide Perform, Dispatch, Encode, Holds, Decode, Actual, WellFormed, InRange;
    DispatchEncode(src);
  }

  // ----- what an instruction writes -----

  /** Whether an action executed in state s stores into address i. */
  ghost predicate Writes(act: Action, s: Cpu, i: int) {
    match act
    case StoreMem(size, base, _, disp) =>
      var a := Address(base, disp, s.regs);
      a <= i < a + Width(size)
    case StoreMany(base, lo, hi) =>
      exists k: nat :: k as int <= hi - lo && InSlot(s.regs[base], k, i)
    case CompareExchange(addr, _, _) =>
      s.regs[addr] <= i < s.regs[addr] as int + 4
    case _ => false
  }

  /** Whether address i lies in the k-th dword below a. */
  predicate InSlot(a: dword, k: nat, i: int) {
    Wrap(a - 4 * k) <= i < Wrap(a - 4 * k) + 4
  }

  lemma {:induction false} PushAllFrame(blk: Block, lo: nat, hi: int, i: nat)
    requires lo <= 16 && hi < 16 && PushAll(blk, lo, hi).Some? && i < |blk.mem|
    requires forall k: nat :: k <= hi - lo ==> !InSlot(blk.addr, k, i)
    ensures var r := PushAll(blk, lo, hi).value;
            r.regs == blk.regs && |r.mem| == |blk.mem| && r.mem[i] == blk.mem[i]
    decreases hi - lo
  {
    if lo <= hi {
      PushStep(blk, lo, hi);
      hide PushAll, Store, InSlot;
      var next := PushOne(blk, lo);
      OutsideStore(blk, lo, i);
      forall k: nat | k <= hi - (lo + 1)
        ensures !InSlot(next.addr, k, i)
      {
        assert !InSlot(blk.addr, k + 1, i);
        SlotShift(blk.addr, k, i);
      }
      PushAllFrame(next, lo + 1, hi, i);
    }
  }

  lemma OutsideStore(blk: Block, lo: nibble, i: nat)
    requires InMemory(blk.mem, blk.addr, 4) && i < |blk.mem| && !InSlot(blk.addr, 0, i)
    ensures |PushOne(blk, lo).mem| == |blk.mem| && PushOne(blk, lo).mem[i] == blk.mem[i]
  {
    hide Bytes;
  }

  lemma SlotShift(a: dword, k: nat, i: int)
    ensures InSlot(Wrap(a - 4), k, i) == InSlot(a, k + 1, i)
  {
    ModSum(a - 4, -4 * k, DWORD_MODULUS);
  }

  /** Every action leaves all memory outside its footprint alone. */
  lemma PerformFrame(act: Action, s: Cpu, i: nat)
    requires Perform(act, s).Next? && i < |s.mem| && !Writes(act, s, i)
    ensures |Perform(act, s).s.mem| == |s.mem| && Perform(act, s).s.mem[i] == s.mem[i]
  {
    match act {
      case StoreMany(base, lo, hi) =>
        hide PushAll;
        PushAllFrame(Block(s.regs, s.mem, s.regs[base]), lo, hi, i);
      case StoreMem(size, base, sub, disp) =>
      case CompareExchange(addr, a, b) =>
      case _ =>
    }
  }

  lemma {:induction false} PushAllLength(blk: Block, lo: nat, hi: int)
    requires lo <= 16 && hi < 16 && PushAll(blk, lo, hi).Some?
    ensures |PushAll(blk, lo, hi).value.mem| == |blk.mem|
    decreases hi - lo
  {
    if lo <= hi {
      PushStep(blk, lo, hi);
      hide PushAll;
      PushAllLength(PushOne(blk, lo), lo + 1, hi);
    }
  }

  lemma PerformLength(act: Action, s: Cpu)
    requires Perform(act, s).Next?
    ensures |Perform(act, s).s.mem| == |s.mem|
  {
    match act {
      case StoreMany(base, lo, hi) =>
        hide PushAll;
        PushAllLength(Block(s.regs, s.mem, s.regs[base]), lo, hi);
      case _ =>
    }
  }

  // ----- simulation -----

  /** Instructions by the address at which they stand; between them there can be gaps and data. */
  type Listing = map<int, Source>

  predicate SoundListing(code: Listing) {
    forall a :: a in code ==> Sound(code[a])
  }

  /** The bytes of every instruction stand in memory at its address. */
  predicate Stands(code: Listing, m: memory)
    requires SoundListing(code)
  {
    forall a :: a in code ==> 0 <= a && a + 4 <= |m| && m[a..a + 4] == Encode(code[a])
  }

  /** At most n steps of an interpreter that looks at the listing only; it stops where control leaves the listing. */
  function ListingRun(code: Listing, s: Cpu, n: nat): Outcome
    requires SoundListing(code)
    decreases n
  {
    if n == 0 || s.pos !in code then Next(s)
    else
      var o := SourceStep(code[s.pos], s);
      if o.Next? then ListingRun(code, o.s, n - 1) else o
  }

  /** The instruction does not store into the bytes of any listed instruction; it may store into data. */
  ghost predicate SparesCode(code: Listing, src: Source, s: Cpu)
    requires WellFormed(src)
  {
    Holds(src.cond, s.regs[REG_FLGS]) ==>
      forall a, i :: a in code && a <= i < a + 4 ==> !Writes(Actual(src), Fetched(s), i)
  }

  /** In n interpreter steps control stays in the listing and no executed store hits its code. */
  ghost predicate Confined(code: Listing, s: Cpu, n: nat)
    requires SoundListing(code)
    decreases n
  {
    n == 0 || (
      && s.pos in code
      && SparesCode(code, code[s.pos], s)
      && var o := SourceStep(code[s.pos], s);
         o.Next? ==> Confined(code, o.s, n - 1)
    )
  }

  lemma SliceOfSlice(m: seq<byte>, a: nat, b: nat, c: nat, d: nat)
    requires a <= b <= |m| && c <= d <= b - a
    ensures m[a..b][c..d] == m[a + c..a + d]
  {
    var x, y := m[a..b][c..d], m[a + c..a + d];
    assert |x| == |y| && forall i :: 0 <= i < |x| ==> x[i] == m[a + c + i] == y[i];
  }

  lemma SourceStepKeepsCode(code: Listing, src: Source, s: Cpu)
    requires SoundListing(code) && Stands(code, s.mem) && WellFormed(src)
    requires SparesCode(code, src, s) && SourceStep(src, s).Next?
    ensures Stands(code, SourceStep(src, s).s.mem)
  {
    hide Perform, Holds, Actual, Encode, Writes, WellFormed, InRange;
    var s' := SourceStep(src, s).s;
    if Holds(src.cond, s.regs[REG_FLGS]) {
      PerformLength(Actual(src), Fetched(s));
      forall a | a in code
        ensures s'.mem[a..a + 4] == s.mem[a..a + 4]
      {
        forall i | a <= i < a + 4
          ensures s'.mem[i] == s.mem[i]
        {
          PerformFrame(Actual(src), Fetched(s), i);
        }
      }
    }
  }

  /**
   * For every listing of instructions standing in memory, any number of processor steps on the
   * bytes equals the same number of interpreter steps on the listing, as long as the run stays confined.
   */
  lemma {:induction false} BytesSimulateListing(code: Listing, s: Cpu, n: nat)
    requires SoundListing(code) && Stands(code, s.mem) && Confined(code, s, n)
    ensures Run(s, n) == ListingRun(code, s, n)
    decreases n
  {
    hide Step, SourceStep, SparesCode, Encode, WellFormed, InRange;
    if n > 0 {
      var src := code[s.pos];
      StepIsSourceStep(src, s);
      if SourceStep(src, s).Next? {
        SourceStepKeepsCode(code, src, s);
        BytesSimulateListing(code, SourceStep(src, s).s, n - 1);
      }
    }
  }
}
