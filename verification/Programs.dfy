/** Assembled images in memory: what running and disassembling them gives. */
module Programs {
  import opened Words
  import opened Isa
  import opened Encoding
  import opened Storage
  import opened Machine
  import opened Syntax
  import opened Emitter
  import opened Assembly
  import opened Simulation
  import opened Macros

  // ----- programs as instruction lists -----

  /** A statement that emits instructions, or nothing. */
  predicate IsCode(st: Stmt) {
    !st.Align? && !st.DataByte? && !st.DataBytes? && !st.DataWord? && !st.DataDword?
  }

  predicate AllCode(prog: seq<Stmt>) {
    forall i :: 0 <= i < |prog| ==> IsCode(prog[i])
  }

  /** The machine instructions of a statement under a label table. */
  function Expand(st: Stmt, t: Labels): (code: seq<Source>)
    requires Grammatical(st) && PassesAlone(st) && IsCode(st)
  {
    match st
    case Instruction(src) => [src]
    case LoadAdr(c, reg, name) => LoadChain(c, reg, Lookup(t, name))
    case LdJump(link, c, reg, name) => LoadChain(c, reg, Lookup(t, name)) + [JumpCode(link, c, reg)]
    case Push(c, reg) => [PushCode(c, reg)]
    case Pop(c, reg) => [PopCode(c, reg)]
    case Load32(c, reg, v) => Load32Code(c, reg, v)
    case Label(_) => []
    case Offset(_) => []
  }

  function ExpandAll(prog: seq<Stmt>, t: Labels): seq<Source>
    requires AllPass(prog) && AllCode(prog)
    decreases |prog|
  {
    if prog == [] then [] else ExpandAll(prog[..|prog| - 1], t) + Expand(prog[|prog| - 1], t)
  }

  lemma {:induction false} EncodeAllAppend(x: seq<Source>, y: seq<Source>)
    requires AllInRange(x) && AllInRange(y)
    ensures AllInRange(x + y) && EncodeAll(x + y) == EncodeAll(x) + EncodeAll(y)
    decreases |y|
  {
    hide Encode, InRange;
    if y == [] {
      assert x + y == x;
    } else {
      EncodeAllAppend(x, y[..|y| - 1]);
      assert (x + y)[..|x + y| - 1] == x + y[..|y| - 1];
    }
  }

  /** The bytes of a code statement are the encodings of its expansion. */
  lemma CodeIsEncoded(st: Stmt, pos: nat, t: Labels)
    requires Grammatical(st) && PassesAlone(st) && IsCode(st)
    ensures AllInRange(Expand(st, t)) && Code(st, pos, t) == EncodeAll(Expand(st, t))
  {
    match st {
      case Instruction(src) => EncodeOne(src);
      case Push(c, reg) => EncodeOne(PushCode(c, reg));
      case Pop(c, reg) => EncodeOne(PopCode(c, reg));
      case LdJump(link, c, reg, name) =>
        EncodeOne(JumpCode(link, c, reg));
        EncodeAllAppend(LoadChain(c, reg, Lookup(t, name)), [JumpCode(link, c, reg)]);
      case _ =>
    }
  }

  lemma EncodeOne(src: Source)
    requires InRange(src)
    ensures AllInRange([src]) && EncodeAll([src]) == Encode(src)
  {
    hide Encode, InRange;
    assert [src][..0] == [];
  }

  /** A program of code statements assembles to the encoding of its expansion. */
  lemma {:induction false} DirectIsEncoded(prog: seq<Stmt>, t: Labels)
    requires AllPass(prog) && AllCode(prog)
    ensures AllInRange(ExpandAll(prog, t)) && Direct(prog, t) == EncodeAll(ExpandAll(prog, t))
    decreases |prog|
  {
    hide Code, Expand, EncodeAll, InRange, Grammatical, Passes;
    if prog == [] {
      assert EncodeAll([]) == [] by { EncodeNone(); }
    } else {
      var rest, st := prog[..|prog| - 1], prog[|prog| - 1];
      DirectIsEncoded(rest, t);
      CodeIsEncoded(st, |Direct(rest, t)|, t);
      EncodeAllAppend(ExpandAll(rest, t), Expand(st, t));
    }
  }

  lemma EncodeNone()
    ensures EncodeAll([]) == []
  {
  }

  // ----- the image in memory -----

  predicate Holding(m: memory, base: dword, image: seq<byte>) {
    base + |image| <= |m| && m[base..base + |image|] == image
  }

  /** Instruction k of a list stands at base + 4k, for every k. */
  predicate Placed(code: seq<Source>, base: int, m: memory)
    requires AllInRange(code)
  {
    && 0 <= base && base + 4 * |code| <= |m|
    && forall k {:trigger code[k]} :: 0 <= k < |code| ==> m[base + 4 * k..base + 4 * k + 4] == Encode(code[k])
  }

  lemma EncodedIsPlaced(code: seq<Source>, base: dword, m: memory)
    requires AllInRange(code) && Holding(m, base, EncodeAll(code))
    ensures Placed(code, base, m)
  {
    hide Encode, InRange, EncodeAll;
    forall k {:trigger code[k]} | 0 <= k < |code|
      ensures m[base + 4 * k..base + 4 * k + 4] == Encode(code[k])
    {
      EncodeAllAt(code, k);
      SliceOfSlice(m, base, base + 4 * |code|, 4 * k, 4 * k + 4);
    }
  }

  /** Every instruction of the list but the last goes on to the next one and leaves the rest of the code alone. */
  ghost predicate FallsThrough(code: seq<Source>, s: Cpu)
    requires AllSound(code)
    decreases |code|
  {
    |code| <= 1 || (
      && SourceStep(code[0], s).Next?
      && var s' := SourceStep(code[0], s).s;
         && s'.pos == Fetched(s).pos && SameCode(s.mem, s'.mem, s.pos + 4, s.pos + 4 * |code|)
         && FallsThrough(code[1..], s')
    )
  }

  predicate SameCode(m: memory, m': memory, from: nat, to: nat) {
    |m'| == |m| && forall i :: from <= i < to && i < |m| ==> m'[i] == m[i]
  }

  lemma TailPlaced(code: seq<Source>, base: nat, m: memory, m': memory)
    requires code != [] && AllInRange(code) && Placed(code, base, m) && SameCode(m, m', base + 4, base + 4 * |code|)
    ensures AllInRange(code[1..]) && Placed(code[1..], base + 4, m')
  {
    hide Encode, InRange;
    var rest := code[1..];
    forall k {:trigger rest[k]} | 0 <= k < |rest|
      ensures m'[base + 4 + 4 * k..base + 4 + 4 * k + 4] == Encode(rest[k])
    {
      assert rest[k] == code[k + 1];
      var a := base + 4 * (k + 1);
      assert m[a..a + 4] == Encode(code[k + 1]);
      assert m'[a..a + 4] == m[a..a + 4];
    }
  }

  /** A list that falls through, its last instruction being any, runs from its bytes as the list does. */
  lemma {:induction false} RunStraight(code: seq<Source>, s: Cpu)
    requires AllSound(code) && Placed(code, s.pos, s.mem) && FallsThrough(code, s)
    ensures Run(s, |code|) == Straight(code, s)
    decreases |code|
  {
    hide Step, SourceStep, Encode, WellFormed, InRange, SameCode;
    if code != [] {
      assert s.mem[s.pos + 4 * 0..s.pos + 4 * 0 + 4] == Encode(code[0]);
      StepIsSourceStep(code[0], s);
      var o := SourceStep(code[0], s);
      if |code| == 1 {
        assert code[1..] == [];
      } else {
        FetchedKeeps(s);
        TailPlaced(code, s.pos, s.mem, o.s.mem);
        RunStraight(code[1..], o.s);
      }
    }
  }

  lemma {:induction false} RegisterOnlyFalls(code: seq<Source>, s: Cpu)
    requires AllSound(code) && forall i :: 0 <= i < |code| - 1 ==> RegisterOnly(code[i])
    ensures FallsThrough(code, s)
    decreases |code|
  {
    hide SourceStep, WellFormed, InRange, RegisterOnly;
    if |code| > 1 {
      RegisterOnlyStep(code[0], s);
      assert forall k :: 0 <= k < |code| - 1 ==> code[1..][k] == code[k + 1];
      RegisterOnlyFalls(code[1..], SourceStep(code[0], s).s);
    }
  }

  lemma FetchedKeeps(s: Cpu)
    requires s.pos + 4 < DWORD_MODULUS
    ensures Fetched(s).pos == s.pos + 4 && Fetched(s).mem == s.mem
  {
  }

  /** The expansion of statement k stands at the start of statement k. */
  lemma StatementPlaced(prog: seq<Stmt>, t: Labels, k: nat, base: dword, m: memory)
    requires AllPass(prog) && k < |prog| && IsCode(prog[k]) && Holding(m, base, Direct(prog, t))
    ensures AllInRange(Expand(prog[k], t)) && Placed(Expand(prog[k], t), base + Start(prog, k), m)
  {
    hide Code, Expand, EncodeAll, Direct, Pass1, InRange, Grammatical, Passes, Encode;
    var p := Start(prog, k);
    CodeIsEncoded(prog[k], p, t);
    CodeAt(prog, t, k);
    var c := Code(prog[k], p, t);
    SliceOfSlice(m, base, base + |Direct(prog, t)|, p, p + |c|);
    EncodedIsPlaced(Expand(prog[k], t), base + p, m);
  }

  // ----- end to end -----

  /** Whether an instruction of a list placed at base starts at address a. */
  predicate Starts(code: seq<Source>, base: int, a: int) {
    base <= a < base + 4 * |code| && (a - base) % 4 == 0
  }

  /** A list of instructions from an address on. */
  function Placing(code: seq<Source>, base: int): Listing {
    map a | base <= a < base + 4 * |code| && Starts(code, base, a) :: code[(a - base) / 4]
  }

  /** Every instruction of a program, pseudo-instructions expanded, at its address; data is not listed. */
  function ListingOf(prog: seq<Stmt>, t: Labels, base: int): (code: Listing)
    requires AllPass(prog)
    ensures SoundListing(code)
    decreases |prog|
  {
    hide Expand, Sound, Grammatical, Passes, Start, Placing;
    if prog == [] then map[]
    else
      var rest, st := prog[..|prog| - 1], prog[|prog| - 1];
      if IsCode(st) then
        ExpandSound(st, t);
        PlacingSound(Expand(st, t), base + Start(prog, |rest|));
        ListingOf(rest, t, base) + Placing(Expand(st, t), base + Start(prog, |rest|))
      else ListingOf(rest, t, base)
  }

  lemma ExpandSound(st: Stmt, t: Labels)
    requires Grammatical(st) && PassesAlone(st) && IsCode(st)
    ensures AllSound(Expand(st, t))
  {
  }

  lemma PlacingSound(code: seq<Source>, base: int)
    requires AllSound(code)
    ensures SoundListing(Placing(code, base))
  {
    hide Sound;
  }

  lemma PlacingStands(code: seq<Source>, base: int, m: memory)
    requires AllSound(code) && Placed(code, base, m)
    ensures SoundListing(Placing(code, base)) && Stands(Placing(code, base), m)
  {
    hide Encode, WellFormed, InRange;
    PlacingSound(code, base);
    var listing := Placing(code, base);
    forall a | a in listing
      ensures 0 <= a && a + 4 <= |m| && m[a..a + 4] == Encode(listing[a])
    {
      var k := (a - base) / 4;
      assert a == base + 4 * k && listing[a] == code[k];
    }
  }

  /** The listing has every instruction of every statement, none overwritten by a later one. */
  lemma {:induction false} ListingHas(prog: seq<Stmt>, t: Labels, base: int, k: nat, i: nat)
    requires AllPass(prog) && k < |prog| && IsCode(prog[k]) && i < |Expand(prog[k], t)|
    ensures var a, code := base + Start(prog, k) + 4 * i, ListingOf(prog, t, base);
            a in code && code[a] == Expand(prog[k], t)[i]
    decreases |prog|
  {
    hide Expand, Grammatical, Passes, Start, Placing, Direct, Code, EncodeAll, InRange;
    var rest, a := prog[..|prog| - 1], base + Start(prog, k) + 4 * i;
    PlacingAt(Expand(prog[k], t), base + Start(prog, k), a);
    if k < |rest| {
      ListingHas(rest, t, base, k, i);
      SameStart(prog, k, |rest|);
      SameStart(prog, |rest|, |rest|);
      CodeAt(rest, t, k);
      CodeIsEncoded(prog[k], Start(prog, k), t);
      DirectStart(rest, t);
      if IsCode(prog[|rest|]) {
        PlacingAt(Expand(prog[|rest|], t), base + Start(prog, |rest|), a);
      }
    }
  }

  lemma PlacingAt(code: seq<Source>, base: int, a: int)
    ensures a in Placing(code, base) <==> Starts(code, base, a)
    ensures Starts(code, base, a) ==> Placing(code, base)[a] == code[(a - base) / 4]
  {
  }

  lemma DirectStart(prog: seq<Stmt>, t: Labels)
    requires AllPass(prog)
    ensures |Direct(prog, t)| == Start(prog, |prog|)
  {
    hide Direct, Pass1, Patch;
    TwoPassesAreOne(prog, t);
    assert prog[..|prog|] == prog;
  }

  /** The instructions of a program stand in memory at their addresses when its image does. */
  lemma {:induction false} ListingStands(prog: seq<Stmt>, t: Labels, base: dword, m: memory, n: nat)
    requires AllPass(prog) && n <= |prog| && Holding(m, base, Direct(prog, t))
    ensures Stands(ListingOf(prog[..n], t, base), m)
    decreases n
  {
    hide Expand, Grammatical, Passes, WellFormed, Start, Encode, Direct, InRange, Placing, Placed;
    if n > 0 {
      var st, front := prog[n - 1], prog[..n];
      assert front[..n - 1] == prog[..n - 1] && front[n - 1] == st;
      ListingStands(prog, t, base, m, n - 1);
      SameStart(prog, n - 1, n);
      if IsCode(st) {
        StatementPlaced(prog, t, n - 1, base, m);
        ExpandSound(st, t);
        PlacingStands(Expand(st, t), base + Start(prog, n - 1), m);
      }
    }
  }

  lemma SameStart(prog: seq<Stmt>, k: nat, n: nat)
    requires AllPass(prog) && k <= n <= |prog|
    ensures Start(prog[..n], k) == Start(prog, k)
  {
    assert prog[..n][..k] == prog[..k];
  }

  /**
   * End to end: the image of a program, data and alignment included, loaded anywhere, runs step for step like
   * the listing of the program's instructions under its own label table.
   */
  lemma ImageSimulatesProgram(prog: seq<Stmt>, base: dword, s: Cpu, n: nat)
    requires AllPass(prog)
    requires Holding(s.mem, base, Direct(prog, Pass1(prog).labels))
    requires Confined(ListingOf(prog, Pass1(prog).labels, base), s, n)
    ensures Run(s, n) == ListingRun(ListingOf(prog, Pass1(prog).labels, base), s, n)
  {
    hide Run, ListingRun, Confined, Sound, ListingOf, Pass1, Direct;
    var t := Pass1(prog).labels;
    assert prog[..|prog|] == prog;
    ListingStands(prog, t, base, s.mem, |prog|);
    BytesSimulateListing(ListingOf(prog, t, base), s, n);
  }

  // ----- references -----

  /**
   * LDCALL and LDJMP in an assembled image: the processor reaches the label's place in memory, with the
   * address in the named register, or falls through, depending on the condition alone.
   */
  lemma JumpReachesLabel(prog: seq<Stmt>, k: nat, j: nat, base: dword, s: Cpu)
    requires AllPass(prog) && Checked(prog) && k < |prog| && j < |prog|
    requires prog[k].LdJump? && prog[j] == Label(prog[k].name) && OffsetAt(prog, j) == base
    requires Holding(s.mem, base, Direct(prog, Pass1(prog).labels)) && s.pos == base + Start(prog, k)
    ensures base + Start(prog, j) < DWORD_MODULUS
    ensures var st := prog[k];
            Run(s, 3) == Next(if Holds(st.cond, s.regs[REG_FLGS])
                              then Landed(st.link, st.reg, base + Start(prog, j), s) else Advanced(s, 3))
  {
    hide Run, Checked, Direct, Expand, Placed, Pass1, Landed, Advanced, Holds;
    var t, st := Pass1(prog).labels, prog[k];
    LabelAddress(prog, t, j, base, s.mem);
    StatementPlaced(prog, t, k, base, s.mem);
    ReachLabel(st, t, base + Start(prog, j), s);
  }

  lemma LabelAddress(prog: seq<Stmt>, t: Labels, j: nat, base: dword, m: memory)
    requires AllPass(prog) && Checked(prog) && j < |prog| && prog[j].Label? && OffsetAt(prog, j) == base
    requires t == Pass1(prog).labels && Holding(m, base, Direct(prog, t))
    ensures base + Start(prog, j) < DWORD_MODULUS && Lookup(t, prog[j].name) == base + Start(prog, j)
  {
    hide Pass1, Checked, Direct, Code;
    LabelValue(prog, j);
    CodeAt(prog, t, j);
  }

  lemma ReachLabel(st: Stmt, t: Labels, target: dword, s: Cpu)
    requires st.LdJump? && PassesAlone(st) && Lookup(t, st.name) == target
    requires AllInRange(Expand(st, t)) && Placed(Expand(st, t), s.pos, s.mem)
    ensures Run(s, 3) == Next(if Holds(st.cond, s.regs[REG_FLGS])
                              then Landed(st.link, st.reg, target, s) else Advanced(s, 3))
  {
    hide Run, Straight, Placed, FallsThrough, Encode, Landed, Advanced, Holds;
    LdJumpMeaning(st.link, st.cond, st.reg, target, s);
    RegisterOnlyFalls(Expand(st, t), s);
    RunStraight(Expand(st, t), s);
  }

  /** LOADADR in an assembled image: the register gets the address of the label's place, or nothing happens. */
  lemma LoadAdrLoadsLabel(prog: seq<Stmt>, k: nat, j: nat, base: dword, s: Cpu)
    requires AllPass(prog) && Checked(prog) && k < |prog| && j < |prog|
    requires prog[k].LoadAdr? && prog[j] == Label(prog[k].name) && OffsetAt(prog, j) == base
    requires Holding(s.mem, base, Direct(prog, Pass1(prog).labels)) && s.pos == base + Start(prog, k)
    ensures base + Start(prog, j) < DWORD_MODULUS
    ensures var st := prog[k];
            Run(s, 2) == Next(Advanced(s, 2).(regs := if Holds(st.cond, s.regs[REG_FLGS])
                                                      then s.regs[st.reg := base + Start(prog, j)] else s.regs))
  {
    hide Run, Checked, Direct, Expand, Placed, Pass1, Landed, Advanced, Holds;
    var t, st := Pass1(prog).labels, prog[k];
    LabelAddress(prog, t, j, base, s.mem);
    StatementPlaced(prog, t, k, base, s.mem);
    LoadLabel(st, t, base + Start(prog, j), s);
  }

  lemma LoadLabel(st: Stmt, t: Labels, target: dword, s: Cpu)
    requires st.LoadAdr? && PassesAlone(st) && Lookup(t, st.name) == target
    requires AllInRange(Expand(st, t)) && Placed(Expand(st, t), s.pos, s.mem)
    ensures Run(s, 2) == Next(Advanced(s, 2).(regs := if Holds(st.cond, s.regs[REG_FLGS])
                                                      then s.regs[st.reg := target] else s.regs))
  {
    hide Run, Straight, Placed, FallsThrough, Encode, Advanced, Holds;
    LoadChainMeaning(st.cond, st.reg, target, s);
    RegisterOnlyFalls(Expand(st, t), s);
    RunStraight(Expand(st, t), s);
  }

  /** LOAD32 in memory reaches its goal exactly when it is not a conditional load of FLGS that loses its condition. */
  lemma Load32Runs(c: nibble, reg: nibble, v: dword, s: Cpu)
    requires AllInRange(Load32Code(c, reg, v)) && Placed(Load32Code(c, reg, v), s.pos, s.mem)
    ensures Run(s, |Load32Code(c, reg, v)|) == Next(Load32Goal(c, reg, v, s)) <==>
            (reg == REG_FLGS && Holds(c, s.regs[REG_FLGS]) ==> Holds(c, s.regs[REG_R7]))
  {
    hide Run, Straight, Placed, FallsThrough, Encode, Advanced, Holds, Load32Goal;
    Load32Meaning(c, reg, v, s);
    RegisterOnlyFalls(Load32Code(c, reg, v), s);
    RunStraight(Load32Code(c, reg, v), s);
  }

  // ----- booting an image -----

  /** Copying an image into memory puts it where the assembler's default offset expects it. */
  lemma CopiedImage(m: memory, image: seq<byte>)
    requires DEFAULT_OFFSET + |image| <= |m|
    ensures Holding(Write(m, DEFAULT_OFFSET, image), DEFAULT_OFFSET, image)
  {
    assert Write(m, DEFAULT_OFFSET, image)[DEFAULT_OFFSET..DEFAULT_OFFSET + |image|] == image;
  }

  /** Without .offset the default offset is in force everywhere. */
  lemma {:induction false} DefaultOffset(prog: seq<Stmt>, k: nat)
    requires AllPass(prog) && k <= |prog| && forall i :: 0 <= i < |prog| ==> !prog[i].Offset?
    ensures OffsetAt(prog, k) == DEFAULT_OFFSET
    decreases k
  {
    if k > 0 {
      DefaultOffset(prog, k - 1);
      var rest := prog[..k];
      assert rest[..k - 1] == prog[..k - 1] && rest[k - 1] == prog[k - 1];
      StepOffset(prog[k - 1], Pass1(prog[..k - 1]));
      hide Pass1Step;
    }
  }

  lemma StepOffset(st: Stmt, e: Emission)
    requires Grammatical(st) && PassesAlone(st) && e.pos <= |e.image|
    ensures Pass1Step(st, e).offset == if st.Offset? then st.v else e.offset
  {
    hide Literal, Encode;
  }

  // ----- disassembling an image -----

  /** The disassembler's view of a list of words, one after the other. */
  function DisassembleAll(image: seq<byte>): (r: seq<Option<Source>>)
    requires |image| % 4 == 0
    decreases |image|
  {
    if image == [] then [] else [Disassemble(image[..4])] + DisassembleAll(image[4..])
  }

  function Shown(code: seq<Source>): (r: seq<Option<Source>>)
    ensures |r| == |code| && forall k :: 0 <= k < |code| ==> r[k] == Some(Kept(code[k]))
  {
    seq(|code|, k requires 0 <= k < |code| => Some(Kept(code[k])))
  }

  lemma EncodeCons(code: seq<Source>)
    requires code != [] && AllInRange(code)
    ensures AllInRange(code[1..]) && EncodeAll(code) == Encode(code[0]) + EncodeAll(code[1..])
  {
    hide Encode, InRange, EncodeAll;
    EncodeOne(code[0]);
    EncodeAllAppend([code[0]], code[1..]);
    assert code == [code[0]] + code[1..];
  }

  lemma DisassembleCons(w: code4, rest: seq<byte>)
    requires |rest| % 4 == 0
    ensures DisassembleAll(w + rest) == [Disassemble(w)] + DisassembleAll(rest)
  {
    hide Disassemble;
    assert (w + rest)[..4] == w && (w + rest)[4..] == rest;
  }

  /** Disassembling an image word by word returns what the assembler kept of the instruction list. */
  lemma {:induction false} DisassembleImage(code: seq<Source>)
    requires AllSound(code)
    ensures DisassembleAll(EncodeAll(code)) == Shown(code)
    decreases |code|
  {
    hide Encode, WellFormed, InRange, Misencoded, Disassemble, EncodeAll, DisassembleAll, Kept;
    if code == [] {
      NothingShown();
    } else {
      EncodeCons(code);
      DisassembleEncode(code[0]);
      DisassembleCons(Encode(code[0]), EncodeAll(code[1..]));
      DisassembleImage(code[1..]);
    }
  }

  lemma NothingShown()
    ensures DisassembleAll(EncodeAll([])) == []
  {
  }

  /** Disassembling the image of a program of code returns its expansion, labels filled in. */
  lemma DisassembleProgram(prog: seq<Stmt>, t: Labels)
    requires AllPass(prog) && AllCode(prog)
    ensures |Direct(prog, t)| % 4 == 0 && DisassembleAll(Direct(prog, t)) == Shown(ExpandAll(prog, t))
  {
    hide Direct, ExpandAll, EncodeAll, DisassembleAll, Shown;
    DirectIsEncoded(prog, t);
    ExpansionSound(prog, t);
    DisassembleImage(ExpandAll(prog, t));
  }

  lemma {:induction false} ExpansionSound(prog: seq<Stmt>, t: Labels)
    requires AllPass(prog) && AllCode(prog)
    ensures AllSound(ExpandAll(prog, t))
    decreases |prog|
  {
    hide Expand, Grammatical, Passes, WellFormed, InRange, IsCode;
    if prog != [] {
      ExpansionSound(prog[..|prog| - 1], t);
      ExpandSound(prog[|prog| - 1], t);
    }
  }
}
