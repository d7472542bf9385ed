/**
 * Assembly programs: what the first pass emits, how label references are patched afterwards, and what one
 * pass with the final label table would emit.
 */
module Assembly {
  import opened Words
  import opened Isa
  import opened Storage
  import opened Machine
  import opened Syntax
  import opened Emitter

  datatype Stmt =
    | Instruction(src: Source)
    | LoadAdr(cond: nibble, reg: nibble, name: string)
    | LdJump(link: bool, cond: nibble, reg: nibble, name: string)
    | Push(cond: nibble, reg: nibble)
    | Pop(cond: nibble, reg: nibble)
    | Load32(cond: nibble, reg: nibble, v: dword)
    | Align(n: word, fill: word)
    | Label(name: string)
    | Offset(v: dword)
    | DataByte(b: word)
    | DataBytes(bs: seq<word>)
    | DataWord(w: word)
    | DataDword(d: dword)

  type Labels = map<string, dword>

  /** What the grammar guarantees of a statement; the alignment operator divides by n. */
  predicate Grammatical(st: Stmt) {
    match st
    case Instruction(src) => WellFormed(src)
    case Align(n, _) => n > 0
    case _ => true
  }

  predicate GrammaticalProgram(prog: seq<Stmt>) {
    forall i :: 0 <= i < |prog| ==> Grammatical(prog[i])
  }

  predicate AllBytes(bs: seq<word>) {
    forall i :: 0 <= i < |bs| ==> bs[i] <= 0xFF
  }

  function Narrow(bs: seq<word>): (r: seq<byte>)
    ensures |r| == |bs| && (AllBytes(bs) ==> r == bs)
  {
    seq(|bs|, i requires 0 <= i < |bs| => bs[i] % 0x100)
  }

  /** The checks of the grammar actions; where one fails the assembler reports an error and exits. */
  predicate Passes(st: Stmt, labels: Labels) {
    match st
    case Instruction(src) => InRange(src)
    case LoadAdr(_, reg, _) => reg <= REG_R7
    case LdJump(_, _, reg, _) => reg <= REG_R7
    case Label(name) => name !in labels
    case DataByte(b) => b <= 0xFF
    case DataBytes(bs) => AllBytes(bs)
    case _ => true
  }

  // ----- code of the pseudo-instructions -----

  /** Two 16-bit loads that set a word-accessible register to v. */
  function LoadChain(cond: nibble, reg: nibble, v: dword): seq<Source>
    requires reg <= REG_R7
  {
    [LoadI(Word, cond, 2 * reg, v % 0x1_0000), LoadI(Word, cond, 2 * reg + 1, v / 0x1_0000)]
  }

  /** LOAD32 goes through R7 for the registers without 16-bit parts. */
  function Load32Code(cond: nibble, reg: nibble, v: dword): seq<Source> {
    if reg <= REG_R7 then LoadChain(cond, reg, v)
    else [Pair(OP_XCHG, cond, REG_R7, reg)] + LoadChain(cond, REG_R7, v) + [Pair(OP_XCHG, cond, REG_R7, reg)]
  }

  function JumpCode(link: bool, cond: nibble, reg: nibble): Source {
    Single(if link then OP_CALL else OP_JMP, cond, Reg(reg))
  }

  function PushCode(cond: nibble, reg: nibble): Source {
    Many(OP_STOREMA, cond, REG_SP, reg * 0x10 + reg)
  }

  function PopCode(cond: nibble, reg: nibble): Source {
    Many(OP_LOADMA, cond, REG_SP, reg * 0x10 + reg)
  }

  predicate AllInRange(code: seq<Source>) {
    forall i :: 0 <= i < |code| ==> InRange(code[i])
  }

  function EncodeAll(code: seq<Source>): (bs: seq<byte>)
    requires AllInRange(code)
    ensures |bs| == 4 * |code|
  {
    if code == [] then [] else EncodeAll(code[..|code| - 1]) + Encode(code[|code| - 1])
  }

  /** Instruction k of an encoded list occupies bytes 4k to 4k + 3. */
  lemma {:induction false} EncodeAllAt(code: seq<Source>, k: nat)
    requires AllInRange(code) && k < |code|
    ensures EncodeAll(code)[4 * k..4 * k + 4] == Encode(code[k])
  {
    var rest := code[..|code| - 1];
    if k < |code| - 1 {
      EncodeAllAt(rest, k);
      assert EncodeAll(code)[4 * k..4 * k + 4] == EncodeAll(rest)[4 * k..4 * k + 4];
    }
  }

  // ----- first pass -----

  function AlignGap(pos: nat, n: nat): nat
    requires n > 0
  {
    (n - pos % n) % n
  }

  function Repeat(b: byte, n: nat): (bs: seq<byte>)
    ensures |bs| == n
  {
    seq(n, _ => b)
  }

  /** The bytes of a statement that refers to no label. */
  function Literal(st: Stmt, pos: nat): seq<byte>
    requires Grammatical(st) && Passes(st, map[])
    requires !st.LoadAdr? && !st.LdJump?
  {
    match st
    case Instruction(src) => Encode(src)
    case Push(c, reg) => Encode(PushCode(c, reg))
    case Pop(c, reg) => Encode(PopCode(c, reg))
    case Load32(c, reg, v) => EncodeAll(Load32Code(c, reg, v))
    case Align(n, fill) => Repeat(fill % 0x100, AlignGap(pos, n))
    case DataByte(b) => [b]
    case DataBytes(bs) => Narrow(bs)
    case DataWord(w) => Bytes(Word, w)
    case DataDword(d) => Bytes(Dword, d)
    case Label(_) => []
    case Offset(_) => []
  }

  /** Whether a statement passes the checks that do not look at the label table. */
  predicate PassesAlone(st: Stmt) {
    Passes(st, map[])
  }

  predicate AllPass(prog: seq<Stmt>) {
    forall i :: 0 <= i < |prog| ==> Grammatical(prog[i]) && PassesAlone(prog[i])
  }

  function Pass1Step(st: Stmt, e: Emission): Emission
    requires Grammatical(st) && PassesAlone(st) && e.pos <= |e.image|
  {
    match st
    case LoadAdr(c, reg, name) => Reserve(e, name, reg, c)
    case LdJump(link, c, reg, name) => Emit(Reserve(e, name, reg, c), Encode(JumpCode(link, c, reg)))
    case Label(name) => e.(labels := e.labels[name := Wrap(e.pos + e.offset)])
    case Offset(v) => e.(offset := v)
    case _ => Emit(e, Literal(st, e.pos))
  }

  const DEFAULT_OFFSET := 4096

  function Pass1(prog: seq<Stmt>): (e: Emission)
    requires AllPass(prog)
    ensures e.pos == |e.image|
    decreases |prog|
  {
    if prog == [] then Emission([], 0, DEFAULT_OFFSET, map[], [])
    else Pass1Step(prog[|prog| - 1], Pass1(prog[..|prog| - 1]))
  }

  /** Every check of every statement, label uniqueness included. */
  predicate Checked(prog: seq<Stmt>)
    requires AllPass(prog)
    decreases |prog|
  {
    prog == [] || (Checked(prog[..|prog| - 1]) && Passes(prog[|prog| - 1], Pass1(prog[..|prog| - 1]).labels))
  }

  // ----- second pass -----

  /** The value of a label, 0 when it is missing. */
  function Lookup(t: Labels, name: string): dword {
    if name in t then t[name] else 0
  }

  function HoleCode(cond: nibble, reg: nibble, v: dword): (bs: seq<byte>)
    requires reg <= REG_R7
    ensures |bs| == 8
  {
    EncodeAll(LoadChain(cond, reg, v))
  }

  predicate RefFits(ref: LabelRef, image: seq<byte>) {
    ref.pos + 8 <= |image| && ref.reg <= REG_R7
  }

  predicate RefsFit(refs: seq<LabelRef>, image: seq<byte>) {
    forall i :: 0 <= i < |refs| ==> RefFits(refs[i], image)
  }

  function PatchOne(image: seq<byte>, ref: LabelRef, t: Labels): (r: seq<byte>)
    requires RefFits(ref, image)
    ensures |r| == |image|
  {
    Write(image, ref.pos, HoleCode(ref.cond, ref.reg, Lookup(t, ref.name)))
  }

  /** Filling the holes in the order in which they were reserved. */
  function Patch(image: seq<byte>, refs: seq<LabelRef>, t: Labels): (r: seq<byte>)
    requires RefsFit(refs, image)
    ensures |r| == |image|
    decreases |refs|
  {
    if refs == [] then image
    else PatchOne(Patch(image, refs[..|refs| - 1], t), refs[|refs| - 1], t)
  }

  // ----- one pass with the final table -----

  function Code(st: Stmt, pos: nat, t: Labels): seq<byte>
    requires Grammatical(st) && PassesAlone(st)
  {
    match st
    case LoadAdr(c, reg, name) => HoleCode(c, reg, Lookup(t, name))
    case LdJump(link, c, reg, name) => HoleCode(c, reg, Lookup(t, name)) + Encode(JumpCode(link, c, reg))
    case _ => Literal(st, pos)
  }

  function Direct(prog: seq<Stmt>, t: Labels): seq<byte>
    requires AllPass(prog)
    decreases |prog|
  {
    if prog == [] then []
    else
      var before := Direct(prog[..|prog| - 1], t);
      before + Code(prog[|prog| - 1], |before|, t)
  }

  lemma WriteAppend(image: seq<byte>, p: nat, bs: seq<byte>, more: seq<byte>)
    requires p + |bs| <= |image|
    ensures Write(image + more, p, bs) == Write(image, p, bs) + more
  {
  }

  /** Patching commutes with appending bytes that no reference covers. */
  lemma {:induction false} PatchAppend(image: seq<byte>, refs: seq<LabelRef>, t: Labels, more: seq<byte>)
    requires RefsFit(refs, image)
    ensures RefsFit(refs, image + more) && Patch(image + more, refs, t) == Patch(image, refs, t) + more
    decreases |refs|
  {
    hide HoleCode;
    if refs != [] {
      var rest, last := refs[..|refs| - 1], refs[|refs| - 1];
      PatchAppend(image, rest, t, more);
      WriteAppend(Patch(image, rest, t), last.pos, HoleCode(last.cond, last.reg, Lookup(t, last.name)), more);
    }
  }

  lemma PatchHole(image: seq<byte>, refs: seq<LabelRef>, t: Labels, ref: LabelRef)
    requires RefsFit(refs, image) && ref.pos == |image| && ref.reg <= REG_R7
    ensures RefsFit(refs + [ref], image + Zeros(8))
    ensures Patch(image + Zeros(8), refs + [ref], t) ==
            Patch(image, refs, t) + HoleCode(ref.cond, ref.reg, Lookup(t, ref.name))
  {
    PatchAppend(image, refs, t, Zeros(8));
    assert (refs + [ref])[..|refs + [ref]| - 1] == refs;
  }

  lemma StepPatched(st: Stmt, e: Emission, t: Labels)
    requires Grammatical(st) && PassesAlone(st) && e.pos == |e.image| && RefsFit(e.refs, e.image)
    ensures var e' := Pass1Step(st, e);
            && RefsFit(e'.refs, e'.image) && e'.pos == |e'.image|
            && Patch(e'.image, e'.refs, t) == Patch(e.image, e.refs, t) + Code(st, e.pos, t)
  {
    hide Encode, Literal, Patch, HoleCode, Grammatical;
    match st {
      case LoadAdr(c, reg, name) => PatchHole(e.image, e.refs, t, LabelRef(name, e.pos, reg, c));
      case LdJump(link, c, reg, name) =>
        var ref, jump := LabelRef(name, e.pos, reg, c), Encode(JumpCode(link, c, reg));
        PatchHole(e.image, e.refs, t, ref);
        PatchAppend(e.image + Zeros(8), e.refs + [ref], t, jump);
        assert Pass1Step(st, e).image == e.image + Zeros(8) + jump;
        assert Patch(e.image, e.refs, t) + Code(st, e.pos, t)
            == Patch(e.image, e.refs, t) + HoleCode(c, reg, Lookup(t, name)) + jump;
      case Label(_) => NoBytes(st, e.pos, t);
      case Offset(_) => NoBytes(st, e.pos, t);
      case _ =>
        PatchAppend(e.image, e.refs, t, Literal(st, e.pos));
        assert Pass1Step(st, e).image == e.image + Literal(st, e.pos);
    }
  }

  lemma NoBytes(st: Stmt, pos: nat, t: Labels)
    requires st.Label? || st.Offset?
    ensures Grammatical(st) && PassesAlone(st) && Code(st, pos, t) == []
  {
  }

  /**
   * Reserving holes and patching them with any label table emits exactly what one pass with that table
   * would have emitted.
   */
  lemma {:induction false} TwoPassesAreOne(prog: seq<Stmt>, t: Labels)
    requires AllPass(prog)
    ensures RefsFit(Pass1(prog).refs, Pass1(prog).image)
    ensures Patch(Pass1(prog).image, Pass1(prog).refs, t) == Direct(prog, t)
    decreases |prog|
  {
    hide Code, Pass1Step;
    if prog != [] {
      var rest, st := prog[..|prog| - 1], prog[|prog| - 1];
      TwoPassesAreOne(rest, t);
      StepPatched(st, Pass1(rest), t);
    }
  }

  /** Holes lie below the highest position and are pairwise disjoint, in order. */
  ghost predicate HolesApart(refs: seq<LabelRef>, image: seq<byte>) {
    && (forall i :: 0 <= i < |refs| ==> refs[i].pos + 8 <= |image|)
    && (forall i, j :: 0 <= i < j < |refs| ==> refs[i].pos + 8 <= refs[j].pos)
  }

  lemma StepHoles(st: Stmt, e: Emission)
    requires Grammatical(st) && PassesAlone(st) && e.pos == |e.image| && HolesApart(e.refs, e.image)
    ensures HolesApart(Pass1Step(st, e).refs, Pass1Step(st, e).image)
  {
    hide Literal, Encode;
  }

  lemma {:induction false} Pass1Holes(prog: seq<Stmt>)
    requires AllPass(prog)
    ensures HolesApart(Pass1(prog).refs, Pass1(prog).image)
    decreases |prog|
  {
    hide Pass1Step;
    if prog != [] {
      Pass1Holes(prog[..|prog| - 1]);
      StepHoles(prog[|prog| - 1], Pass1(prog[..|prog| - 1]));
    }
  }

  predicate InHole(refs: seq<LabelRef>, i: nat) {
    exists k :: 0 <= k < |refs| && refs[k].pos <= i < refs[k].pos + 8
  }

  /** Patching changes no byte outside the holes. */
  lemma {:induction false} PatchFrame(image: seq<byte>, refs: seq<LabelRef>, t: Labels, i: nat)
    requires RefsFit(refs, image) && i < |image| && !InHole(refs, i)
    ensures Patch(image, refs, t)[i] == image[i]
    decreases |refs|
  {
    if refs != [] {
      var rest, last := refs[..|refs| - 1], refs[|refs| - 1];
      assert refs[|refs| - 1] == last && (forall k :: 0 <= k < |rest| ==> rest[k] == refs[k]);
      PatchFrame(image, rest, t, i);
    }
  }

  // ----- labels -----

  /** Where statement k of a program starts in the image. */
  function Start(prog: seq<Stmt>, k: nat): nat
    requires AllPass(prog) && k <= |prog|
  {
    |Pass1(prog[..k]).image|
  }

  /** The offset in force before statement k. */
  function OffsetAt(prog: seq<Stmt>, k: nat): dword
    requires AllPass(prog) && k <= |prog|
  {
    Pass1(prog[..k]).offset
  }

  lemma StepLabels(st: Stmt, e: Emission)
    requires Grammatical(st) && PassesAlone(st) && e.pos <= |e.image|
    ensures Pass1Step(st, e).labels ==
            if st.Label? then e.labels[st.name := Wrap(e.pos + e.offset)] else e.labels
  {
    hide Literal, Encode;
  }

  /** In an accepted program each label has, for good, the address of the place where it stands. */
  lemma {:induction false} LabelValue(prog: seq<Stmt>, k: nat)
    requires AllPass(prog) && Checked(prog) && k < |prog| && prog[k].Label?
    ensures prog[k].name in Pass1(prog).labels
    ensures Pass1(prog).labels[prog[k].name] == Wrap(Start(prog, k) + OffsetAt(prog, k))
    decreases |prog|
  {
    hide Pass1Step;
    var rest := prog[..|prog| - 1];
    StepLabels(prog[|prog| - 1], Pass1(rest));
    if k < |rest| {
      LabelValue(rest, k);
      assert rest[..k] == prog[..k];
    }
  }

  /** The code of statement k stands at its start. */
  lemma {:induction false} CodeAt(prog: seq<Stmt>, t: Labels, k: nat)
    requires AllPass(prog) && k < |prog|
    ensures var c := Code(prog[k], Start(prog, k), t);
            Start(prog, k) + |c| <= |Direct(prog, t)| && Direct(prog, t)[Start(prog, k)..Start(prog, k) + |c|] == c
    decreases |prog|
  {
    hide Code, Patch, Pass1;
    var rest, c := prog[..|prog| - 1], Code(prog[k], Start(prog, k), t);
    TwoPassesAreOne(rest, t);
    if k < |rest| {
      CodeAt(rest, t, k);
      assert rest[..k] == prog[..k];
      var s := Start(prog, k);
      SliceOfPrefix(Direct(rest, t), Code(prog[|prog| - 1], |Direct(rest, t)|, t), s, s + |c|);
    } else {
      assert rest == prog[..k];
      SliceOfSuffix(Direct(rest, t), c);
    }
  }

  lemma SliceOfPrefix(x: seq<byte>, y: seq<byte>, a: nat, b: nat)
    requires a <= b <= |x|
    ensures (x + y)[a..b] == x[a..b]
  {
  }

  lemma SliceOfSuffix(x: seq<byte>, y: seq<byte>)
    ensures (x + y)[|x|..|x| + |y|] == y
  {
  }

  // ----- alignment -----

  predicate Aligned(pos: nat, n: nat)
    requires n > 0
  {
    pos % n == 0
  }

  /** The gap that .align fills leads to the least multiple of n that is not below the start. */
  lemma AlignLeast(pos: nat, n: nat)
    requires n > 0
    ensures AlignGap(pos, n) < n && Aligned(pos + AlignGap(pos, n), n)
    ensures forall p :: pos <= p < pos + AlignGap(pos, n) ==> !Aligned(p, n)
  {
    hide AlignGap;
    AlignGapValue(pos, n);
    RemainderAfter(pos, n, AlignGap(pos, n));
    forall p | pos <= p < pos + AlignGap(pos, n)
      ensures !Aligned(p, n)
    {
      RemainderAfter(pos, n, p - pos);
    }
  }

  lemma RemainderAfter(pos: nat, n: nat, k: nat)
    requires n > 0 && pos % n + k <= n
    ensures (pos + k) % n == if pos % n + k == n then 0 else pos % n + k
  {
    var q, r := pos / n, pos % n;
    var qn := q * n;
    assert pos == qn + r;
    if r + k == n {
      assert (q + 1) * n == qn + n;
      DivModUnique(pos + k, n, q + 1, 0);
    } else {
      DivModUnique(pos + k, n, q, r + k);
    }
  }

  lemma AlignGapValue(pos: nat, n: nat)
    requires n > 0
    ensures AlignGap(pos, n) == if pos % n == 0 then 0 else n - pos % n
  {
    if pos % n == 0 {
      DivModUnique(n, n, 1, 0);
    } else {
      DivModUnique(n - pos % n, n, 0, n - pos % n);
    }
  }

  /**
   * .align aligns positions of the image. A label right behind it has an aligned address exactly when the offset
   * in force is a multiple of n too.
   */
  lemma AlignedLabel(prog: seq<Stmt>, k: nat)
    requires AllPass(prog) && Checked(prog) && k + 1 < |prog| && prog[k].Align? && prog[k + 1].Label?
    requires Start(prog, k + 1) + OffsetAt(prog, k + 1) < DWORD_MODULUS
    ensures prog[k].n > 0 && prog[k + 1].name in Pass1(prog).labels
    ensures Aligned(Start(prog, k + 1), prog[k].n)
    ensures Pass1(prog).labels[prog[k + 1].name] % prog[k].n == 0 <==> OffsetAt(prog, k + 1) % prog[k].n == 0
  {
    hide Pass1, Checked, AlignGap, Passes;
    assert Grammatical(prog[k]);
    var start, offset, n := Start(prog, k + 1), OffsetAt(prog, k + 1), prog[k].n;
    AlignedStart(prog, k);
    LabelValue(prog, k + 1);
    DivModUnique(start + offset, DWORD_MODULUS, 0, start + offset);
    ModSum(start, offset, n);
  }

  lemma AlignedStart(prog: seq<Stmt>, k: nat)
    requires AllPass(prog) && k < |prog| && prog[k].Align? && prog[k].n > 0
    ensures Aligned(Start(prog, k + 1), prog[k].n)
  {
    assert prog[..k + 1][..k] == prog[..k] && prog[..k + 1][k] == prog[k];
    AlignLeast(Start(prog, k), prog[k].n);
    hide AlignGap;
  }
}
