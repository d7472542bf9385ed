/** The assembler itself: grammar actions on an emit context, label resolution, and the main program. */
module Vasm {
  import opened Words
  import opened Isa
  import opened Encoding
  import opened Storage
  import opened Machine
  import opened Syntax
  import opened Emitter
  import opened Assembly

  /** Whether k bytes from p stay inside one allocation block. */
  predicate Unsplit(p: nat, k: nat) {
    p % BLOCK + k <= BLOCK
  }

  /** No single emission of the statement straddles two allocation blocks. */
  predicate BlockClean(st: Stmt, pos: nat) {
    match st
    case LoadAdr(_, _, _) => Unsplit(pos, 8)
    case LdJump(_, _, _, _) => Unsplit(pos, 8) && Unsplit(pos + 8, 4)
    case Load32(_, reg, _) =>
      && Unsplit(pos, 4) && Unsplit(pos + 4, 4)
      && (reg > REG_R7 ==> Unsplit(pos + 8, 4) && Unsplit(pos + 12, 4))
    case Instruction(_) => Unsplit(pos, 4)
    case Push(_, _) => Unsplit(pos, 4)
    case Pop(_, _) => Unsplit(pos, 4)
    case _ => true
  }

  /** The image stays a block below 4 GiB. */
  predicate Small(n: nat) {
    n + BLOCK < DWORD_MODULUS
  }

  /** A buffer in the first pass: everything emitted lies below the position. */
  ghost predicate Ready(ctx: EmitContext)
    reads ctx, ctx.buf
  {
    ctx.Valid() && ctx.pos == ctx.highestPos
  }

  lemma RoomHere(ctx: EmitContext, k: nat)
    requires Ready(ctx) && 0 < k && Small(ctx.pos) && (!ctx.fixedLength ==> Unsplit(ctx.pos, k))
    ensures ctx.Room(k)
  {
    if !ctx.fixedLength && Exceeds(ctx.pos, k, ctx.size) && ctx.pos < ctx.size {
      BlockAbove(ctx.pos, ctx.size);
      assert false;
    }
  }

  lemma BlockAbove(pos: nat, size: nat)
    requires pos < size && size % BLOCK == 0
    ensures pos - pos % BLOCK + BLOCK <= size
  {
    assert pos / BLOCK < size / BLOCK;
  }

  lemma ReadyModel(ctx: EmitContext)
    requires ctx.Valid()
    ensures Ready(ctx) <==> ctx.Model().pos == |ctx.Model().image|
  {
  }

  /** What an action promises of the context it leaves. */
  twostate predicate Sustained(ctx: EmitContext)
    reads ctx, ctx.buf
  {
    && ctx.Valid()
    && (ctx.fixedLength ==> ctx.size == old(ctx.size))
    && (ctx.buf == old(ctx.buf) || fresh(ctx.buf))
  }

  method CheckIfValid12Bit(v: word) returns (ok: bool)
    ensures ok <==> v < 0x1000
  {
    HighDigit(v);
    ok := !(And(v, 0xF000) != 0);
  }

  lemma HighDigit(v: word)
    ensures And(v, 0xF000) == v / 0x1000 * 0x1000
  {
    Pow2Values();
    hide Bitwise, Pow2;
    ClearLow(4, 12, v / 0x1000, v % 0x1000);
  }

  /** The grammar actions of the machine instructions; ok is false where the assembler exits. */
  method EmitInstruction(src: Source, ctx: EmitContext) returns (ok: bool)
    requires WellFormed(src) && ctx.Valid() && ctx.Room(4)
    modifies ctx, ctx.buf
    ensures Sustained(ctx)
    ensures ok <==> InRange(src) && old(ctx.Accepts(4))
    ensures ok ==> ctx.Model() == Emit(old(ctx.Model()), Encode(src))
  {
    hide Emit, FormatII, FormatIII, FormatIV;
    match src {
      case Bare(op, c) => ok := ctx.EmitFmtI(PREFIX_DWORD, c, op);
      case Binary(op, c, dst, a, Reg(r)) => ok := ctx.EmitFmtII(PREFIX_DWORD, c, op, dst, a, r);
      case Binary(op, c, dst, a, Imm(v)) =>
        ok := CheckIfValid12Bit(v);
        if ok {
          ok := ctx.EmitFmtIII(PREFIX_IMM, c, op, dst, a, v);
        }
      case Many(op, c, base, range) => ok := ctx.EmitFmtIV(PREFIX_IMM, c, op, base, range);
      case Single(op, c, Reg(r)) => ok := ctx.EmitFmtV(PREFIX_DWORD, c, op, r);
      case Single(op, c, Imm(v)) => ok := ctx.EmitFmtVIII(PREFIX_IMM, c, op, v);
      case Pair(op, c, a, r) => ok := ctx.EmitFmtVI(PREFIX_DWORD, c, op, a, r);
      case CompareWith(c, a, v) =>
        ok := CheckIfValid12Bit(v);
        if ok {
          ok := ctx.EmitFmtVII(PREFIX_IMM, c, OP_CMP, a, v);
        }
      case MoveToControl(c, cr, a) => ok := ctx.EmitFmtVI(PREFIX_DWORD, c, OP_MOVTC, cr, a);
      case MoveFromControl(c, a, cr) => ok := ctx.EmitFmtVI(PREFIX_DWORD, c, OP_MOVFC, a, cr);
      case Signal(op, c, v) => ok := ctx.EmitFmtVIII(PREFIX_IMM, c, op, v);
      case CmpXchg(c, dst, a, r) => ok := ctx.EmitFmtII(PREFIX_DWORD, c, OP_CMPXCHG, dst, a, r);
      case LoadI(_, _, _, _) => ok := EmitSized(src, ctx);
      case LoadId(_, _, _, _, _) => ok := EmitSized(src, ctx);
      case LoadRd(_, _, _, _, _) => ok := EmitSized(src, ctx);
      case Mov(_, _, _, _) => ok := EmitSized(src, ctx);
      case Sex(_, _, _, _) => ok := EmitSized(src, ctx);
      case StoreId(_, _, _, _, _) => ok := EmitSized(src, ctx);
      case StoreRd(_, _, _, _, _) => ok := EmitSized(src, ctx);
      case XchgC(_, _, _) => ok := EmitSized(src, ctx);
      case System(op, c, a) => ok := ctx.EmitFmtV(PREFIX_DWORD, COND_ALWAYS, op, a);
    }
  }

  /** The actions of the mnemonics that have productions of their own, by operand size and condition. */
  method EmitSized(src: Source, ctx: EmitContext) returns (ok: bool)
    requires src.LoadI? || src.LoadId? || src.LoadRd? || src.Mov? || src.Sex? || src.StoreId? || src.StoreRd? || src.XchgC?
    requires WellFormed(src) && ctx.Valid() && ctx.Room(4)
    modifies ctx, ctx.buf
    ensures Sustained(ctx)
    ensures ok <==> InRange(src) && old(ctx.Accepts(4))
    ensures ok ==> ctx.Model() == Emit(old(ctx.Model()), Encode(src))
  {
    hide Emit, FormatII, FormatIII, FormatIV;
    match src {
      case LoadI(size, c, sub, v) => ok := ctx.EmitFmtIV(SizePrefix(size), c, OP_LOADI, sub, v);
      case LoadId(size, c, sub, base, v) =>
        ok := CheckIfValid12Bit(v);
        if ok {
          ok := ctx.EmitFmtIII(SizePrefix(size), c, OP_LOADID, sub, base, v);
        }
      case LoadRd(size, c, sub, base, off) =>
        if size == Word && c != COND_ALWAYS {
          ok := ctx.EmitFmtII(PREFIX_WORD, c, OP_LOADRD, 0, base, 0);
        } else {
          ok := ctx.EmitFmtII(SizePrefix(size), c, OP_LOADRD, sub, base, off);
        }
      case Mov(size, c, a, r) => ok := ctx.EmitFmtVI(SizePrefix(size), c, OP_MOV, a, r);
      case Sex(size, c, a, sub) => ok := ctx.EmitFmtVI(SizePrefix(size), c, OP_SEX, a, sub);
      case StoreId(size, c, base, sub, v) =>
        ok := CheckIfValid12Bit(v);
        if ok {
          ok := ctx.EmitFmtIII(SizePrefix(size), c, OP_STOREID, base, sub, v);
        }
      case StoreRd(size, c, base, sub, off) => ok := ctx.EmitFmtII(SizePrefix(size), c, OP_STORERD, base, sub, off);
      case XchgC(c, a, cr) =>
        if c == COND_ALWAYS {
          ok := ctx.EmitFmtVI(PREFIX_DWORD, c, OP_XCHGC, a, cr);
        } else {
          ok := ctx.EmitFmtVI(PREFIX_DWORD, c, OP_XCHGC, a, CREG_MR1);
        }
    }
  }

  // ----- pseudo-instructions -----

  /** Emitting twice at the end of an image is emitting the concatenation. */
  lemma EmitTwice(e: Emission, a: seq<byte>, b: seq<byte>)
    requires e.pos == |e.image|
    ensures Emit(Emit(e, a), b) == Emit(e, a + b)
  {
    assert e.image + a + b == e.image + (a + b);
  }

  lemma EncodeTwo(x: Source, y: Source)
    requires InRange(x) && InRange(y)
    ensures AllInRange([x, y]) && EncodeAll([x, y]) == Encode(x) + Encode(y)
  {
    hide Encode, InRange;
    assert [x, y][..1] == [x] && [x][..0] == [];
    assert EncodeAll([x]) == Encode(x);
  }

  lemma EncodeFour(x: Source, y: Source, z: Source, w: Source)
    requires InRange(x) && InRange(y) && InRange(z) && InRange(w)
    ensures AllInRange([x, y, z, w])
    ensures EncodeAll([x, y, z, w]) == Encode(x) + Encode(y) + Encode(z) + Encode(w)
  {
    hide Encode, InRange;
    EncodeTwo(x, y);
    assert [x, y, z, w][..3] == [x, y, z] && [x, y, z][..2] == [x, y];
    assert EncodeAll([x, y, z]) == EncodeAll([x, y]) + Encode(z);
  }

  /** Two LOADI actions in a row; in the second pass they fill a hole. */
  method EmitLoadChain(c: nibble, reg: nibble, v: dword, ctx: EmitContext) returns (ok: bool)
    requires reg <= REG_R7 && ctx.Valid() && ctx.Room(4) && Small(ctx.pos + 4)
    requires ctx.pos == ctx.highestPos && !ctx.fixedLength ==> Unsplit(ctx.pos, 4) && Unsplit(ctx.pos + 4, 4)
    requires ctx.pos < ctx.highestPos ==> ctx.pos + 8 <= ctx.highestPos
    modifies ctx, ctx.buf
    ensures Sustained(ctx)
    ensures ok <==> old(ctx.Accepts(8))
    ensures ok ==> ctx.Model() == Emit(old(ctx.Model()), HoleCode(c, reg, v))
  {
    hide Emit, Encode;
    ghost var e := ctx.Model();
    var low, high := LoadI(Word, c, 2 * reg, v % 0x1_0000), LoadI(Word, c, 2 * reg + 1, v / 0x1_0000);
    EncodeTwo(low, high);
    EmitPair(e, Encode(low), Encode(high));
    LoadIFormat(c, reg, v);
    ok := ctx.EmitFmtIV(PREFIX_WORD, c, OP_LOADI, 2 * reg, v % 0x1_0000);
    if ok {
      EmitMoves(e, Encode(low));
      SecondRoom(ctx);
      ok := ctx.EmitFmtIV(PREFIX_WORD, c, OP_LOADI, 2 * reg + 1, v / 0x1_0000);
    }
  }

  lemma LoadIFormat(c: nibble, reg: nibble, v: dword)
    requires reg <= REG_R7
    ensures Encode(LoadI(Word, c, 2 * reg, v % 0x1_0000)) == FormatIV(PREFIX_WORD, c, OP_LOADI, 2 * reg, v % 0x1_0000)
    ensures Encode(LoadI(Word, c, 2 * reg + 1, v / 0x1_0000))
         == FormatIV(PREFIX_WORD, c, OP_LOADI, 2 * reg + 1, v / 0x1_0000)
  {
  }

  lemma EmitMoves(e: Emission, bs: seq<byte>)
    requires e.pos <= |e.image|
    ensures Emit(e, bs).pos == e.pos + |bs|
    ensures |Emit(e, bs).image| == if e.pos + |bs| <= |e.image| then |e.image| else e.pos + |bs|
  {
  }

  lemma EmitPair(e: Emission, a: seq<byte>, b: seq<byte>)
    requires e.pos == |e.image| || e.pos + |a| + |b| <= |e.image|
    ensures e.pos + |a| <= |Emit(e, a).image|
    ensures Emit(Emit(e, a), b) == Emit(e, a + b)
  {
    if e.pos == |e.image| {
      EmitTwice(e, a, b);
    } else {
      assert Write(Write(e.image, e.pos, a), e.pos + |a|, b) == Write(e.image, e.pos, a + b);
    }
  }

  lemma SecondRoom(ctx: EmitContext)
    requires ctx.Valid() && Small(ctx.pos)
    requires ctx.pos < ctx.highestPos ==> ctx.pos + 4 <= ctx.highestPos
    requires ctx.pos == ctx.highestPos && !ctx.fixedLength ==> Unsplit(ctx.pos, 4)
    ensures ctx.Room(4)
  {
    if ctx.pos == ctx.highestPos {
      RoomHere(ctx, 4);
    }
  }

  method LoadAdrAction(c: nibble, reg: nibble, name: string, ctx: EmitContext) returns (ok: bool)
    requires Ready(ctx) && Small(ctx.pos) && (!ctx.fixedLength ==> BlockClean(LoadAdr(c, reg, name), ctx.pos))
    modifies ctx, ctx.buf
    ensures Sustained(ctx)
    ensures ok <==> reg <= REG_R7 && old(ctx.Accepts(8))
    ensures ok ==> Ready(ctx) && ctx.Model() == Reserve(old(ctx.Model()), name, reg, c)
  {
    if reg > REG_R7 {
      return false;
    }
    RoomHere(ctx, 8);
    ok := ctx.EmitLabelRef(name, reg, c);
    ReadyModel(ctx);
  }

  method LdJumpAction(link: bool, c: nibble, reg: nibble, name: string, ctx: EmitContext) returns (ok: bool)
    requires Ready(ctx) && Small(ctx.pos + 8) && (!ctx.fixedLength ==> BlockClean(LdJump(link, c, reg, name), ctx.pos))
    modifies ctx, ctx.buf
    ensures Sustained(ctx)
    ensures ok <==> reg <= REG_R7 && old(ctx.Accepts(12))
    ensures ok ==> Ready(ctx) &&
                   ctx.Model() == Emit(Reserve(old(ctx.Model()), name, reg, c), Encode(JumpCode(link, c, reg)))
  {
    if reg > REG_R7 {
      return false;
    }
    RoomHere(ctx, 8);
    ok := ctx.EmitLabelRef(name, reg, c);
    if ok {
      ReadyModel(ctx);
      EmitMoves(ctx.Model(), Encode(JumpCode(link, c, reg)));
      RoomHere(ctx, 4);
      hide Emit, Reserve;
      ok := ctx.EmitFmtV(PREFIX_DWORD, c, if link then OP_CALL else OP_JMP, reg);
      ReadyModel(ctx);
    }
  }

  lemma PushPopFormat(op: opcode, c: nibble, reg: nibble)
    ensures Encode(Many(op, c, REG_SP, reg * 0x10 + reg)) == FormatIV(PREFIX_IMM, c, op, REG_SP, reg * 0x10 + reg)
  {
  }

  method PushPopAction(op: opcode, c: nibble, reg: nibble, ctx: EmitContext) returns (ok: bool)
    requires (op == OP_STOREMA || op == OP_LOADMA)
    requires Ready(ctx) && Small(ctx.pos) && (!ctx.fixedLength ==> Unsplit(ctx.pos, 4))
    modifies ctx, ctx.buf
    ensures Sustained(ctx)
    ensures ok <==> old(ctx.Accepts(4))
    ensures ok ==> ctx.Model() == Emit(old(ctx.Model()), Encode(Many(op, c, REG_SP, reg * 0x10 + reg)))
  {
    hide Emit, Encode, FormatIV, PackNibbles;
    RoomHere(ctx, 4);
    PushPopFormat(op, c, reg);
    var imm: byte := PackNibbles(reg, reg);
    ok := ctx.EmitFmtIV(PREFIX_IMM, c, op, REG_SP, imm);
  }

  method Load32Action(c: nibble, reg: nibble, v: dword, ctx: EmitContext) returns (ok: bool)
    requires Ready(ctx) && Small(ctx.pos + 12) && (!ctx.fixedLength ==> BlockClean(Load32(c, reg, v), ctx.pos))
    modifies ctx, ctx.buf
    ensures Sustained(ctx) && AllInRange(Load32Code(c, reg, v))
    ensures ok <==> old(ctx.Accepts(4 * |Load32Code(c, reg, v)|))
    ensures ok ==> ctx.Model() == Emit(old(ctx.Model()), EncodeAll(Load32Code(c, reg, v)))
  {
    RoomHere(ctx, 4);
    if reg <= REG_R7 {
      hide Emit;
      ok := EmitLoadChain(c, reg, v, ctx);
    } else {
      ok := Load32Detour(c, reg, v, ctx);
    }
  }

  /** LOAD32 of a register without 16-bit parts: an XCHG with R7 on either side of the two loads. */
  method Load32Detour(c: nibble, reg: nibble, v: dword, ctx: EmitContext) returns (ok: bool)
    requires reg > REG_R7 && Ready(ctx) && Small(ctx.pos + 12)
    requires !ctx.fixedLength ==> BlockClean(Load32(c, reg, v), ctx.pos)
    modifies ctx, ctx.buf
    ensures Sustained(ctx) && AllInRange(Load32Code(c, reg, v))
    ensures ok <==> old(ctx.Accepts(16))
    ensures ok ==> ctx.Model() == Emit(old(ctx.Model()), EncodeAll(Load32Code(c, reg, v)))
  {
    hide Encode, Emit;
    ghost var e, swap, chain := ctx.Model(), Encode(Pair(OP_XCHG, c, REG_R7, reg)), HoleCode(c, REG_R7, v);
    Load32Bytes(c, reg, v, e);
    EmitMoves(e, swap);
    EmitMoves(Emit(e, swap), chain);
    SwapFormat(c, reg);
    RoomHere(ctx, 4);
    ok := ctx.EmitFmtVI(PREFIX_DWORD, c, OP_XCHG, REG_R7, reg);
    if ok {
      RoomHere(ctx, 4);
      ok := EmitLoadChain(c, REG_R7, v, ctx);
    }
    if ok {
      RoomHere(ctx, 4);
      ok := ctx.EmitFmtVI(PREFIX_DWORD, c, OP_XCHG, REG_R7, reg);
    }
  }

  lemma SwapFormat(c: nibble, reg: nibble)
    ensures Encode(Pair(OP_XCHG, c, REG_R7, reg)) == FormatII(PREFIX_DWORD, c, OP_XCHG, 0, REG_R7, reg)
  {
  }

  lemma Load32Bytes(c: nibble, reg: nibble, v: dword, e: Emission)
    requires reg > REG_R7 && e.pos == |e.image|
    ensures AllInRange(Load32Code(c, reg, v)) && |Load32Code(c, reg, v)| == 4
    ensures var swap := Encode(Pair(OP_XCHG, c, REG_R7, reg));
            Emit(Emit(Emit(e, swap), HoleCode(c, REG_R7, v)), swap) == Emit(e, EncodeAll(Load32Code(c, reg, v)))
  {
    hide Encode;
    var x, chain := Pair(OP_XCHG, c, REG_R7, reg), LoadChain(c, REG_R7, v);
    var swap, hole := Encode(x), HoleCode(c, REG_R7, v);
    assert Load32Code(c, reg, v) == [x, chain[0], chain[1], x];
    EncodeFour(x, chain[0], chain[1], x);
    EncodeTwo(chain[0], chain[1]);
    assert chain == [chain[0], chain[1]];
    assert EncodeAll(Load32Code(c, reg, v)) == swap + hole + swap;
    EmitTwice(e, swap, hole);
    EmitTwice(e, swap + hole, swap);
  }

  // ----- directives -----

  /** Emits a run of bytes one at a time. */
  method EmitBytes(bs: seq<byte>, ctx: EmitContext) returns (ok: bool)
    requires Ready(ctx) && Small(ctx.pos + |bs|)
    modifies ctx, ctx.buf
    ensures Sustained(ctx)
    ensures ok <==> old(ctx.Accepts(|bs|))
    ensures ok ==> Ready(ctx) && ctx.Model() == Emit(old(ctx.Model()), bs)
  {
    ghost var e := ctx.Model();
    assert Emit(e, bs[..0]) == e;
    for k := 0 to |bs|
      invariant Ready(ctx) && (ctx.fixedLength ==> ctx.size == old(ctx.size))
      invariant ctx.buf == old(ctx.buf) || fresh(ctx.buf)
      invariant ctx.Model() == Emit(e, bs[..k])
    {
      RoomHere(ctx, 1);
      ok := ctx.EmitByte(bs[k]);
      if !ok {
        return;
      }
      EmitTwice(e, bs[..k], [bs[k]]);
      EmitMoves(e, bs[..k + 1]);
      ReadyModel(ctx);
      assert bs[..k] + [bs[k]] == bs[..k + 1];
    }
    assert bs[..|bs|] == bs;
    ok := true;
  }

  /** Emits the constants of a .bytes block one at a time, up to the first that is not a byte. */
  method EmitChecked(bs: seq<word>, ctx: EmitContext) returns (ok: bool)
    requires Ready(ctx) && Small(ctx.pos + |bs|)
    modifies ctx, ctx.buf
    ensures Sustained(ctx)
    ensures ok <==> AllBytes(bs) && old(ctx.Accepts(|bs|))
    ensures ok ==> Ready(ctx) && ctx.Model() == Emit(old(ctx.Model()), Narrow(bs))
  {
    ghost var e := ctx.Model();
    assert Emit(e, Narrow(bs[..0])) == e;
    for k := 0 to |bs|
      invariant Ready(ctx) && (ctx.fixedLength ==> ctx.size == old(ctx.size))
      invariant ctx.buf == old(ctx.buf) || fresh(ctx.buf)
      invariant AllBytes(bs[..k]) && ctx.Model() == Emit(e, Narrow(bs[..k]))
    {
      if bs[k] > 0xFF {
        return false;
      }
      RoomHere(ctx, 1);
      ok := ctx.EmitByte(bs[k]);
      if !ok {
        return;
      }
      EmitTwice(e, Narrow(bs[..k]), [bs[k]]);
      EmitMoves(e, Narrow(bs[..k + 1]));
      ReadyModel(ctx);
      assert Narrow(bs[..k]) + [bs[k]] == Narrow(bs[..k + 1]);
    }
    assert bs[..|bs|] == bs;
    ok := true;
  }

  lemma EmitNothing(e: Emission, b: byte)
    requires e.pos == |e.image|
    ensures Emit(e, Repeat(b, 0)) == e
  {
    assert e.image[..e.pos] + Repeat(b, 0) == e.image;
  }

  lemma RepeatMore(b: byte, k: nat)
    requires k > 0
    ensures Repeat(b, k) == Repeat(b, k - 1) + [b]
  {
  }

  /** The .align loop: fill bytes until the position is a multiple of n. */
  method AlignAction(n: word, fill: word, ctx: EmitContext) returns (ok: bool)
    requires n > 0 && Ready(ctx) && Small(ctx.pos + n)
    modifies ctx, ctx.buf
    ensures Sustained(ctx)
    ensures ok <==> old(ctx.Accepts(AlignGap(ctx.pos, n)))
    ensures ok ==> Ready(ctx) && ctx.Model() == Emit(old(ctx.Model()), Repeat(fill % 0x100, AlignGap(old(ctx.pos), n)))
    ensures ok ==> Aligned(ctx.pos, n)
  {
    hide AlignGap, Emit;
    ghost var e, start, gap := ctx.Model(), ctx.pos, AlignGap(ctx.pos, n);
    AlignLeast(start, n);
    ghost var k := 0;
    EmitNothing(e, fill % 0x100);
    while ctx.pos % n != 0
      invariant Ready(ctx) && (ctx.fixedLength ==> ctx.size == old(ctx.size))
      invariant ctx.buf == old(ctx.buf) || fresh(ctx.buf)
      invariant k <= gap && ctx.pos == start + k && ctx.Model() == Emit(e, Repeat(fill % 0x100, k))
      decreases gap - k
    {
      assert !Aligned(ctx.pos, n);
      RoomHere(ctx, 1);
      ok := ctx.EmitByte(fill % 0x100);
      if !ok {
        return;
      }
      EmitTwice(e, Repeat(fill % 0x100, k), [fill % 0x100]);
      k := k + 1;
      RepeatMore(fill % 0x100, k);
      EmitMoves(e, Repeat(fill % 0x100, k));
      ReadyModel(ctx);
    }
    assert Aligned(start + k, n);
    ok := true;
  }

  // ----- whole programs -----

  /** There is room for any one action of bounded length below 4 GiB. */
  predicate Roomy(n: nat) {
    n + 0x2_0000 < DWORD_MODULUS
  }

  /** There is room for a statement below 4 GiB. */
  predicate RoomyFor(st: Stmt, n: nat) {
    Roomy(if st.DataBytes? then n + |st.bs| else n)
  }

  predicate Follows(ctx: EmitContext, st: Stmt, e: Emission)
    requires Grammatical(st) && PassesAlone(st) && e.pos <= |e.image|
    reads ctx
  {
    ctx.fixedLength ==> |Pass1Step(st, e).image| <= ctx.size
  }

  /** One statement: its checks, then what the first pass emits for it. */
  method Action(st: Stmt, ctx: EmitContext) returns (ok: bool)
    requires Grammatical(st) && Ready(ctx) && RoomyFor(st, ctx.pos) && (!ctx.fixedLength ==> BlockClean(st, ctx.pos))
    modifies ctx, ctx.buf
    ensures Sustained(ctx)
    ensures ok <==> Passes(st, old(ctx.labels)) && old(Follows(ctx, st, ctx.Model()))
    ensures ok ==> Ready(ctx) && ctx.Model() == Pass1Step(st, old(ctx.Model()))
  {
    hide Emit, Encode, EncodeAll, AlignGap;
    ghost var e := ctx.Model();
    match st {
      case LoadAdr(c, reg, name) =>
        ok := LoadAdrAction(c, reg, name, ctx);
      case LdJump(link, c, reg, name) =>
        ok := LdJumpAction(link, c, reg, name, ctx);
        if reg <= REG_R7 {
          EmitMoves(Reserve(e, name, reg, c), Encode(JumpCode(link, c, reg)));
        }
      case Label(name) => ok := ctx.EmitLabel(name);
      case Offset(v) =>
        ctx.offset := v;
        ok := true;
      case _ =>
        ok := LiteralAction(st, ctx);
    }
  }

  method LiteralAction(st: Stmt, ctx: EmitContext) returns (ok: bool)
    requires !st.LoadAdr? && !st.LdJump? && !st.Label? && !st.Offset?
    requires Grammatical(st) && Ready(ctx) && RoomyFor(st, ctx.pos) && (!ctx.fixedLength ==> BlockClean(st, ctx.pos))
    modifies ctx, ctx.buf
    ensures Sustained(ctx)
    ensures ok <==> PassesAlone(st) && old(Follows(ctx, st, ctx.Model()))
    ensures ok ==> Ready(ctx) && ctx.Model() == Emit(old(ctx.Model()), Literal(st, old(ctx.pos)))
  {
    hide Emit, Encode, EncodeAll, AlignGap;
    ghost var e := ctx.Model();
    if PassesAlone(st) {
      EmitMoves(e, Literal(st, e.pos));
    }
    match st {
      case Instruction(src) =>
        RoomHere(ctx, 4);
        ok := EmitInstruction(src, ctx);
      case Push(c, reg) => ok := PushPopAction(OP_STOREMA, c, reg, ctx);
      case Pop(c, reg) => ok := PushPopAction(OP_LOADMA, c, reg, ctx);
      case Load32(c, reg, v) => ok := Load32Action(c, reg, v, ctx);
      case Align(n, fill) => ok := AlignAction(n, fill, ctx);
      case DataByte(_) => ok := DataAction(st, ctx);
      case DataBytes(_) => ok := DataAction(st, ctx);
      case DataWord(_) => ok := DataAction(st, ctx);
      case DataDword(_) => ok := DataAction(st, ctx);
    }
    ReadyModel(ctx);
  }

  /** The data directives: bytes one at a time, least significant first. */
  method DataAction(st: Stmt, ctx: EmitContext) returns (ok: bool)
    requires st.DataByte? || st.DataBytes? || st.DataWord? || st.DataDword?
    requires Ready(ctx) && RoomyFor(st, ctx.pos)
    modifies ctx, ctx.buf
    ensures Sustained(ctx)
    ensures ok <==> PassesAlone(st) && old(Follows(ctx, st, ctx.Model()))
    ensures ok ==> Ready(ctx) && ctx.Model() == Emit(old(ctx.Model()), Literal(st, old(ctx.pos)))
  {
    hide Emit;
    ghost var e := ctx.Model();
    if PassesAlone(st) {
      EmitMoves(e, Literal(st, e.pos));
    }
    match st {
      case DataByte(b) =>
        if b > 0xFF {
          return false;
        }
        ok := EmitBytes([b], ctx);
      case DataBytes(bs) => ok := EmitChecked(bs, ctx);
      case DataWord(w) => ok := EmitBytes([w % 0x100, w / 0x100 % 0x100], ctx);
      case DataDword(d) =>
        ok := EmitBytes([d % 0x100, d / 0x100 % 0x100, d / 0x1_0000 % 0x100, d / 0x100_0000], ctx);
    }
  }

  predicate Resolvable(refs: seq<LabelRef>, t: Labels) {
    forall i :: 0 <= i < |refs| ==> refs[i].name in t
  }

  /** Looks a name up, rewinds the position to its hole, and fills the hole. */
  method ResolveReference(ref: LabelRef, ctx: EmitContext) returns (ok: bool)
    requires ctx.Valid() && RefFits(ref, ctx.Model().image) && Roomy(ctx.highestPos)
    modifies ctx, ctx.buf
    ensures Sustained(ctx) && ctx.labels == old(ctx.labels)
    ensures ok <==> ref.name in ctx.labels
    ensures ok ==> ctx.Model().image == PatchOne(old(ctx.Model().image), ref, ctx.labels)
  {
    hide Emit, HoleCode;
    var val := ctx.EmitLabelRes(ref.name);
    if val.None? {
      return false;
    }
    ctx.pos := ref.pos;
    ghost var e := ctx.Model();
    ok := EmitLoadChain(ref.cond, ref.reg, val.value, ctx);
    EmitInside(e, HoleCode(ref.cond, ref.reg, val.value));
  }

  /** Walks the reference list and fills each hole. */
  method LabelResolution(ctx: EmitContext) returns (ok: bool)
    requires ctx.Valid() && RefsFit(ctx.labelrefs, ctx.Model().image) && Roomy(ctx.highestPos)
    modifies ctx, ctx.buf
    ensures Sustained(ctx)
    ensures ok <==> Resolvable(old(ctx.labelrefs), old(ctx.labels))
    ensures ok ==> ctx.Model().image == Patch(old(ctx.Model().image), old(ctx.labelrefs), old(ctx.labels))
  {
    hide Emit, HoleCode;
    ghost var image := ctx.Model().image;
    var refs := ctx.labelrefs;
    for k := 0 to |refs|
      invariant ctx.Valid() && ctx.highestPos == |image| && ctx.labels == old(ctx.labels)
      invariant ctx.fixedLength ==> ctx.size == old(ctx.size)
      invariant ctx.buf == old(ctx.buf) || fresh(ctx.buf)
      invariant Resolvable(refs[..k], ctx.labels) && RefsFit(refs[..k], image)
      invariant ctx.Model().image == Patch(image, refs[..k], ctx.labels)
    {
      ok := ResolveReference(refs[k], ctx);
      if !ok {
        return;
      }
      assert refs[..k + 1][..k] == refs[..k];
    }
    assert refs[..|refs|] == refs;
    ok := true;
  }

  lemma EmitInside(e: Emission, bs: seq<byte>)
    requires e.pos + |bs| <= |e.image|
    ensures Emit(e, bs) == e.(image := Write(e.image, e.pos, bs), pos := e.pos + |bs|)
  {
  }

  /** A program that assembles: every check passes and every referenced label exists. */
  predicate Accepted(prog: seq<Stmt>) {
    AllPass(prog) && Checked(prog) && Resolvable(Pass1(prog).refs, Pass1(prog).labels)
  }

  /** Every statement that is reached starts low enough and, in a growing buffer, emits inside blocks. */
  predicate WellPlaced(prog: seq<Stmt>, fixedLength: bool) {
    forall k :: 0 <= k <= |prog| && AllPass(prog[..k]) ==>
      var start := Start(prog[..k], k);
      && Roomy(start)
      && (k < |prog| ==> RoomyFor(prog[k], start) && (!fixedLength ==> BlockClean(prog[k], start)))
  }

  lemma PrefixAccepted(prog: seq<Stmt>, k: nat)
    requires k <= |prog| && AllPass(prog)
    ensures AllPass(prog[..k]) && |Pass1(prog[..k]).image| <= |Pass1(prog).image|
    ensures Checked(prog) ==> Checked(prog[..k])
    decreases |prog|
  {
    hide Pass1Step;
    if k < |prog| {
      var rest := prog[..|prog| - 1];
      PrefixAccepted(rest, k);
      assert rest[..k] == prog[..k];
      StepGrows(prog[|prog| - 1], Pass1(rest));
    } else {
      assert prog[..k] == prog;
    }
  }

  lemma StepGrows(st: Stmt, e: Emission)
    requires Grammatical(st) && PassesAlone(st) && e.pos == |e.image|
    ensures |Pass1Step(st, e).image| >= |e.image|
  {
    hide Literal, Encode;
  }

  lemma PrefixStep(prog: seq<Stmt>, k: nat)
    requires k < |prog| && AllPass(prog[..k])
    ensures AllPass(prog[..k + 1]) <==> Grammatical(prog[k]) && PassesAlone(prog[k])
    ensures AllPass(prog[..k + 1]) ==> Pass1(prog[..k + 1]) == Pass1Step(prog[k], Pass1(prog[..k]))
    ensures AllPass(prog[..k + 1]) ==>
              (Checked(prog[..k + 1]) <==> Checked(prog[..k]) && Passes(prog[k], Pass1(prog[..k]).labels))
  {
    hide Pass1Step;
    assert prog[..k + 1][..k] == prog[..k];
    assert forall i :: 0 <= i < k ==> prog[..k + 1][i] == prog[..k][i];
  }

  /**
   * The main program on a parsed input: both passes over one context. It yields the image that a single
   * pass with the final label table would emit, or nothing where the assembler reports an error.
   */
  method Assemble(prog: seq<Stmt>, fixedLength: bool, bufferSize: nat) returns (r: Option<seq<byte>>)
    requires GrammaticalProgram(prog) && WellPlaced(prog, fixedLength)
    requires if fixedLength then bufferSize < DWORD_MODULUS else bufferSize == BLOCK
    ensures r.Some? <==> Accepted(prog) && (fixedLength ==> |Pass1(prog).image| <= bufferSize)
    ensures r.Some? ==> r.value == Direct(prog, Pass1(prog).labels)
  {
    hide Pass1Step, Patch, Direct, BlockClean;
    var ctx := new EmitContext(bufferSize, fixedLength);
    ctx.offset := DEFAULT_OFFSET;
    for k := 0 to |prog|
      invariant fresh(ctx) && fresh(ctx.buf) && Ready(ctx)
      invariant ctx.fixedLength == fixedLength && (fixedLength ==> ctx.size == bufferSize)
      invariant AllPass(prog[..k]) && Checked(prog[..k])
      invariant ctx.Model() == Pass1(prog[..k])
    {
      PrefixStep(prog, k);
      PassesMore(prog[k], ctx.labels);
      assert prog[..k][..k] == prog[..k];
      var ok := Action(prog[k], ctx);
      if !ok {
        if AllPass(prog) {
          PrefixAccepted(prog, k + 1);
        }
        return None;
      }
    }
    assert prog[..|prog|] == prog;
    TwoPassesAreOne(prog, ctx.labels);
    var ok := LabelResolution(ctx);
    if !ok {
      return None;
    }
    return Some(ctx.buf[..ctx.highestPos]);
  }

  lemma PassesMore(st: Stmt, labels: Labels)
    ensures Passes(st, labels) ==> PassesAlone(st)
  {
  }
}
