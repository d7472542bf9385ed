/** Buffer growth over whole programs: which emissions trigger it, and when all of it is right. */
module Growth {
  import opened Words
  import opened Isa
  import opened Storage
  import opened Syntax
  import opened Emitter
  import opened Assembly
  import opened Vasm

  function Ones(n: nat): (lens: seq<nat>)
    ensures |lens| == n
  {
    if n == 0 then [] else [1] + Ones(n - 1)
  }

  /** The lengths of the emissions of a statement: each asks for room once. */
  function Emissions(st: Stmt, pos: nat): seq<nat>
    requires Grammatical(st)
  {
    match st
    case LoadAdr(_, _, _) => [8]
    case LdJump(_, _, _, _) => [8, 4]
    case Load32(_, reg, _) => if reg <= REG_R7 then [4, 4] else [4, 4, 4, 4]
    case Instruction(_) => [4]
    case Push(_, _) => [4]
    case Pop(_, _) => [4]
    case Align(n, _) => Ones(AlignGap(pos, n))
    case DataByte(_) => Ones(1)
    case DataBytes(bs) => Ones(|bs|)
    case DataWord(_) => Ones(2)
    case DataDword(_) => Ones(4)
    case Label(_) => []
    case Offset(_) => []
  }

  function ProgramEmissions(prog: seq<Stmt>): seq<nat>
    requires AllPass(prog)
    decreases |prog|
  {
    if prog == [] then []
    else
      var rest := prog[..|prog| - 1];
      ProgramEmissions(rest) + Emissions(prog[|prog| - 1], |Pass1(rest).image|)
  }

  function Sum(lens: seq<nat>): nat {
    if lens == [] then 0 else lens[0] + Sum(lens[1..])
  }

  /** No emission of the list, starting at pos, straddles two blocks. */
  predicate Clean(lens: seq<nat>, pos: nat)
    decreases |lens|
  {
    lens == [] || (Unsplit(pos, lens[0]) && Clean(lens[1..], pos + lens[0]))
  }

  predicate Fitting(lens: seq<nat>) {
    forall i :: 0 <= i < |lens| ==> 0 < lens[i] <= BLOCK
  }

  /** Every growth that the list triggers is right: inside the allocation, with size equal to it, losing nothing. */
  ghost predicate GrowthsRight(lens: seq<nat>, pos: nat, size: nat)
    decreases |lens|
  {
    lens == [] || (
      if Exceeds(pos, lens[0], size) then
        GrowsRight(pos, pos, size) && GrowthsRight(lens[1..], pos + lens[0], size + BLOCK)
      else
        GrowthsRight(lens[1..], pos + lens[0], size)
    )
  }

  /** The buffer ends at the first block boundary from the position on, or one block later when it has just grown. */
  predicate EndsAbove(pos: nat, size: nat) {
    size % BLOCK == 0 && pos <= size <= pos + BLOCK
  }

  lemma SplitExceeds(pos: nat, k: nat, size: nat)
    requires EndsAbove(pos, size) && 0 < k <= BLOCK
    ensures Exceeds(pos, k, size) ==> (Unsplit(pos, k) <==> pos == size)
    ensures !Exceeds(pos, k, size) ==> Unsplit(pos, k)
  {
    var n := size / BLOCK;
    if pos < size {
      DivModUnique(pos, BLOCK, n - 1, pos - (size - BLOCK));
    }
  }

  /** Growth triggered by a straddling emission clears past the end of the new allocation. */
  lemma StraddleOverruns(pos: nat, k: nat, size: nat)
    requires EndsAbove(pos, size) && 0 < k <= BLOCK && !Unsplit(pos, k)
    ensures Exceeds(pos, k, size) && pos < size && pos + BLOCK > GrownLength(pos) && !GrowsRight(pos, pos, size)
  {
    SplitExceeds(pos, k, size);
    GrowthExact(pos, pos, size, k);
    DivModUnique(pos, BLOCK, size / BLOCK - 1, pos - (size - BLOCK));
    BlockFloor(pos);
  }

  /** All growth is right exactly when no emission straddles two blocks. */
  lemma {:induction false} GrowthsRightExactly(lens: seq<nat>, pos: nat, size: nat)
    requires Fitting(lens) && EndsAbove(pos, size)
    ensures GrowthsRight(lens, pos, size) <==> Clean(lens, pos)
    decreases |lens|
  {
    hide Unsplit, GrowsRight;
    if lens != [] {
      var k := lens[0];
      SplitExceeds(pos, k, size);
      if Exceeds(pos, k, size) {
        GrowthExact(pos, pos, size, k);
        if pos == size {
          GrowthsRightExactly(lens[1..], pos + k, size + BLOCK);
        }
      } else {
        GrowthsRightExactly(lens[1..], pos + k, size);
      }
    }
  }

  // ----- statements and programs -----

  lemma {:induction false} OnesClean(n: nat, pos: nat)
    ensures Clean(Ones(n), pos) && Fitting(Ones(n)) && Sum(Ones(n)) == n
  {
    if n > 0 {
      OnesClean(n - 1, pos + 1);
    }
  }

  /** The block condition of a statement is that none of its emissions straddles. */
  lemma BlockCleanIsClean(st: Stmt, pos: nat)
    requires Grammatical(st)
    ensures BlockClean(st, pos) <==> Clean(Emissions(st, pos), pos)
    ensures Fitting(Emissions(st, pos))
  {
    hide AlignGap, Unsplit;
    match st {
      case Align(n, _) => OnesClean(AlignGap(pos, n), pos);
      case DataByte(_) => OnesClean(1, pos);
      case DataBytes(bs) => OnesClean(|bs|, pos);
      case DataWord(_) => OnesClean(2, pos);
      case DataDword(_) => OnesClean(4, pos);
      case Load32(_, _, _) => FewClean(pos);
      case LdJump(_, _, _, _) => FewClean(pos);
      case _ =>
    }
  }

  lemma FewClean(pos: nat)
    ensures Clean([8, 4], pos) <==> Unsplit(pos, 8) && Unsplit(pos + 8, 4)
    ensures Clean([4, 4], pos) <==> Unsplit(pos, 4) && Unsplit(pos + 4, 4)
    ensures Clean([4, 4, 4, 4], pos) <==>
            Unsplit(pos, 4) && Unsplit(pos + 4, 4) && Unsplit(pos + 8, 4) && Unsplit(pos + 12, 4)
  {
    hide Unsplit;
    assert [4, 4, 4, 4][1..] == [4, 4, 4] && [4, 4, 4][1..] == [4, 4] && [4, 4][1..] == [4];
    assert [8, 4][1..] == [4];
    assert Clean([4, 4], pos + 8) <==> Unsplit(pos + 8, 4) && Unsplit(pos + 12, 4);
  }

  lemma StepEmissions(st: Stmt, e: Emission)
    requires Grammatical(st) && PassesAlone(st) && e.pos == |e.image|
    ensures |Pass1Step(st, e).image| == e.pos + Sum(Emissions(st, e.pos))
  {
    hide Encode, AlignGap, Clean, Fitting, Ones, Bytes, Sum;
    FewSum();
    match st {
      case Align(n, _) => OnesClean(AlignGap(e.pos, n), 0);
      case DataByte(_) => OnesClean(1, 0);
      case DataBytes(bs) => OnesClean(|bs|, 0);
      case DataWord(_) => OnesClean(2, 0);
      case DataDword(_) => OnesClean(4, 0);
      case _ =>
    }
  }

  lemma FewSum()
    ensures Sum([]) == 0 && Sum([4]) == 4 && Sum([8]) == 8 && Sum([8, 4]) == 12
    ensures Sum([4, 4]) == 8 && Sum([4, 4, 4, 4]) == 16
  {
    assert [8, 4][1..] == [4] && [4, 4][1..] == [4] && [4, 4, 4][1..] == [4, 4] && [4, 4, 4, 4][1..] == [4, 4, 4];
    assert Sum([4]) == 4 && Sum([4, 4, 4]) == 4 + Sum([4, 4]);
  }

  lemma {:induction false} CleanAppend(x: seq<nat>, y: seq<nat>, pos: nat)
    ensures Clean(x + y, pos) <==> Clean(x, pos) && Clean(y, pos + Sum(x))
    ensures Sum(x + y) == Sum(x) + Sum(y)
    decreases |x|
  {
    hide Unsplit;
    if x == [] {
      assert x + y == y;
    } else {
      assert (x + y)[1..] == x[1..] + y;
      CleanAppend(x[1..], y, pos + x[0]);
    }
  }

  predicate AllBlockClean(prog: seq<Stmt>)
    requires AllPass(prog)
  {
    forall k :: 0 <= k < |prog| ==> BlockClean(prog[k], Start(prog, k))
  }

  lemma {:induction false} ProgramClean(prog: seq<Stmt>)
    requires AllPass(prog)
    ensures Fitting(ProgramEmissions(prog)) && Sum(ProgramEmissions(prog)) == |Pass1(prog).image|
    ensures Clean(ProgramEmissions(prog), 0) <==> AllBlockClean(prog)
    decreases |prog|
  {
    hide Emissions, BlockClean, Pass1Step, Clean, Sum, Grammatical, Passes;
    if prog == [] {
      NoEmissions();
    } else {
      var rest, st := prog[..|prog| - 1], prog[|prog| - 1];
      var pos := |Pass1(rest).image|;
      ProgramClean(rest);
      CleanAppend(ProgramEmissions(rest), Emissions(st, pos), 0);
      BlockCleanIsClean(st, pos);
      StepEmissions(st, Pass1(rest));
      LastBlockClean(prog);
      hide AllBlockClean, Pass1;
    }
  }

  lemma LastBlockClean(prog: seq<Stmt>)
    requires AllPass(prog) && prog != []
    ensures var rest := prog[..|prog| - 1];
            AllBlockClean(prog) <==> AllBlockClean(rest) && BlockClean(prog[|prog| - 1], |Pass1(rest).image|)
  {
    hide Pass1, BlockClean, Grammatical, Passes;
    var rest := prog[..|prog| - 1];
    forall k | 0 <= k < |rest|
      ensures Start(prog, k) == Start(rest, k)
    {
      assert rest[..k] == prog[..k];
    }
    if AllBlockClean(prog) {
      forall k | 0 <= k < |rest|
        ensures BlockClean(rest[k], Start(rest, k))
      {
        assert BlockClean(prog[k], Start(prog, k));
      }
    }
  }

  lemma NoEmissions()
    ensures Clean([], 0) && Sum([]) == 0
  {
  }

  /**
   * Assembling a program into a growing buffer, every growth is right if and only if no emission of the program
   * straddles two blocks.
   */
  lemma ProgramGrowth(prog: seq<Stmt>)
    requires AllPass(prog)
    ensures GrowthsRight(ProgramEmissions(prog), 0, BLOCK) <==> AllBlockClean(prog)
  {
    hide AllBlockClean, ProgramEmissions;
    ProgramClean(prog);
    GrowthsRightExactly(ProgramEmissions(prog), 0, BLOCK);
  }

  // ----- a program that is assembled wrongly -----

  function StopList(n: nat): (prog: seq<Stmt>)
    ensures |prog| == n && forall i :: 0 <= i < n ==> prog[i] == Instruction(Bare(OP_STOP, COND_ALWAYS))
  {
    seq(n, _ => Instruction(Bare(OP_STOP, COND_ALWAYS)))
  }

  lemma {:induction false} StopsLength(n: nat)
    ensures AllPass(StopList(n)) && |Pass1(StopList(n)).image| == 4 * n
  {
    hide Encode;
    if n > 0 {
      assert StopList(n)[..n - 1] == StopList(n - 1);
      StopsLength(n - 1);
    }
  }

  /** 127 STOPs and a LOADADR: the hole of eight bytes at 508 straddles two blocks. */
  lemma StraddlingProgram()
    ensures var prog := StopList(127) + [LoadAdr(COND_ALWAYS, 0, "_x"), Label("_x")];
            AllPass(prog) && Start(prog, 127) == 508 && !GrowthsRight(ProgramEmissions(prog), 0, BLOCK)
  {
    var prog := StopList(127) + [LoadAdr(COND_ALWAYS, 0, "_x"), Label("_x")];
    StopsLength(127);
    assert prog[..127] == StopList(127);
    assert prog[127] == LoadAdr(COND_ALWAYS, 0, "_x");
    hide Pass1, GrowthsRight, ProgramEmissions;
    ProgramGrowth(prog);
    assert !BlockClean(prog[127], Start(prog, 127));
  }
}
