/** Which programs the assembler accepts, said about their statements alone. */
module Acceptance {
  import opened Encoding
  import opened Machine
  import opened Syntax
  import opened Emitter
  import opened Assembly
  import opened Vasm

  // ----- single statements -----

  /**
   * A statement that can be assembled: an instruction that some word shows, a register with two 16-bit parts
   * under a label reference, constants that are bytes.
   */
  ghost predicate Assemblable(st: Stmt) {
    match st
    case Instruction(src) => exists w: code4 :: Disassemble(w) == Some(Kept(src))
    case LoadAdr(_, reg, _) => 2 * reg + 1 < 16
    case LdJump(_, _, reg, _) => 2 * reg + 1 < 16
    case DataByte(b) => b < 0x100
    case DataBytes(bs) => forall i :: 0 <= i < |bs| ==> bs[i] < 0x100
    case _ => true
  }

  /** The assembler's checks let exactly these statements pass. */
  lemma PassesExactly(st: Stmt)
    requires Grammatical(st)
    ensures PassesAlone(st) <==> Assemblable(st)
  {
    match st {
      case Instruction(src) => ShownExactly(src);
      case _ =>
    }
  }

  lemma ShownExactly(src: Source)
    requires WellFormed(src)
    ensures InRange(src) <==> exists w: code4 :: Disassemble(w) == Some(Kept(src))
  {
    hide Disassemble, Encode;
    if InRange(src) {
      DisassembleEncode(src);
      assert Disassemble(Encode(src)) == Some(Kept(src));
    }
    if w: code4 :| Disassemble(w) == Some(Kept(src)) {
      ReassemblePreservesMeaning(w, Kept(src));
    }
  }

  // ----- labels -----

  predicate Defined(prog: seq<Stmt>, name: string) {
    exists k :: 0 <= k < |prog| && prog[k] == Label(name)
  }

  predicate Refers(st: Stmt) {
    st.LoadAdr? || st.LdJump?
  }

  predicate DistinctLabels(prog: seq<Stmt>) {
    forall i, j :: 0 <= i < j < |prog| && prog[i].Label? && prog[j].Label? ==> prog[i].name != prog[j].name
  }

  predicate AllDefined(prog: seq<Stmt>) {
    forall k :: 0 <= k < |prog| && Refers(prog[k]) ==> Defined(prog, prog[k].name)
  }

  lemma {:induction false} LabelsAreDefined(prog: seq<Stmt>, name: string)
    requires AllPass(prog)
    ensures name in Pass1(prog).labels <==> Defined(prog, name)
    decreases |prog|
  {
    hide Pass1Step;
    if prog != [] {
      var rest, st := prog[..|prog| - 1], prog[|prog| - 1];
      LabelsAreDefined(rest, name);
      StepLabels(st, Pass1(rest));
      DefinedLast(prog, name);
    }
  }

  lemma DefinedLast(prog: seq<Stmt>, name: string)
    requires prog != []
    ensures Defined(prog, name) <==> Defined(prog[..|prog| - 1], name) || prog[|prog| - 1] == Label(name)
  {
    var rest := prog[..|prog| - 1];
    if Defined(rest, name) {
      var k :| 0 <= k < |rest| && rest[k] == Label(name);
      assert prog[k] == Label(name);
    }
    if Defined(prog, name) {
      var k :| 0 <= k < |prog| && prog[k] == Label(name);
      assert k < |rest| ==> rest[k] == Label(name);
    }
  }

  lemma {:induction false} CheckedExactly(prog: seq<Stmt>)
    requires AllPass(prog)
    ensures Checked(prog) <==> DistinctLabels(prog)
    decreases |prog|
  {
    hide Pass1, Defined;
    if prog != [] {
      var rest, st := prog[..|prog| - 1], prog[|prog| - 1];
      CheckedExactly(rest);
      DistinctLast(prog);
      assert PassesAlone(st);
      if st.Label? {
        LabelsAreDefined(rest, st.name);
      }
    }
  }

  lemma DistinctLast(prog: seq<Stmt>)
    requires prog != []
    ensures var rest, st := prog[..|prog| - 1], prog[|prog| - 1];
            DistinctLabels(prog) <==> DistinctLabels(rest) && (st.Label? ==> !Defined(rest, st.name))
  {
    var rest, st := prog[..|prog| - 1], prog[|prog| - 1];
    if st.Label? && Defined(rest, st.name) {
      var k :| 0 <= k < |rest| && rest[k] == Label(st.name);
      assert prog[k].Label? && prog[k].name == prog[|prog| - 1].name;
    }
    if DistinctLabels(rest) && (st.Label? ==> !Defined(rest, st.name)) {
      forall i, j | 0 <= i < j < |prog| && prog[i].Label? && prog[j].Label?
        ensures prog[i].name != prog[j].name
      {
        assert rest[i] == Label(prog[i].name);
        assert j < |rest| ==> rest[j] == prog[j];
      }
    }
  }

  predicate Referred(prog: seq<Stmt>, name: string) {
    exists k :: 0 <= k < |prog| && Refers(prog[k]) && prog[k].name == name
  }

  predicate Recorded(refs: seq<LabelRef>, name: string) {
    exists i :: 0 <= i < |refs| && refs[i].name == name
  }

  lemma {:induction false} ReferencesAreRecorded(prog: seq<Stmt>, name: string)
    requires AllPass(prog)
    ensures Recorded(Pass1(prog).refs, name) <==> Referred(prog, name)
    decreases |prog|
  {
    hide Pass1Step, Referred, Recorded;
    if prog == [] {
      NoneReferred(name);
    } else {
      var rest, st := prog[..|prog| - 1], prog[|prog| - 1];
      ReferencesAreRecorded(rest, name);
      StepRecords(st, Pass1(rest), name);
      ReferredLast(prog, name);
    }
  }

  lemma NoneReferred(name: string)
    ensures !Referred([], name) && !Recorded([], name)
  {
  }

  lemma StepRecords(st: Stmt, e: Emission, name: string)
    requires Grammatical(st) && PassesAlone(st) && e.pos <= |e.image|
    ensures Recorded(Pass1Step(st, e).refs, name) <==> Recorded(e.refs, name) || (Refers(st) && st.name == name)
  {
    hide Literal, Encode;
    var refs := Pass1Step(st, e).refs;
    if Refers(st) {
      assert refs == e.refs + [LabelRef(st.name, e.pos, st.reg, st.cond)];
      assert refs[|e.refs|].name == st.name;
      if Recorded(e.refs, name) {
        var i :| 0 <= i < |e.refs| && e.refs[i].name == name;
        assert refs[i].name == name;
      }
    }
  }

  lemma ReferredLast(prog: seq<Stmt>, name: string)
    requires prog != []
    ensures var st := prog[|prog| - 1];
            Referred(prog, name) <==> Referred(prog[..|prog| - 1], name) || (Refers(st) && st.name == name)
  {
    var rest, st := prog[..|prog| - 1], prog[|prog| - 1];
    if Referred(rest, name) {
      var k :| 0 <= k < |rest| && Refers(rest[k]) && rest[k].name == name;
      assert Refers(prog[k]) && prog[k].name == name;
    }
    if Referred(prog, name) {
      var k :| 0 <= k < |prog| && Refers(prog[k]) && prog[k].name == name;
      assert k < |rest| ==> Refers(rest[k]) && rest[k].name == name;
    }
  }

  lemma ResolvableExactly(prog: seq<Stmt>)
    requires AllPass(prog)
    ensures Resolvable(Pass1(prog).refs, Pass1(prog).labels) <==> AllDefined(prog)
  {
    hide Pass1, Defined;
    var refs, labels := Pass1(prog).refs, Pass1(prog).labels;
    if Resolvable(refs, labels) {
      forall k | 0 <= k < |prog| && Refers(prog[k])
        ensures Defined(prog, prog[k].name)
      {
        var name := prog[k].name;
        assert Referred(prog, name);
        ReferencesAreRecorded(prog, name);
        var i :| 0 <= i < |refs| && refs[i].name == name;
        LabelsAreDefined(prog, name);
      }
    }
    if AllDefined(prog) {
      forall i | 0 <= i < |refs|
        ensures refs[i].name in labels
      {
        var name := refs[i].name;
        assert Recorded(refs, name);
        ReferencesAreRecorded(prog, name);
        var k :| 0 <= k < |prog| && Refers(prog[k]) && prog[k].name == name;
        LabelsAreDefined(prog, name);
      }
    }
  }

  /**
   * The assembler accepts a program if and only if each statement can be assembled, no label is defined twice,
   * and every label that is referred to is defined.
   */
  lemma AcceptedExactly(prog: seq<Stmt>)
    requires GrammaticalProgram(prog)
    ensures Accepted(prog) <==>
            (forall k :: 0 <= k < |prog| ==> Assemblable(prog[k])) && DistinctLabels(prog) && AllDefined(prog)
  {
    hide Assemblable, PassesAlone, Checked, Resolvable, DistinctLabels, AllDefined, Pass1;
    forall k | 0 <= k < |prog|
      ensures PassesAlone(prog[k]) <==> Assemblable(prog[k])
    {
      PassesExactly(prog[k]);
    }
    if AllPass(prog) {
      CheckedExactly(prog);
      ResolvableExactly(prog);
    }
  }
}
