/** The tools one after the other: assemble a program, load its image into the emulator, run it. */
module Boot {
  import opened Words
  import opened Storage
  import opened Machine
  import opened Emitter
  import opened Assembly
  import opened Vasm
  import opened Simulation
  import opened Programs
  import opened Processor

  /** The emulator's state after an image is loaded. */
  function LoadedState(s: Cpu, image: seq<byte>): Cpu
    requires LOAD_OFFSET + |image| <= |s.mem|
  {
    s.(mem := Write(s.mem, LOAD_OFFSET, image), pos := LOAD_OFFSET)
  }

  /** The listing of an accepted program at the load address. */
  function ProgramListing(prog: seq<Stmt>): (code: Listing)
    requires AllPass(prog)
    ensures SoundListing(code)
  {
    ListingOf(prog, Pass1(prog).labels, LOAD_OFFSET)
  }

  /**
   * The program fits into memory, and interpreting its listing comes to a STOP or FAIL in at most n steps,
   * staying on instructions and storing into none.
   */
  ghost predicate ComesToStop(prog: seq<Stmt>, s: Cpu, n: nat)
    requires AllPass(prog)
  {
    var image := Direct(prog, Pass1(prog).labels);
    && LOAD_OFFSET + |image| <= |s.mem|
    && Confined(ProgramListing(prog), LoadedState(s, image), n)
    && ListingRun(ProgramListing(prog), LoadedState(s, image), n).Done?
  }

  /**
   * A program that the assembler rejects is not run; an accepted one ends in the state and with the code that
   * the interpreter of its listing gives, no bytes being decoded there.
   */
  method AssembleLoadRun(prog: seq<Stmt>, fixedLength: bool, bufferSize: nat, emulator: Emulator, ghost n: nat)
    returns (code: Option<int>)
    requires GrammaticalProgram(prog) && WellPlaced(prog, fixedLength)
    requires if fixedLength then bufferSize < DWORD_MODULUS else bufferSize == BLOCK
    requires emulator.Valid() && (Accepted(prog) ==> ComesToStop(prog, emulator.Model(), n))
    modifies emulator, emulator.regs, emulator.cregs, emulator.memory, emulator.context
    ensures emulator.Valid()
    ensures code.Some? <==> Accepted(prog) && (fixedLength ==> |Pass1(prog).image| <= bufferSize)
    ensures code.Some? ==>
              var start := LoadedState(old(emulator.Model()), Direct(prog, Pass1(prog).labels));
              ListingRun(ProgramListing(prog), start, n) == Done(emulator.Model(), code.value)
  {
    hide WellPlaced, Pass1, Direct, Run, ListingRun, Confined, ListingOf, Checked, Resolvable;
    var image := Assemble(prog, fixedLength, bufferSize);
    if image.None? {
      return None;
    }
    ghost var start := LoadedState(emulator.Model(), image.value);
    emulator.LoadImage(image.value);
    CopiedImage(old(emulator.memory[..]), image.value);
    ImageSimulatesProgram(prog, LOAD_OFFSET, start, n);
    var r := emulator.CpuExecute(false, n);
    code := Some(r);
  }
}
