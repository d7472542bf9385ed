# The VA toolchain, modelled and proved

VA is a 32-bit processor with sixteen registers, sixteen control registers, a flat byte memory and fixed
32-bit instructions under sixteen condition codes. This project models its assembler back end, its two
decoders and its processor as one stack, and proves that the parts fit: what the assembler emits, the
processor executes as meant and the disassembler shows again.

| file | contents |
|---|---|
| Words.dfy | 32-bit words, bits, and the bitwise operators of C on natural numbers |
| Isa.dfy | opcodes, prefixes, flags, conditions, decoded words |
| Storage.dfy | little-endian memory and the 8/16/32-bit views of the register file |
| Encoding.dfy | the eight instruction formats and their decoding |
| Machine.dfy | the processor as a transition function: dispatch, actions, step, run |
| Syntax.dfy | assembly instructions: encoding, text, disassembly, written and actual action |
| Manual.dfy | the manual's meaning of every instruction, and where the code meets it |
| Processor.dfy | the emulator: arrays updated in place by one method per C function |
| Vasmdis.dfy | the disassembler: its instruction struct and its lines |
| Emitter.dfy | the growing output buffer, labels and label references |
| Assembly.dfy | programs: first pass, patching, one-pass reference, alignment |
| Vasm.dfy | the assembler's actions, label resolution and main program |
| Growth.dfy | buffer growth over whole programs |
| Simulation.dfy, Macros.dfy, Programs.dfy | running and disassembling assembled images |
| Laws.dfy, Branches.dfy, Accesses.dfy | what the bytes of each instruction do when they are executed |
| Stack.dfy, Arithmetic.dfy, Shifts.dfy, Effects.dfy, Transfers.dfy | arithmetic, relations between instructions, the stack |
| Statements.dfy | what each statement of an assembled program leaves in memory and does there |
| Acceptance.dfy | which programs are accepted |
| Examples.dfy | instructions with their bytes and text |
| Routines.dfy | stack, addition and block-move routines run from their bytes |
| Execution.dfy | whole runs |
| Boot.dfy | assembler, loader and processor one after the other |
| Divergence.dfy | the forms that are not executed as written or not as the manual says |

All numbers are unbounded integers with the widths of the C code written out. The C idioms for packing and
unpacking fields are kept in the methods and proved equal to arithmetic on bytes and bits. Methods of the
classes are proved against the functions of Machine, Emitter and Assembly. What those functions mean is said apart
from them: every mnemonic has a law that gives, from register and memory contents alone, the whole state after its
bytes are executed, and every statement has one that gives what it leaves in the image.

An access outside memory, which C leaves undefined, is the outcome `Fault` of a step; the methods that run
instructions require that it does not occur. Port instructions have the outcome `Device`. Free running is
specified for runs that reach STOP or FAIL, since only those return.

The model follows the code. `Written` is the action that an instruction's mnemonic and operands name, `Actual`
the one that the processor takes. They differ for four forms: MOD ignores an immediate operand; SEX reads the
32-bit register with the number of its sub-register operand; the conditional forms of LOADRD with a 16-bit target
and of XCHGC lose operands in the assembler (`Syntax.DispatchEncode`, `Divergence.WrittenExactly`).

What the manual says is modelled apart from both, in Manual.dfy: DIVBYZERO, ADDROVERF, ALIGFAULT, ILLEGOLOP and
PROTFAULT are raised as it says, and INT, IRET, LOADAS and STOREAS do what it says. The code raises nothing and
has no such instructions. `Manual.MeetsManual` gives, for every instruction, the exact states in which the code
nevertheless does what the manual says. The manual is read with paging off, and where it leaves a choice as
follows. Dividing by zero in MOD is a division by zero. MOD with an immediate, a shift by 32 or more and a jump out
of the 32-bit range have no defined meaning. The addresses that must not overflow are those that are accessed. The
number of an INT is the low byte of its immediate. IN and OUT, which the instruction set does not describe, have no
defined meaning in privileged mode.

Four more disagreements concern the assembler. A conditional LOAD32 of FLGS tests the later conditions on the old
R7 (`Macros.Load32Meaning` has the exact condition). The output buffer grows correctly only when no emission
straddles two blocks (`Growth.ProgramGrowth`). Constants that do not fit into 12 or 8 bits are refused, where
the assembler's manual says that they are truncated (`Vasm.EmitInstruction`, `Vasm.Action`). And an image with a
fixed size ends at the highest position, where the assembler's manual gives it that size: `Vasm.Assemble` yields the
bytes of the program and no filling.

## Model

| member | source | states |
|---|---|---|
| Programs.ImageSimulatesProgram | src/cpu/cpu.c:53-262 | End to end: for every accepted program, data and alignment included, its image standing anywhere in memory, n processor steps on the bytes equal n steps of an interpreter that never looks at bytes, as long as control stays on instructions and no executed store hits an instruction; stores into data are allowed |
| Programs.ListingStands | src/assembler/vasm.y:1100-1133 | After patching, every instruction of every statement, expansions included, stands in memory at its address |
| Programs.ListingHas | src/assembler/vasm.y:131-1096 | The interpreter's listing has every instruction of every statement at the statement's address, none shadowed by another |
| Simulation.BytesSimulateListing | src/cpu/decode.c:50-78 | The same for any instructions at any addresses, with gaps and overlaps, and any n |
| Simulation.StepIsSourceStep | src/cpu/cpu.c:58-132 | One fetch, decode, condition test and dispatch on the bytes of any assembled instruction is its interpreter step, skipped or performed |
| Simulation.PerformFrame | src/cpu/cpu.c:912-1000 | No action stores outside its footprint: displacement stores, multi-register stores and compare-exchange included, for every state and address |
| Simulation.PerformLength | src/cpu/memory.c:31-70 | No action changes the size of memory |
| Laws.AddLaw | src/cpu/cpu.c:353-388 | The bytes of ADD executed: the sum of the two operands modulo 2^32, C and O by their bits exactly when it does not fit unsigned and signed, all other registers and flag bits kept |
| Laws.SubLaw | src/cpu/cpu.c:875-910 | The bytes of SUB executed: first minus second operand, C the borrow, O when it does not fit signed, all else kept |
| Laws.MulLaw | src/cpu/cpu.c:666-687 | The bytes of MUL executed: the product modulo 2^32, C when it does not fit, all else kept |
| Laws.SmulLaw | src/cpu/cpu.c:842-873 | The bytes of SMUL executed: the signed product modulo 2^32, O when it does not fit, all else kept |
| Laws.DivLaw | src/cpu/cpu.c:475-490 | The bytes of DIV executed: the quotient of first by second operand, nothing for a zero divisor |
| Laws.ModLaw | src/cpu/cpu.c:614-628 | The bytes of MOD executed: the remainder by the register that the operand names or the top digit of an immediate numbers, nothing for zero |
| Laws.SdivLaw | src/cpu/cpu.c:768-796 | The bytes of SDIV executed: the quotient whose remainder has the sign of the dividend, O and 0 for INT_MIN by -1 alone, nothing for zero |
| Laws.LogicLaw | src/cpu/cpu.c:390-401 | The bytes of AND, OR and XOR executed: each result bit is the conjunction, disjunction or difference of the operands' bits, nothing else changes |
| Laws.NotLaw | src/cpu/cpu.c:689-693 | The bytes of NOT executed: every bit of the second register inverted into the first |
| Laws.ShiftLaw | src/cpu/cpu.c:716-737 | The bytes of SHL, SHR and SAR executed: where each result bit comes from, the count modulo 32, and the bit that goes to C |
| Laws.SexLaw | src/cpu/cpu.c:739-766 | The bytes of SEX executed: the signed low byte or word of the 32-bit register with the operand's number |
| Laws.ConditionBits | src/cpu/cpu.c:74-132 | Which bits of FLGS each of the sixteen condition codes tests |
| Laws.SignedValue | src/common/macros.h:53-68 | The signed reading of a dword is the one number of the signed range congruent to it |
| Laws.Skipped | src/cpu/cpu.c:74-136 | An instruction whose condition fails moves the position and the count, nothing else |
| Laws.KeptExecutes | src/assembler/vasm.y:570-580 | An instruction that loses operands in the assembler is executed as what is kept of it |
| Branches.CompareLaw | src/cpu/cpu.c:415-444 | The bytes of CMP executed, with a register or an immediate: Z, C and S compare the first with the second operand, every condition code decides its relation afterwards, nothing else changes |
| Branches.TestLaw | src/cpu/cpu.c:1003-1035 | The bytes of TEST executed: Z, S, E and P tell zero, sign, evenness and an odd number of one bits of the operand |
| Branches.PopCountIsBits | src/cpu/cpu.c:1025-1034 | The count by halving is the number of one bits |
| Branches.JumpLaw | src/cpu/cpu.c:403-413 | The bytes of JMP and CALL executed: control goes to the register's value, or to the next instruction plus the signed immediate modulo 2^32; CALL leaves the next address in RC; nothing else changes |
| Branches.ForthAndBack | src/tests/jmp_relative.V:2-6 | A relative jump forward and the matching one back return to the start in two steps |
| Branches.HaltLaw | src/cpu/cpu.c:157-232 | The bytes of STOP and FAIL executed end with 0 and the immediate |
| Branches.RemovedLaw | src/cpu/cpu.c:138-257 | The bytes of IRET, INT, LOADAS and STOREAS executed do nothing; IN and OUT reach a device |
| Accesses.LoadLaw | src/cpu/cpu.c:518-612 | The bytes of LOADID and LOADRD executed, every size: the register's bytes become the memory bytes at base plus displacement, signed from a register, and no other byte of the registers changes; nothing outside 32 bits |
| Accesses.StoreLaw | src/cpu/cpu.c:912-1000 | The bytes of STOREID and STORERD executed, every size: memory at base plus displacement becomes the register's bytes and nothing else changes |
| Accesses.StoreThenLoadOther | src/tests/loadstoreid32.V:5-7 | STOREID of one register and LOADID of another from the same place copy the value, for every size |
| Accesses.LoadImmLaw | src/cpu/cpu.c:507-516 | The bytes of LOADI executed: the low byte, or the word, of the immediate, and no other byte of the registers |
| Accesses.MoveLaw | src/cpu/cpu.c:630-654 | The bytes of MOV executed, every size: the second register's bytes go to the first, no other byte changes |
| Accesses.MoveImmediateLaw | src/cpu/cpu.c:637-640 | A MOV word with the immediate prefix loads its 12-bit immediate |
| Accesses.ExchangeLaw | src/cpu/cpu.c:1037-1051 | The bytes of XCHG and XCHGC executed swap the two registers and change nothing else |
| Accesses.ControlLaw | src/cpu/cpu.c:656-664 | The bytes of MOVFC and MOVTC executed: direction and registers |
| Accesses.CompareExchangeLaw | src/cpu/cpu.c:446-473 | The bytes of CMPXCHG executed: which register is compared, which is stored, which receives, and Z alone of the flags |
| Accesses.StoreManyLaw | src/cpu/cpu.c:941-965 | The bytes of STOREMA executed: register lo + k in the k-th dword below the base for every k, the base below the last, no other byte changed; a fault exactly when a dword is outside memory |
| Accesses.LoadManyLaw | src/cpu/cpu.c:551-579 | The bytes of LOADMA executed: the registers of the range from the dwords above the base, the base at the last; a fault exactly when a dword is outside memory |
| Accesses.FlatDetermines | src/cpu/cpu.c:301-325 | The bytes of the register file determine all registers |
| Programs.JumpReachesLabel | src/assembler/vasm.y:877-921 | LDCALL and LDJMP in an assembled image: three steps bring control to the place in memory where the label stands, with that address in the register and RC just past the CALL, or fall through with nothing else changed, on the condition alone |
| Programs.LoadAdrLoadsLabel | src/assembler/vasm.y:868-875 | LOADADR in an assembled image: two steps put the label's address in the register, or nothing, on the condition alone |
| Programs.Load32Runs | src/assembler/vasm.y:970-1057 | LOAD32 standing in memory reaches its goal if and only if it is not a conditional load of FLGS whose condition R7, read as flags, does not satisfy |
| Statements.Load32Law | src/assembler/vasm.y:970-1057 | LOAD32 as a statement of an assembled program: two or four steps set the register to the value and nothing else, or do nothing, on the condition alone, if and only if it is not the conditional load of FLGS that fails |
| Statements.InstructionLaw | src/assembler/vasm.y:135-865 | Standing at an instruction of an assembled program whose condition holds, the processor executes that instruction, so its law applies |
| Statements.PushLaw | src/assembler/vasm.y:924-945 | PUSH in an assembled program stores the register where SP points and moves SP down by four |
| Statements.PopLaw | src/assembler/vasm.y:947-968 | POP in an assembled program moves SP up by four and loads the register from there |
| Statements.NumbersLaw | src/assembler/vasm.y:1080-1090 | .word and .dword in an assembled program leave their number in memory, least significant byte first, and the processor's loads read it |
| Statements.BytesLaw | src/assembler/vasm.y:1073-1096 | .byte and .bytes leave their constants in consecutive bytes |
| Statements.AlignLaw | src/assembler/vasm.y:1059-1063 | .align fills its gap with the low byte of its second operand |
| Statements.NextStart | src/assembler/vasm.y:131-1096 | How many bytes each kind of statement takes |
| Statements.OffsetLaw | src/assembler/vasm.y:1069-1071 | The offset in force begins with 4096 and only .offset changes it |
| Macros.Load32Meaning | src/assembler/vasm.y:1014-1057 | For every register, value and condition: only the target and the position change, through the R7 detour too; the exact exception is the conditional load of FLGS |
| Macros.Load32Fails | src/assembler/vasm.y:1014-1057 | LOAD32IZ of FLGS, with Z the only flag set and R7 zero, misses its goal |
| Macros.LdJumpMeaning | src/cpu/cpu.c:403-413 | The three-instruction chain is all-or-nothing and lands with the address in the register and the return address in RC |
| Macros.LoadChainMeaning | src/assembler/vasm.y:1114-1129 | Two conditional 16-bit loads set a whole 32-bit register or nothing |
| Macros.StraightAppend | src/cpu/cpu.c:53-262 | Straight-line execution composes over concatenation of instruction lists |
| Programs.RunStraight | src/cpu/cpu.c:53-73 | The bytes of instructions that fall through and leave the code ahead alone run exactly as the list does; the last instruction can be any |
| Programs.StatementPlaced | src/assembler/vasm.y:1100-1133 | The expansion of every statement stands at the statement's address, after patching |
| Programs.DirectIsEncoded | src/assembler/vasm.y:868-1057 | A program of code statements assembles to the encoding of its expansion under its label table |
| Programs.CopiedImage | src/emulator.c:57-58 | An image written at the load address stands where the default offset of the assembler expects it |
| Boot.AssembleLoadRun | src/emulator.c:57-58 | Assembler, loader and processor one after the other: a rejected program does not run; an accepted one that comes to STOP or FAIL ends in the state and with the code of the interpreter of its listing |
| Programs.DefaultOffset | src/assembler/vasm.y:1252-1253 | Without .offset the default offset holds at every statement |
| Programs.DisassembleImage | src/disassembler/lib_vasmdis.c:39-319 | Disassembling an emitted image word by word returns what the assembler kept of the original list, operand kinds included: all of it, save for the two forms that lose operands |
| Programs.DisassembleProgram | src/disassembler/lib_vasmdis.c:304-358 | Disassembling the final image of a program of code shows its instructions, with pseudo-instructions expanded and label values filled in |
| Assembly.TwoPassesAreOne | src/assembler/vasm.y:1100-1133 | Reserving holes and patching them with any label table gives exactly the bytes of one pass with that table, for every program |
| Vasm.Assemble | src/assembler/vasm.y:1250-1265 | The main program yields an image if and only if every check passes, every label exists once and is known, and a fixed buffer is long enough; the image is the one-pass image under the final label table |
| Acceptance.AcceptedExactly | src/assembler/vasm.y:1100-1133 | A program is accepted if and only if each statement can be assembled, no label is defined twice, and every label referred to is defined |
| Acceptance.PassesExactly | src/assembler/vasm.y:1270-1274 | The checks let an instruction pass if and only if some word shows it, a label reference if and only if its register has two 16-bit parts, a constant if and only if it is a byte |
| Vasm.LabelResolution | src/assembler/vasm.y:1100-1133 | The second pass succeeds exactly when every referenced name has a label and then leaves the patched image |
| Vasm.ResolveReference | src/assembler/vasm.y:1104-1131 | One reference fills its hole with the two loads of its label's address, or fails for an unknown name |
| Assembly.Pass1Holes | src/assembler/emit.c:84-109 | Holes are pairwise disjoint, in order, and lie below the highest position |
| Assembly.PatchFrame | src/assembler/vasm.y:1112-1129 | Patching changes no byte outside the holes |
| Assembly.PatchAppend | src/assembler/vasm.y:1112-1129 | Patching commutes with appending uncovered bytes |
| Assembly.LabelValue | src/assembler/emit.c:66-82 | In an accepted program a label keeps for good the address, offset included, of the place where it stands |
| Assembly.CodeAt | src/assembler/vasm.y:131-1096 | Each statement's code stands at the statement's start in the final image |
| Assembly.EncodeAllAt | src/assembler/emit.c:138-232 | Instruction k of a list occupies bytes 4k to 4k+3 |
| Growth.ProgramGrowth | src/assembler/emit.c:235-268 | Assembling a whole program into a growing buffer, every growth is right if and only if no single emission of the program straddles two 512-byte blocks |
| Growth.StraddleOverruns | src/assembler/emit.c:249-266 | At every emission that straddles two blocks growth is triggered below the end of the buffer and clears past the end of the new allocation |
| Growth.StraddlingProgram | src/assembler/emit.c:84-109 | A program that the assembler gets wrong: 127 STOPs and a LOADADR, whose hole of eight bytes at 508 straddles two blocks |
| Assembly.AlignLeast | src/assembler/vasm.y:1059-1063 | .align stops at the least multiple of n not below the start after fewer than n fill bytes |
| Assembly.AlignedLabel | src/assembler/vasm.y:1059-1067 | A label right behind .align n, its address within 32 bits, has an address divisible by n if and only if the offset in force is |
| Vasm.AlignAction | src/assembler/vasm.y:1059-1063 | The loop terminates, emits exactly the gap, keeps earlier bytes and labels, and ends aligned |
| Vasm.Action | src/assembler/vasm.y:131-1096 | A statement is refused exactly when its check fails or a fixed buffer is full; otherwise the context becomes what the first pass specifies |
| Vasm.EmitInstruction | src/assembler/vasm.y:135-865 | All machine-instruction actions: refused exactly on a bad 12-bit immediate or a full buffer, else the encoding is appended |
| Vasm.EmitSized | src/assembler/vasm.y:401-846 | The same for the mnemonics with productions of their own, by operand size and condition |
| Vasm.DataAction | src/assembler/vasm.y:1073-1090 | .byte, .bytes, .word and .dword append their bytes, least significant first, or are refused |
| Vasm.CheckIfValid12Bit | src/assembler/vasm.y:1270-1274 | The test with the mask of the four high bits accepts exactly the values below 4096 |
| Vasm.EmitChecked | src/assembler/vasm.y:111-124 | A .bytes block is refused exactly when a constant is not a byte or a fixed buffer is full; otherwise its bytes are appended |
| Vasm.LoadAdrAction | src/assembler/vasm.y:868-875 | Refused above R7; otherwise eight bytes are reserved and the reference recorded |
| Vasm.LdJumpAction | src/assembler/vasm.y:877-921 | A hole followed by the register CALL or JMP under the same condition |
| Vasm.PushPopAction | src/assembler/vasm.y:924-968 | PUSH and POP as STOREMA and LOADMA of a one-register range through SP |
| Vasm.Load32Action | src/assembler/vasm.y:970-1057 | Two loads for R0..R7, four instructions with the R7 exchange otherwise |
| Emitter.GrowthExact | src/assembler/emit.c:235-268 | Growth keeps size equal to the allocation, keeps all emitted bytes and zeroes the new block if and only if it is triggered at pos = highest_pos = size on a block boundary |
| Emitter.EmitContext.HandleExceedingBuffer | src/assembler/emit.c:235-268 | Exact outcome of the growth code wherever its memory clearing stays inside the allocation: error in fixed mode, else new length, cleared block, kept bytes |
| Emitter.EmitContext.MakeRoom | src/assembler/emit.c:235-268 | Called at a clean boundary, growth leaves the emission as it was and makes the bytes fit; a fixed buffer never grows and refuses exactly what does not fit |
| Emitter.EmitContext.SetHighestPosition | src/assembler/emit.c:270-274 | The high-water mark becomes the larger of itself and the position |
| Emitter.EmitContext.EmitFmtI | src/assembler/emit.c:138-148 | The shift-and-or stores of format I put the four bytes of the format at the position, extend the image only when they reach past it, or refuse when a fixed buffer is full |
| Emitter.EmitContext.EmitFmtII | src/assembler/emit.c:150-160 | The shift-and-or stores of format II put the four bytes of the format at the position, extend the image only when they reach past it, or refuse when a fixed buffer is full |
| Emitter.EmitContext.EmitFmtIII | src/assembler/emit.c:162-173 | The shift-and-or stores of format III put the four bytes of the format at the position, extend the image only when they reach past it, or refuse when a fixed buffer is full |
| Emitter.EmitContext.EmitFmtIV | src/assembler/emit.c:175-185 | The shift-and-or stores of format IV put the four bytes of the format at the position, extend the image only when they reach past it, or refuse when a fixed buffer is full |
| Emitter.EmitContext.EmitFmtV | src/assembler/emit.c:187-197 | The shift-and-or stores of format V put the four bytes of the format at the position, extend the image only when they reach past it, or refuse when a fixed buffer is full |
| Emitter.EmitContext.EmitFmtVI | src/assembler/emit.c:199-209 | The shift-and-or stores of format VI put the four bytes of the format at the position, extend the image only when they reach past it, or refuse when a fixed buffer is full |
| Emitter.EmitContext.EmitFmtVII | src/assembler/emit.c:211-220 | The shift-and-or stores of format VII put the four bytes of the format at the position, extend the image only when they reach past it, or refuse when a fixed buffer is full |
| Emitter.EmitContext.EmitFmtVIII | src/assembler/emit.c:222-232 | The shift-and-or stores of format VIII put the four bytes of the format at the position, extend the image only when they reach past it, or refuse when a fixed buffer is full |
| Emitter.EmitContext.EmitByte | src/assembler/emit.c:125-131 | One byte at the position, or refusal by a full fixed buffer |
| Emitter.EmitContext.EmitLabel | src/assembler/emit.c:66-82 | Refused exactly for a duplicate; else the name is bound to position plus offset modulo 2^32 |
| Emitter.EmitContext.EmitLabelRef | src/assembler/emit.c:84-109 | Records the reference and reserves eight zero bytes |
| Emitter.EmitContext.EmitLabelRes | src/assembler/emit.c:111-123 | The address of a known label, nothing for an unknown one |
| Encoding.DecodeII | src/cpu/decode.c:56-78 | Decoding inverts formats I, II, V and VI for all in-range fields |
| Encoding.DecodeIII | src/cpu/decode.c:56-78 | Decoding inverts formats III and VII, the 12-bit immediate high nibble first |
| Encoding.DecodeIV | src/cpu/decode.c:56-78 | Decoding inverts formats IV and VIII, the 16-bit immediate low byte first |
| Encoding.ReencodeDecoded | src/assembler/emit.c:162-185 | Re-encoding any decoded word in format III or IV restores it, for all four bytes |
| Encoding.ReencodeII | src/assembler/emit.c:150-160 | Format II restores exactly the words whose last byte is zero |
| Encoding.DecodeInjective | src/cpu/decode.c:56-78 | Different words decode differently |
| Processor.InstructionContext.Fill | src/cpu/decode.c:56-78 | The shifts and masks of the processor's decoder compute Decode |
| Vasmdis.DisInstruction.BytesToInstruction | src/disassembler/lib_vasmdis.c:347-358 | The disassembler's separate shifts and masks compute the same Decode on every four bytes |
| Vasmdis.DisInstruction.DisasmInstruction | src/disassembler/lib_vasmdis.c:304-345 | The operand switches by prefix and opcode show, for every four bytes, the mnemonic, the condition and the operands with their register tables of the instruction they encode, or no operands |
| Vasmdis.LineOfEncoded | src/disassembler/lib_vasmdis.c:304-345 | The line shown for an assembled instruction reads as its source does, lost operands apart |
| Vasmdis.LineDetermines | src/disassembler/lib_vasmdis.c:39-302 | Two instructions whose lines read alike are the same, so a line can be read back |
| Examples.AddExample | src/tests/rawemit.V:1-4 | ADD R1, R1, 1 is assembled to EA 01 10 01, and those bytes are shown as it |
| Examples.BytesExample | src/tests/rawemit.V:7-10 | The same four bytes from .bytes |
| Examples.WordsExample | src/tests/rawemit.V:12-13 | The same four bytes from two words |
| Examples.DwordExample | src/tests/rawemit.V:15 | The same four bytes from a dword |
| Examples.LoadExample | src/tests/loadstoreid32.V:7 | LOADID R1, R0, 4: bytes and text |
| Examples.StoreExample | src/tests/loadstoreid32.V:5 | STOREID R0, R1, 4: bytes and text |
| Examples.AndExample | src/tests/and.V:5 | AND R3, R0, R1: bytes and text |
| Examples.CompareExample | src/tests/cmp.V:5 | CMP R0, R1: bytes and text |
| Examples.JumpExample | src/tests/jmp_relative.V:6 | JMP -16: bytes and text |
| Examples.CompareImmediateExample | src/tests/rawemit.V:17 | CMP R1, 4: bytes and text |
| Examples.CallExample | src/assembler/emit.c:187-197 | CALLIZ RB: bytes and text |
| Examples.FailExample | src/tests/rawemit.V:18 | FAILNZ 1: bytes and text |
| Examples.StopExample | src/tests/rawemit.V:19 | STOP: bytes and text |
| Examples.LoadDisplacedExample | src/assembler/emit.c:150-160 | LOADRD R1L, R2, R3: bytes and text |
| Examples.StoreDisplacedExample | src/assembler/emit.c:150-160 | STORERD R4, R0HL, R3: bytes and text |
| Examples.ImmediateExample | src/assembler/emit.c:175-185 | LOADI R0L, 5: bytes and text |
| Examples.StoreManyExample | src/assembler/emit.c:175-185 | STOREMA SP, R0:R5: bytes and text |
| Examples.CompareExchangeExample | src/assembler/emit.c:150-160 | CMPXCHG R1, R2, R3: bytes and text |
| Examples.MoveExample | src/assembler/emit.c:199-209 | MOV R0L, R1H: bytes and text |
| Examples.ExtendExample | src/assembler/emit.c:199-209 | SEX R3, R1LL: bytes and text |
| Examples.ExchangeControlExample | src/assembler/emit.c:199-209 | XCHGC R1, SSP: bytes and text |
| Examples.ToControlExample | src/assembler/emit.c:199-209 | MOVTC SSP, R1: bytes and text |
| Examples.FromControlExample | src/assembler/emit.c:199-209 | MOVFC R1, SSP: bytes and text |
| Examples.SystemExample | src/assembler/emit.c:187-197 | LOADAS R3: bytes and text |
| Syntax.DisassembleEncode | src/disassembler/lib_vasmdis.c:39-319 | Disassembling an encoded instruction shows what the assembler kept of it, which is the instruction itself if and only if it is not one of the two misencoded forms |
| Syntax.ReassemblePreservesMeaning | src/disassembler/lib_vasmdis.c:304-358 | Assembling what the disassembler shows for a word, where the grammar accepts it, gives a word with the same condition, and with the same processor action if and only if it does not show one of the two forms that lose operands |
| Syntax.DispatchEncode | src/cpu/cpu.c:138-257 | Every assembled instruction dispatches to a known action; it is the one that mnemonic and operands name if and only if the instruction is not misencoded, not MOD with an immediate, and not SEX of a sub-register other than number 0 |
| Manual.MeetsManual | doc/va/contents/instructionset.tex:46-644 | For every instruction and every state, the code does what the manual says, exceptions and removed instructions included, if and only if the state is executable for it: privileged where that is needed, divisor not zero, addresses within 32 bits and aligned, no entry in the vector table for an INT, never for IRET, LOADAS and STOREAS, and for the divergent forms equal values in the confused registers; of IN and OUT only the privilege is compared |
| Manual.StepMeetsManual | doc/va/contents/overview.tex:11-14 | The same for fetching and executing the instruction's bytes, an instruction off the dword boundary included |
| Manual.RunMeetsManual | doc/va/contents/interrupts.tex:7-40 | Running the bytes of a listing is, after every number of steps, the run that the manual describes if and only if each executed step is executable |
| Manual.FirstFailure | src/cpu/cpu.c:53-262 | A run that comes to a step that is not executable departs from the manual at that step |
| Divergence.MeetsInEveryState | src/cpu/cpu.c:133-257 | Which instructions meet the manual in every state, if and only if |
| Divergence.FailingState | src/cpu/cpu.c:475-612 | For every other instruction a state in which the code fails the manual: zero divisors, overflowing and odd addresses, unprivileged mode, removed instructions and lost operands |
| Divergence.WrittenExactly | src/cpu/cpu.c:614-628 | An assembled instruction does in every state what its mnemonic and operands name if and only if it is none of the divergent forms, or it is MOD R0, R0, 1 |
| Divergence.SexWitness | src/cpu/cpu.c:739-766 | A state in which SEX of any sub-register but number 0 does not extend that sub-register |
| Divergence.ModWitness | src/cpu/cpu.c:614-628 | A state in which MOD with an immediate does not reduce by the immediate that is written |
| Divergence.LoadWitness | src/assembler/vasm.y:570-580 | A state in which the conditional 16-bit LOADRD does not load what is written |
| Divergence.ControlWitness | src/assembler/vasm.y:837-846 | A state in which the conditional XCHGC does not exchange the register that is written |
| Machine.SexReadsLowPart | src/cpu/cpu.c:739-766 | SEX extends the low byte or word of the 32-bit register its operand numbers |
| Storage.PutRegIsWrite | src/cpu/cpu.c:307-325 | The register file is one flat little-endian byte array: setting a register of any size overwrites exactly its own bytes |
| Storage.GetRegIsRead | src/cpu/cpu.c:301-318 | Reading a register of any size decodes its own bytes of the flat file |
| Storage.LoadStored | src/cpu/memory.c:31-129 | What was stored with a size is read back with it |
| Storage.LoadOther | src/cpu/memory.c:31-129 | A store does not change what disjoint loads of any size read |
| Processor.MaskedReplace | src/cpu/cpu.c:307-325 | Masking a field out and or-ing a value in replaces exactly that byte or word |
| Transfers.FourByteStores | src/cpu/cpu.c:968-1000 | Four STORERD of a register's bytes to consecutive addresses store what one STORERD of the register stores, under any condition |
| Transfers.TwoWordStores | src/cpu/cpu.c:968-1000 | Two STORERD of a register's words store what one STORERD of the register stores, under any condition |
| Effects.StoreThenLoadBack | src/cpu/cpu.c:581-612 | Storing and loading back through the same operands changes no register, overflowing addresses included |
| Transfers.CompareExchangeMeaning | src/cpu/cpu.c:446-473 | Z tells whether memory held the expected value; memory or the register is updated accordingly, and nothing else changes |
| Transfers.RetrySucceeds | src/cpu/cpu.c:446-473 | A failed CMPXCHG whose address register survives, repeated at once, succeeds if and only if the expected value is not in FLGS or has no Z bit |
| Stack.StoreThenLoad | src/cpu/cpu.c:941-965 | STOREMA then LOADMA of equal length through one base moves the block for every range, overlap and address wrap-around, and restores the base even inside a range |
| Routines.BlockMoveRuns | src/cpu/cpu.c:941-965 | The bytes of STOREMA and LOADMA, conditions and fetches included, move the block from memory, whatever the ranges, unless the store hits the second instruction |
| Stack.StoreFrame | src/cpu/cpu.c:941-965 | STOREMA writes nothing outside the n dwords that end with its base, for every base, modulo 2^32 |
| Stack.StoredBlock | src/cpu/cpu.c:941-965 | Every pushed register stands in its own slot, undisturbed by later ones |
| Stack.PopAllSlots | src/cpu/cpu.c:551-579 | A multi-register load fills the registers from successive slots and moves the address by four each |
| Stack.StackRefinesLifo | src/assembler/vasm.y:924-968 | Any run of PUSH and POP under any conditions on registers other than SP refines an abstract stack: memory spells it, SP is base - 4*depth, pops return pushes in reverse, skipped ones do nothing, memory outside the area is unchanged |
| Routines.PushPopRuns | src/assembler/vasm.y:924-968 | The same for the processor running the encoded bytes of the PUSHes and POPs from memory outside the stack's area |
| Processor.Emulator.StoreRange | src/cpu/cpu.c:954-964 | The upward register loop stores the block the specification names and moves the base |
| Processor.Emulator.PopRange | src/cpu/cpu.c:564-576 | The loop that counts an unsigned byte down, to 0 as well, terminates with the right registers |
| Arithmetic.RippleAdd | src/tests/64adder.V:5-9 | ADD and a chain of ADDIC over any number of distinct registers leave the sum modulo 2^(32*limbs) and set C exactly when it does not fit, whether or not the ADDICs are skipped |
| Routines.RippleRuns | src/tests/64adder.V:5-9 | The same for the processor running the encoded bytes of the routine, wherever they stand |
| Arithmetic.CarryRipples | src/cpu/cpu.c:117-119 | A chain of ADDIC adds the incoming carry to the number |
| Arithmetic.CompareDecides | src/cpu/cpu.c:74-132 | After CMP each condition code decides exactly its order relation, unsigned or signed |
| Arithmetic.OppositeNegates | src/cpu/cpu.c:76-122 | Paired condition codes are exact negations under all flags |
| Arithmetic.CompareAgreesWithSub | src/cpu/cpu.c:875-910 | CMP's C is SUB's carry, its S is SUB's sign xor overflow, its Z tells a zero difference |
| Effects.AddSubExact | src/cpu/cpu.c:353-388 | O is clear exactly when the signed sum or difference is exact, C exactly when the unsigned one is |
| Effects.MulExact | src/cpu/cpu.c:842-873 | MUL and SMUL leave the same 32 bits; C and O tell whether the unsigned and signed products are exact |
| Effects.DivModSplit | src/cpu/cpu.c:475-490 | Quotient times divisor plus remainder is the dividend, the remainder below the divisor |
| Effects.ShiftCarry | src/cpu/cpu.c:798-840 | C is the bit that a shift by one pushes out |
| Effects.LogicBits | src/cpu/cpu.c:390-401 | AND, OR and XOR act on each bit alone |
| Effects.NotBits | src/cpu/cpu.c:689-693 | NOT inverts each of the 32 bits |
| Effects.SignExtendValue | src/cpu/cpu.c:746-762 | Sign extension keeps the signed value |
| Routines.CallThenReturn | src/cpu/cpu.c:403-413 | From an LDCALL in an assembled image, through a routine of any length that leaves RC alone, the bytes of a JMP RC bring control back behind the LDCALL, everything else as the routine left it |
| Shifts.SarBits | src/cpu/cpu.c:716-737 | SAR, floor division by 2^k of the signed value, moves bits down and fills with the sign bit |
| Shifts.ShlBits | src/cpu/cpu.c:798-818 | SHL moves bits up and fills with zeros |
| Shifts.ShrBits | src/cpu/cpu.c:820-840 | SHR moves bits down and fills with zeros |
| Shifts.SdivOverflow | src/cpu/cpu.c:786-793 | SDIV sets O exactly for INT_MIN divided by -1 and then leaves 0; otherwise it leaves the truncated quotient |
| Shifts.SdivVersusSar | src/cpu/cpu.c:768-796 | SDIV by 2^k leaves what SAR by k leaves, plus one exactly for negative inexact dividends |
| Shifts.DivIsShr | src/cpu/cpu.c:475-490 | DIV by a power of two is SHR |
| Shifts.MulIsShl | src/cpu/cpu.c:666-687 | MUL by a power of two is SHL modulo 2^32 |
| Shifts.ModIsAnd | src/cpu/cpu.c:614-628 | The register form of MOD by a power of two is AND with the mask below |
| Shifts.TestFlags | src/cpu/cpu.c:1003-1035 | TEST's Z, S, E and P agree with the numeric value and the parity of its one bits; C and O stay |
| Shifts.XorPopCount | src/cpu/cpu.c:1025-1034 | The parity of an exclusive or is the exclusive or of the parities |
| Shifts.XorThenTest | src/cpu/cpu.c:1053-1064 | TEST of a XOR sets P exactly when the operands' parities differ |
| Words.BitwiseSplit | src/common/macros.h:53-68 | A bitwise operator works independently below and above any bit position |
| Words.BitwiseAtBit | src/cpu/cpu.c:390-401 | Each result bit is the gate of the operand bits |
| Isa.PutHas | src/cpu/cpu.c:379-387 | Writing one flag leaves the other five alone |
| Execution.FreeRunIsStepping | src/cpu/cpu.c:53-264 | Free running ends if and only if single stepping in a loop does, with the same final state and code |
| Execution.RunCounts | src/cpu/cpu.c:58-60 | The instruction count rises by one per fetch, skipped instructions included, modulo 2^64 |
| Execution.RunSplit | src/cpu/cpu.c:53-262 | A run of m + n steps is a run of m continued for n |
| Processor.Emulator.CpuExecute | src/cpu/cpu.c:44-265 | The processor loop: one specified step when stepping; the specified run to STOP or FAIL, with its code, otherwise |
| Processor.Emulator.RunFreely | src/cpu/cpu.c:53-262 | The free-running loop leaves exactly the final state and code of the specified run |
| Processor.Emulator.ExecuteOne | src/cpu/cpu.c:58-257 | Fetch, count, condition test and switch make one specified step |
| Processor.Emulator.FetchInstruction | src/cpu/decode.c:50-78 | The position moves by four and the context holds the decoded word |
| Processor.Emulator.ConditionHolds | src/cpu/cpu.c:74-132 | The mask tests of the condition switch decide the condition |
| Processor.Emulator.LoadImage | src/emulator.c:57-58 | Memory changes exactly in the image's bytes and the position is the load address |
| Processor.Emulator.constructor | src/mkcontext.c:81-105 | Zeroed memory, position 0 and the documented initial registers; other registers arbitrary |
| Execution.RunHalts | src/cpu/cpu.c:157-232 | A run ends with a code if and only if it comes to a STOP or FAIL whose condition holds, and then it ends there with 0 or the immediate |
| Processor.Emulator.WriteByte | src/cpu/memory.c:31-41 | Exactly one byte of memory changes |
| Processor.Emulator.WriteWord | src/cpu/memory.c:43-54 | Exactly two bytes change, low byte first |
| Processor.Emulator.WriteDword | src/cpu/memory.c:56-70 | Exactly four bytes change, lowest first |
| Processor.Emulator.ReadByte | src/cpu/memory.c:72-88 | The byte at the address |
| Processor.Emulator.ReadWord | src/cpu/memory.c:90-107 | The shift-and-or of two bytes is the little-endian word |
| Processor.Emulator.ReadDword | src/cpu/memory.c:109-129 | The shift-and-or of four bytes is the little-endian dword |
| Processor.Emulator.GetByteReg | src/cpu/cpu.c:301-305 | The shift and mask code reads exactly the named part of the register |
| Processor.Emulator.SetByteReg | src/cpu/cpu.c:307-312 | The shift and mask code replaces exactly the named part of the register |
| Processor.Emulator.GetWordReg | src/cpu/cpu.c:314-318 | The shift and mask code reads exactly the named part of the register |
| Processor.Emulator.SetWordReg | src/cpu/cpu.c:320-325 | The shift and mask code replaces exactly the named part of the register |
| Processor.Emulator.AssignFlag | src/cpu/cpu.c:379-387 | The or-mask and inverted and-mask write exactly one flag bit |
| Processor.Emulator.PushDword | src/cpu/cpu.c:327-336 | The dword goes where the register points, then the register moves down by four, wrapping |
| Processor.Emulator.PopDword | src/cpu/cpu.c:338-351 | The register moves up by four first, then the dword there is loaded |
| Processor.Emulator.InsAdd | src/cpu/cpu.c:353-388 | The whole new processor state is that of the dispatched action |
| Processor.Emulator.InsAnd | src/cpu/cpu.c:390-401 | The whole new processor state is that of the dispatched action |
| Processor.Emulator.InsCall | src/cpu/cpu.c:403-413 | The whole new processor state is that of the dispatched action |
| Processor.Emulator.InsCmp | src/cpu/cpu.c:415-444 | The whole new processor state is that of the dispatched action |
| Processor.Emulator.InsCmpxchg | src/cpu/cpu.c:446-473 | The whole new processor state is that of the dispatched action |
| Processor.Emulator.InsDiv | src/cpu/cpu.c:475-490 | The whole new processor state is that of the dispatched action; division by zero changes nothing |
| Processor.Emulator.InsJmp | src/cpu/cpu.c:498-505 | The whole new processor state is that of the dispatched action |
| Processor.Emulator.InsLoadi | src/cpu/cpu.c:507-516 | The whole new processor state is that of the dispatched action |
| Processor.Emulator.InsLoadid | src/cpu/cpu.c:518-549 | The whole new processor state is that of the dispatched action; an address above 32 bits changes nothing |
| Processor.Emulator.InsLoadma | src/cpu/cpu.c:551-579 | The whole new processor state is that of the dispatched action |
| Processor.Emulator.InsLoadrd | src/cpu/cpu.c:581-612 | The whole new processor state is that of the dispatched action |
| Processor.Emulator.InsMod | src/cpu/cpu.c:614-628 | The whole new processor state is that of the dispatched action; the immediate prefix is ignored as in the code |
| Processor.Emulator.InsMov | src/cpu/cpu.c:630-654 | The whole new processor state is that of the dispatched action |
| Processor.Emulator.InsMovfc | src/cpu/cpu.c:656-659 | The whole new processor state is that of the dispatched action |
| Processor.Emulator.InsMovtc | src/cpu/cpu.c:661-664 | The whole new processor state is that of the dispatched action |
| Processor.Emulator.InsMul | src/cpu/cpu.c:666-687 | The whole new processor state is that of the dispatched action |
| Processor.Emulator.InsNot | src/cpu/cpu.c:689-693 | The whole new processor state is that of the dispatched action |
| Processor.Emulator.InsOr | src/cpu/cpu.c:695-706 | The whole new processor state is that of the dispatched action |
| Processor.Emulator.InsSar | src/cpu/cpu.c:716-737 | The whole new processor state is that of the dispatched action |
| Processor.Emulator.InsSex | src/cpu/cpu.c:739-766 | The whole new processor state is that of the dispatched action; the code, not the manual, is followed |
| Processor.Emulator.InsSdiv | src/cpu/cpu.c:768-796 | The whole new processor state is that of the dispatched action; division by zero changes nothing |
| Processor.Emulator.InsShl | src/cpu/cpu.c:798-818 | The whole new processor state is that of the dispatched action |
| Processor.Emulator.InsShr | src/cpu/cpu.c:820-840 | The whole new processor state is that of the dispatched action |
| Processor.Emulator.InsSmul | src/cpu/cpu.c:842-873 | The whole new processor state is that of the dispatched action |
| Processor.Emulator.InsSub | src/cpu/cpu.c:875-910 | The whole new processor state is that of the dispatched action |
| Processor.Emulator.InsStoreid | src/cpu/cpu.c:912-939 | The whole new processor state is that of the dispatched action |
| Processor.Emulator.InsStorema | src/cpu/cpu.c:941-965 | The whole new processor state is that of the dispatched action |
| Processor.Emulator.InsStorerd | src/cpu/cpu.c:968-1000 | The whole new processor state is that of the dispatched action; an address outside 32 bits changes nothing |
| Processor.Emulator.InsTest | src/cpu/cpu.c:1003-1035 | The whole new processor state is that of the dispatched action |
| Processor.Emulator.CountBits | src/cpu/cpu.c:1025-1034 | The loop that shifts a value out counts its one bits |
| Processor.Emulator.InsXchg | src/cpu/cpu.c:1037-1043 | The whole new processor state is that of the dispatched action |
| Processor.Emulator.InsXchgc | src/cpu/cpu.c:1045-1051 | The whole new processor state is that of the dispatched action |
| Processor.Emulator.InsXor | src/cpu/cpu.c:1053-1064 | The whole new processor state is that of the dispatched action |

## Left out

- Cache, memory management, DMA, interrupts, timer and graphics: described in the manual, their code is gone.
- Manual.MeetsManual: reads the manual with paging off, and names the exception that is raised without modelling how the processor then handles it.
- Port input and output (`ins_in`, `ins_out`), logging, timing and the register dump: a step that reaches a port ends in `Device`.
- Text: scanning, parsing and the name tables. Programs are lists of statements with registers and mnemonics given by number; a line of disassembly is mnemonic, condition and operands by number and table.
- Vasm.EmitInstruction: does not cover MOVTC with a register first and MOVFC with a control register first, which the grammar accepts and the manual does not define; nor a VI-format mnemonic other than CMP with an immediate, which is an error before anything is emitted.
- Boot.AssembleLoadRun: specified for programs that come to STOP or FAIL without storing into instructions, and as `Vasm.Assemble`.
- `.at`: the statement list has no way to move the position backward or over a gap; the emitter's contracts cover a position below the high-water mark, as label resolution needs it.
- Emitter.EmitContext.HandleExceedingBuffer: specified where clearing the new block stays inside the allocation; elsewhere the C code writes past it.
- Emitter.EmitContext.MakeRoom: specified where growth is right, as `Emitter.GrowthExact` says.
- Vasm.Action: in a growing buffer, specified for statements none of whose emissions straddles two 512-byte blocks; at every other one the C code writes past the allocation (`Growth.StraddleOverruns`).
- Vasm.Assemble: in a growing buffer, specified for programs in which no emission straddles two blocks, the exact condition under which growth is right (`Growth.ProgramGrowth`); and for images that end 128 KiB below 4 GiB, where positions cannot wrap.
- Processor.Emulator.ExecuteOne: specified for steps that reach no port and no address outside memory.
- Processor.Emulator.CpuExecute: a free run that never reaches STOP or FAIL does not return and is not specified.
- Failure branches of push, pop, LOADMA and STOREMA: the memory functions always succeed, so they cannot run.
- Allocation failure, files and command-line handling.
- The inline x86 assembly of ADD, SUB and SMUL is given its mathematical carry and overflow.
- The partial x86 translator, the code in the repository's own high-level language and the Python test generator.
