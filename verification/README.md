# Proofs about the AMDGPU assembler helper tools

This project models the algorithms of the repository and proves what they keep:

- **the sp3 converter** (`bin/sp3_to_mc.pl`): a line loop with a scope stack and one parameter list. The
  model has the lines, the loop, the assembler's expansion of `.irp`, `.if` and `.macro`, and two meanings of a
  program, that of its source and that of the text the converter makes of it. For every program, converting
  and then assembling is running the text; for every program whose words find their values in the text it is
  running the source;
- **the register and LDS allocator** (`examples/gfx8/gpr_alloc.inc`): every macro as a step on the
  assembler symbols, with ghost ownership of blocks added;
- **the wavefront kernels** (`examples/gfx8/*.s`): lockstep register programs over 64 lanes, from the packed
  kernel arguments to memory;
- **half and single precision**: rounding to nearest even as in sections 4.3.1 and 5.4.1 of IEEE 754-2008, the two
  fp16 kernels, the host's bit-level conversions (`examples/common/half.cpp`) and its check of the kernel, and
  v_add_f32 on register words;
- **the host side** (`examples/common/dispatch.cpp`): kernel argument packing and AQL packet submission by
  any number of interleaved submitters;
- **the ELF tool** (`amdphdrs/amdphdrs.c`) and **the debug register ring** (`examples/gfx8/debug.inc`).

`dafny verify dfyconfig.toml` checks everything.

## How the files fit together

| files | content |
|---|---|
| `Bits`, `Memory` | powers of two, `&` and `|` on naturals; little-endian byte memory |
| `Sp3Syntax`, `Sp3Translator` | lines, trees, the converter's loop |
| `GasExpansion`, `Sp3Meaning` | what the assembler does with the output; the two meanings of a program |
| `Sp3Blocks`, `Sp3Text` | the output block by block; assembling it is running the text, for every program |
| `Sp3Simulation`, `Sp3Parse` | when the text means what the source means; trees and lines |
| `Sp3Lines`, `Sp3Constructs` | what each line becomes; what calls, loops, conditionals and assignments come to |
| `Sp3Scope`, `Sp3Limits` | the scope stack on arbitrary input; where the converter fails, exactly |
| `GprAlloc`, `GprSafety`, `GprMacros` | the allocator's steps; what every run of them keeps; the macros |
| `Rounding`, `Binary32` | rounding to p bits; binary32 words and their addition |
| `HalfAdd`, `HalfConvert`, `HostCheck` | f16 addition, float/half conversion, the host's check |
| `DppScan`, `FloatScan` | the prefix sum, for any monoid and for v_add_f32 |
| `Wave`, `BPermute`, `FloatKernels` | registers and memory of a wavefront; the kernels |
| `RealTime` | the wait loop on the 64-bit counter |
| `Kernarg`, `AqlQueue` | argument packing, packet submission |
| `ProgramHeaders`, `DebugRing` | segment layout, debug dumps |

## What the code does not keep

These were found while proving; each is a lemma with the exact condition.

- The converter escapes a parameter only before a space, a comma or the line end. The name called, the last
  argument of a call and any word in front of a parenthesis, in whatever statement, is never escaped: a function
  that hands its parameter on there passes the parameter's name (`Sp3Limits.EscapeNeeded`). For words in general
  the condition is `Sp3Simulation.WordExact`.
- An `else` with no space behind it is not converted: one of the branches becomes both or none
  (`Sp3Limits.BareElseKept`).
- A `for` without iterations gives an `.irp` without values, which does not assemble (`Sp3Limits.EmptyLoopKept`).
- An inner function replaces the outer one's parameters and clears them at its end, so they keep their names inside it
  (`Sp3Limits.OuterParameterInside`) and behind it (`Sp3Limits.NestedFunctionForgets`, `Sp3Limits.NestedFunctionKept`).
- Of two expansions that substitute for the same name the outer one wins: an inner loop over the same variable
  sees the outer value (`Sp3Limits.ShadowedLoop`), an inner function's parameter named like the outer function's gets
  the outer argument (`Sp3Limits.ShadowedParameter`), and a parameter named like the variable of a loop around its
  function gets the loop's value (`Sp3Limits.ParameterNamedLikeLoop`). A loop variable named like a parameter of
  its function gets two backslashes: the function puts its argument behind the outer one, so the variable gets its
  values only when the argument is its own name (`Sp3Limits.LoopNamedLikeParameter`).
- One concrete failing program for each of these causes is in `Sp3Limits.FailingInputs`.
- The allocator promises an occupancy that it keeps exactly when the maximum number of waves is at most 10
  or the promised minimum is at most 1 (`GprSafety.OccupancyExact`), and `GprSafety.PromiseBroken` is a kernel
  that breaks it; going back with `*_ALLOC_FROM` is harmless exactly when no live block is entered
  (`GprSafety.FromExact`); allocate-once guards survive into the next kernel (`GprSafety.OnceInNextKernel`),
  where the name can then share its register with a live one (`GprSafety.OnceStale`); reserved SGPRs escape the availability check (`GprSafety.ReservedNotChecked`), so a kernel can declare 103
  (`GprSafety.TooManySgprs`).
- The delay of the wait loop is guaranteed exactly when start plus ticks does not wrap
  (`RealTime.DelayExact`).
- A submitter gets a slot of its own exactly while fewer packets are outstanding than the queue has slots;
  the code never looks at the read index (`AqlQueue.NextSlotFreeIff`). With one reservation too many the
  processor can take a packet that nobody submitted (`AqlQueue.OverrunMixes`).
- The host checks the storage kernel against a truncating conversion although the kernel rounds to nearest. In
  range it accepts exactly the sums whose 13 dropped bits are below one half, or one half after an even last bit;
  `HostCheck.HostCheckExact` also has the sums outside the range of normal halves. For 2048 + 1.5 it rejects the correctly rounded 2050 (`HostCheck.HostRejects`).
- Zero is not an identity of v_add_f32 on all register contents (`FloatScan.F32NotMonoid`), so the prefix sum of
  floats is justified by exactness, for whole numbers with a total up to 2^24 (`FloatScan.FloatSums`).

## Model

| member | source | states |
|---|---|---|
| Sp3Text.ConvertedMeaning | bin/sp3_to_mc.pl:54-88 | for every program, evaluator and macro depth, without any condition: assembling the converted lines fails exactly when running the program on its text fails, and else yields the same statements and symbols |
| Sp3Text.RunsAsText | bin/sp3_to_mc.pl:54-88 | the inductive step, inside any expansions and in front of any further lines |
| Sp3Simulation.MeaningPreserved | bin/sp3_to_mc.pl:54-88 | when every word finds its value, no loop is empty and no `else` is bare, assembling the converted lines fails exactly when the source program fails, and else yields the same statements with the same symbol values |
| Sp3Simulation.Simulates | bin/sp3_to_mc.pl:54-88 | in scopes that agree, running such a program on the text and in the source takes related worlds to related worlds |
| Sp3Simulation.WordsAgree | bin/sp3_to_mc.pl:72-74 | words that find their values in the text have there the values they have in the source |
| Sp3Simulation.WordExact | bin/sp3_to_mc.pl:72-74 | in every surrounding of loops and functions a word means the same in the text, whatever the values, if and only if it is escaped just when it is a parameter and no expansion further out takes its name |
| Sp3Simulation.CtxsOk | bin/sp3_to_mc.pl:55-82 | what WordExact assumes of a surrounding holds at the top and is kept by every loop and function entered and by every program passed |
| Sp3Parse.ScriptMeaningPreserved | bin/sp3_to_mc.pl:54-88 | the same for scripts given as well-nested line sequences |
| Sp3Parse.WellNestedIsTree | bin/sp3_to_mc.pl:55-85 | a line sequence is well nested if and only if it flattens a tree; the tree is unique and parsing finds it |
| Sp3Blocks.LoopCompiles | bin/sp3_to_mc.pl:54-88 | entered in any scope, the line loop translates any block as a whole and returns to the scope it started with, and to its parameter list unless a function has ended |
| Sp3Blocks.FindSkips | bin/sp3_to_mc.pl:56-84 | the assembler's search for a block end, which counts one kind of block only, steps over every block the converter wrote |
| Sp3Translator.Translate | bin/sp3_to_mc.pl:52-88 | the imperative loop with its scope stack and parameter list writes what the line-by-line specification says, whose lines EveryLine describes |
| Sp3Translator.ListValues | bin/sp3_to_mc.pl:57-60 | the value loop terminates and lists the specified values |
| Sp3Translator.IrpValuesProgression | bin/sp3_to_mc.pl:55-61 | the values are start + k * step in order, all below the bound, ceil((bound - start) / step) of them |
| Sp3Lines.EveryLine | bin/sp3_to_mc.pl:54-86 | every line of every input becomes the line its kind asks for, with all its words in their order: loop values by number, call arguments by position, the last one never escaped, other words escaped exactly when they are current parameters and a space, a comma or the line end follows |
| Sp3Lines.EscapedParameters | bin/sp3_to_mc.pl:70-82 | the current parameters are those of the last `function` line, or none once a function has ended after it |
| Sp3Lines.NothingEscaped | bin/sp3_to_mc.pl:53-74 | before the first `function` line there are none |
| Sp3Syntax.DecReadsBack | bin/sp3_to_mc.pl:57-60 | a printed value read as a decimal number is the value, and has no leading zero |
| Sp3Constructs.CallSubstitutes | bin/sp3_to_mc.pl:67-86 | a call assembles to the function's body with every parameter, in whatever position, replaced by the argument in the same position; a missing argument is blank, one too many is an error |
| Sp3Constructs.LoopRepeats | bin/sp3_to_mc.pl:55-61 | a loop assembles to its body once for each value in order, with the value for the variable |
| Sp3Constructs.BranchTaken | bin/sp3_to_mc.pl:66-79 | a conditional assembles to its first branch when the condition is not zero, else to its second |
| Sp3Constructs.AssignedSeen | bin/sp3_to_mc.pl:65 | a `var` gives the symbol the value of its expression, and later statements see it |
| Sp3Constructs.WriteToExample | examples/sp3/function.sp3:43-48 | the two instructions that the repository's own example comes to |
| Sp3Scope.ScopeIsOpenBlocks | bin/sp3_to_mc.pl:62-84 | after every prefix of every input the stack is the list of blocks still open, judged by the lines that follow each opener |
| Sp3Scope.EndClosesInnermost | bin/sp3_to_mc.pl:77-85 | an `end` becomes the closer of the innermost open block, and passes through when none is open |
| Sp3Scope.BalanceKept | bin/sp3_to_mc.pl:55-85 | the output is balanced if and only if the input is |
| Sp3Limits.EscapeNeeded | bin/sp3_to_mc.pl:72-86 | a function that uses a word as the name called, as last argument or in front of a parenthesis keeps its meaning if and only if the word is not its parameter or name and value coincide |
| Sp3Limits.NestedFunctionForgets | bin/sp3_to_mc.pl:70-82 | the loop returns to its state after a function if and only if no parameters were current before it |
| Sp3Limits.NestedFunctionKept | bin/sp3_to_mc.pl:70-82 | behind any inner function the meaning is kept if and only if the word used is no parameter, or name and value coincide |
| Sp3Limits.OuterParameterInside | bin/sp3_to_mc.pl:67-82 | a function inside a function, with a call behind it, keeps its meaning if and only if the outer parameter is used neither in the inner body nor as the argument that matters, or name and value coincide |
| Sp3Limits.ShadowedParameter | bin/sp3_to_mc.pl:67-82 | an inner function with the outer one's parameter keeps its meaning if and only if both get the same argument |
| Sp3Limits.BareElseKept | bin/sp3_to_mc.pl:76 | a conditional with two statements keeps its meaning if and only if its `else` is not bare |
| Sp3Limits.EmptyLoopKept | bin/sp3_to_mc.pl:56-61 | a program that starts with a loop without iterations never assembles, so its meaning is kept if and only if the rest of it fails |
| Sp3Limits.ShadowedLoop | bin/sp3_to_mc.pl:55-61 | a loop in a loop over the same variable keeps its meaning if and only if both run once with the same value |
| Sp3Limits.LoopNamedLikeParameter | bin/sp3_to_mc.pl:55-74 | a loop in a function keeps its meaning if and only if its variable is not named like the parameter, or the argument is the variable's name |
| Sp3Limits.ParameterNamedLikeLoop | bin/sp3_to_mc.pl:55-74 | a function in a loop keeps its meaning if and only if parameter and variable differ, or both fail in a second iteration, or the values coincide |
| Sp3Limits.FailingInputs | bin/sp3_to_mc.pl:55-86 | one concrete program for each cause whose meaning is lost under every evaluator |
| Sp3Limits.ConditionNamesIgnored | bin/sp3_to_mc.pl:55-57 | the names in the condition and the increment make no difference |
| GprSafety.RunsAreSafe | examples/gfx8/gpr_alloc.inc:23-39 | every error-free run keeps live blocks of a class disjoint, aligned and inside the available range |
| GprSafety.KernelIsSafe | examples/gfx8/gpr_alloc.inc:3-21 | the same for a run that starts with `.GPR_ALLOC_BEGIN` in any state |
| GprSafety.AllocationKeepsSafe | examples/gfx8/gpr_alloc.inc:144-173 | each allocating macro keeps the invariant when it raises no error |
| GprSafety.FromExact | examples/gfx8/gpr_alloc.inc:120-130 | `*_ALLOC_FROM` is harmless for every later allocation if and only if it enters no live block |
| GprSafety.ReuseMoves | examples/gfx8/gpr_alloc.inc:185-192 | reuse between distinct names moves one block and touches no other name |
| GprSafety.OccupancyExact | examples/gfx8/gpr_alloc.inc:99-118 | at an error-free end the VGPR and SGPR granules cover what was allocated and reserved, with less than one granule to spare over the declared count, the LDS size is the LDS pointer, and the promised occupancy holds if and only if max waves <= 10 or min waves <= 1 |
| GprSafety.EndDeclared | examples/gfx8/gpr_alloc.inc:106-116 | the declared counts are exactly the larger of the table's row and of what was used, SGPRs with two more for each reserved kind |
| GprSafety.EndCovers | examples/gfx8/gpr_alloc.inc:106-116 | in a sound state every live block of each class lies within the counts declared at the end |
| GprSafety.FailsExactly | examples/gfx8/gpr_alloc.inc:23-192 | for every macro, the exact condition under which it raises an error |
| GprSafety.HandedOut | examples/gfx8/gpr_alloc.inc:144-183 | an error-free allocation gives its name a block of the size asked for, at the pointer; without an alignment up to four SGPRs start at a multiple of their number and more at a multiple of four |
| GprSafety.NoneSkipped | examples/gfx8/gpr_alloc.inc:144-183 | over any run without begin or `*_ALLOC_FROM` the register pointers advance by exactly what was asked for |
| GprSafety.ReservedInRun | examples/gfx8/gpr_alloc.inc:132-142 | each reserve command counts once, however often it is given |
| GprSafety.UnpairedEnd | examples/gfx8/gpr_alloc.inc:100-102 | a second end without a begin in between is an error after any commands |
| GprSafety.KernelKeepsPromise | examples/gfx8/gpr_alloc.inc:75-118 | the same for whole runs from begin to end |
| GprSafety.LimitsStayMatched | examples/gfx8/gpr_alloc.inc:41-96 | in every run the availability is the table's row for the current minimum |
| GprSafety.TableAntitone | examples/gfx8/gpr_alloc.inc:41-73 | more waves never get more registers |
| GprSafety.ReservedNotChecked | examples/gfx8/gpr_alloc.inc:106-113 | the declared SGPR count stays within 102 if and only if allocated plus reserved ones do |
| GprSafety.PromiseBroken | examples/gfx8/gpr_alloc.inc:88-118 | a kernel that promises two waves and ends without an error with 256 VGPRs for each |
| GprSafety.TooManySgprs | examples/gfx8/gpr_alloc.inc:106-113 | a kernel that ends without an error and declares 103 SGPRs |
| GprSafety.StepKeepsSound | examples/gfx8/gpr_alloc.inc:3-192 | every macro that raises no error keeps live blocks apart, aligned and in range, and the limits matched |
| GprSafety.OnceIsIdempotent | examples/gfx8/gpr_alloc.inc:175-183 | after the first allocate-once of a name and any commands since, another one changes nothing |
| GprSafety.OnceInNextKernel | examples/gfx8/gpr_alloc.inc:175-183 | after a new begin the name gets a register if and only if it never had one this way |
| GprSafety.OnceStale | examples/gfx8/gpr_alloc.inc:175-183 | a run of two kernels without an error after which two names stand for one register |
| GprSafety.LdsLeast | examples/gfx8/gpr_alloc.inc:166-171 | the LDS pointer is the least multiple of the alignment not below the old one |
| GprSafety.LdsPadding | examples/gfx8/gpr_alloc.inc:166-173 | over any interleaving the pointer advances by all bytes plus padding of at most the sum of (alignment - 1) |
| GprMacros.Symbols.GprAllocBegin | examples/gfx8/gpr_alloc.inc:3-21 | pointers zero, 256 VGPRs, 102 SGPRs and 65536 LDS bytes available, nothing reserved, no block live, user symbols, guards and the error flag unchanged, and the invariant holds whatever was before |
| GprMacros.Symbols.SetMinWavesLimit | examples/gfx8/gpr_alloc.inc:75-86 | limits from the table, both checks, then the minimum; without an error live blocks still fit and the limits match |
| GprMacros.Symbols.SetMaxWavesLimit | examples/gfx8/gpr_alloc.inc:88-96 | only the lower bound of the maximum is checked; the invariant is kept |
| GprMacros.Symbols.GprsForWaveLimit | examples/gfx8/gpr_alloc.inc:41-73 | for 1 to 10 waves the most VGPRs, in granules of four, that so many waves can have of 256, and 256 otherwise; 80 SGPRs for ten waves, 96 for eight and nine, else 102 |
| GprMacros.Symbols.GprAllocEnd | examples/gfx8/gpr_alloc.inc:99-118 | without an error every live block lies within the declared counts, which are tight to a granule, the LDS size is the LDS pointer, and the occupancy is kept if and only if max waves <= 10 or min waves <= 1 |
| GprMacros.Symbols.VgprAlloc | examples/gfx8/gpr_alloc.inc:144-148 | the step of the command; without an error the new block is in range and meets no live one |
| GprMacros.Symbols.SgprAlloc | examples/gfx8/gpr_alloc.inc:150-164 | the same, and the base is a multiple of the effective alignment |
| GprMacros.Symbols.LdsAllocate | examples/gfx8/gpr_alloc.inc:166-173 | the same for LDS, after rounding up |
| GprMacros.Symbols.SgprAllocOnce | examples/gfx8/gpr_alloc.inc:175-183 | the same on the first call; a later one changes nothing |
| GprMacros.Symbols.GprReuse | examples/gfx8/gpr_alloc.inc:189-192 | the block moves to the new name, live blocks stay apart |
| Rounding.RoundNearest | examples/gfx8/fp16_native.s:97 | the rounding used for f16 and f32 is nearest: no representable value is closer |
| Rounding.RoundRepresentable | examples/gfx8/fp16_native.s:97 | the rounded value is representable |
| Rounding.DoubleRounding | examples/gfx8/fp16_storage.s:97-104 | for sums and differences of p-bit values, rounding to q >= 2p + 2 bits first never changes the p-bit result |
| Rounding.TiesToEven | examples/gfx8/fp16_native.s:97 | when another representable value is as close, the rounded one is an even multiple of the unit |
| Rounding.RoundScaled | examples/gfx8/fp16_storage.s:97-104 | rounding commutes with powers of two |
| Rounding.SumExact | examples/gfx8/fp16_native.s:97 | the sum of sign-magnitude values is the sum of the signed integers; zero sums are negative only for two negative operands |
| Rounding.RoundsBelow | examples/gfx8/fp16_native.s:97 | a value rounds to less than 2^s if and only if it is below half way between 2^s and the largest p-bit value under it |
| HalfAdd.StorageMatchesNative | examples/gfx8/fp16_storage.s:97-104 | for all finite halves, denormals, zeros, overflow and both flush modes included, widening, adding and narrowing is bit for bit one f16 add |
| HalfAdd.NativeAddNearest | examples/gfx8/fp16_native.s:97 | below 65520 in magnitude the sum is the half nearest to the sum of the two signed values, of two nearest ones the one with an even last bit, with the right sign also of zeros |
| HalfAdd.NativeAddOverflows | examples/gfx8/fp16_native.s:97 | from 65520 on it is the infinity of its sign |
| HalfAdd.FlushedAdd | examples/gfx8/fp16_native.s:97 | with denormals flushed the add is that of operands without denormals, with a zero for a denormal sum |
| HalfAdd.EncodeValue | examples/gfx8/fp16_storage.s:104 | the bits of an 11-bit value read back as that value |
| FloatKernels.NativeKernel | examples/gfx8/fp16_native.s:71-100 | from arguments to memory: element i of the output is the f16 sum of elements i of both inputs, for every lane, and nothing outside the output changes |
| FloatKernels.StorageKernel | examples/gfx8/fp16_storage.s:71-107 | the same with three instructions, so memory is left exactly as the native kernel leaves it |
| FloatKernels.LoadOperands | examples/gfx8/fp16_storage.s:71-95 | operand loads and the output address of both kernels |
| HalfConvert.F2hFields | examples/common/half.cpp:48-57 | for every nonzero pattern the exponent field is (E - 112) mod 32, sign kept, fraction cut |
| HalfConvert.F2hTruncates | examples/common/half.cpp:48-57 | in range: truncation toward zero, error below one unit in the last place, no finite half in between |
| HalfConvert.F2hMonotone | examples/common/half.cpp:48-57 | in range or zero: a larger float never becomes a smaller half, signs included |
| HalfConvert.WidenExact | examples/common/half.cpp:59-69 | widening a normal half keeps sign and value |
| HalfConvert.HalfRoundTrip | examples/common/half.cpp:48-69 | half to float to half is the identity on every half if and only if it is not negative zero |
| HalfConvert.FloatRoundTrip | examples/common/half.cpp:48-69 | the exact exponents for which float to half to float only clears 13 bits |
| HalfConvert.PairIdempotent | examples/common/half.cpp:48-69 | in range the pair is idempotent |
| HalfConvert.TruncationRounds | examples/common/half.cpp:48-57 | in range, truncating is rounding to nearest if and only if the dropped bits are below half, or half with an even last bit |
| HostCheck.HostCheckExact | examples/gfx8/fp16_storage.cpp:85-94 | for all supported operands, in both float modes, the host accepts the half the kernel stores if and only if its own sum is in range and the bits it loses are below half, or half with an even last bit; or is from 65536 on and would be expected as an infinity; or is zero, or half the least normal half when the kernel flushes |
| HostCheck.HostRejects | examples/gfx8/fp16_storage.cpp:85-94 | for 2048 + 1.5 the kernel stores 2050 and the host expects 2048 |
| HostCheck.StoresExpected | examples/gfx8/fp16_storage.s:104 | the stored half is the truncated sum if and only if that condition holds |
| Binary32.FloatBitsValue | examples/gfx8/dpp_reduce.s:82-96 | the bits of a 24-bit value that is not too large read back as that value |
| Binary32.AddFloatNearest | examples/gfx8/dpp_reduce.s:82-96 | up to the overflow limit the f32 sum is the float nearest to the sum of the signed values, ties to an even last bit, with the right sign also of zeros |
| Binary32.AddFloatOverflows | examples/gfx8/dpp_reduce.s:82-96 | from the limit on it is the infinity of its sign |
| DppScan.ScanIsPrefixSum | examples/gfx8/dpp_reduce.s:82-96 | for every monoid and input, lane i ends with the in-order sum of lanes 0 to i, whatever the register held before |
| DppScan.StepWindow | examples/gfx8/dpp_reduce.s:82-96 | each of the seven adds turns the windows of one step into those of the next |
| DppScan.WindowDoubling | examples/gfx8/dpp_reduce.s:87-90 | for any width w, one add from w lanes below doubles windows of w lanes |
| DppScan.Masks | examples/gfx8/dpp_reduce.s:87-96 | which lanes the bank and row masks enable |
| DppScan.Scan | examples/gfx8/dpp_reduce.s:82-96 | the seven adds on one register |
| DppScan.Verify | examples/gfx8/dpp_reduce.cpp:76-89 | the host's loop accepts if and only if every element is the running sum of its block of 64 |
| DppScan.StepsBounded | examples/gfx8/dpp_reduce.s:82-96 | on whole numbers no register of any step exceeds the total of the inputs |
| FloatScan.StepsExact | examples/gfx8/dpp_reduce.s:82-96 | with a total up to 2^24 every register of every lane after every step is the float of the whole number that exact adds give, whatever the register held before |
| FloatScan.AddF32Respects | examples/gfx8/dpp_reduce.s:82-96 | v_add_f32, bit for bit, adds whole numbers up to 2^24 exactly |
| FloatScan.F32NotMonoid | examples/gfx8/dpp_reduce.s:82-96 | adding zero to negative zero changes it, so over all register contents v_add_f32 has no identity 0 |
| FloatScan.FloatSums | examples/gfx8/dpp_reduce.s:67-99 | from memory to memory with v_add_f32: output element i is the float of the sum of inputs 0 to i, nothing else changes |
| FloatScan.KernelPassesVerify | examples/gfx8/dpp_reduce.cpp:79-88 | every element read back is, bit for bit, the host's own float running sum |
| FloatScan.DispatchAndVerify | examples/gfx8/dpp_reduce.cpp:57-89 | end to end: from the two buffer arguments passed by the host to the floats of all running sums in the output buffer, which the host's loop accepts; only the argument block and the output buffer change |
| FloatKernels.PrefixSum | examples/gfx8/dpp_reduce.s:67-99 | from arguments to memory, with the address register as the register's old content |
| FloatKernels.PrefixSumEffect | examples/gfx8/dpp_reduce.s:67-99 | the general form for any monoid on register words: output element i is the in-order sum of inputs 0 to i, nothing else changes |
| Wave.AddressFormed | examples/gfx8/ds_bpermute.s:73-78 | add, move and add-with-carry form the 64-bit sum of base and lane offset |
| Wave.FormAddress | examples/gfx8/ds_bpermute.s:73-78 | the address registers point lane i at element i |
| Wave.StoreEffect | examples/gfx8/ds_bpermute.s:88 | per-lane stores put value i in element i and change nothing else |
| BPermute.Kernel | examples/gfx8/ds_bpermute.s:69-89 | register by register, the kernel stores the gathered values |
| BPermute.GatherEffect | examples/gfx8/ds_bpermute.s:79-88 | out[i] = in[index[i] mod 64], nothing else changes |
| BPermute.InverseRestores | examples/gfx8/ds_bpermute.s:79-88 | a second run with inverse indices restores the input |
| BPermute.Dispatch | examples/gfx8/ds_bpermute.cpp:62-76 | end to end: from the three buffer arguments passed by the host to out[i] = in[index[i] mod 64]; only the argument block and the output buffer change |
| BPermute.DispatchTwice | examples/gfx8/ds_bpermute.cpp:62-76 | a second dispatch on the output of the first, with inverse indices, restores the input |
| Wave.PassPointers | examples/common/dispatch.cpp:438-450 | a loop of KernargBuffer calls and a copy of the block to k put pointer n at k + 8n, where two dword loads find it; memory outside the block is kept |
| BPermute.PackedArgs | examples/gfx8/ds_bpermute.cpp:72-74 | the three pointers packed by the host are the ones loaded at 0x00, 0x08 and 0x10 |
| RealTime.WaitLoop | examples/gfx8/s_memrealtime.s:70-94 | the three-branch 32-bit loop leaves at the first reading not below (start + ticks) mod 2^64 |
| RealTime.ReferenceLoop | examples/gfx8/s_memrealtime_inline.cl:52-62 | the 64-bit loop leaves at the same reading, unless its first comparison already fails |
| RealTime.SameReadings | examples/gfx8/s_memrealtime_inline.cl:56-62 | that comparison lets it in if and only if ticks > 0 and the sum does not wrap |
| RealTime.CarrySum | examples/gfx8/s_memrealtime.s:75-77 | the two 32-bit adds with carry are the wrapped 64-bit sum |
| RealTime.DelayExact | examples/gfx8/s_memrealtime.s:75-94 | leaving guarantees the delay for every such clock if and only if start + ticks < 2^64 |
| RealTime.WaitEnds | examples/gfx8/s_memrealtime.s:81-94 | with a strictly increasing clock the loop ends, within max(1, ticks) readings, or at the first one when the sum wraps |
| Kernarg.Dispatch.constructor | examples/common/dispatch.cpp:251-259 | a fresh block, offset zero |
| Kernarg.Dispatch.KernargRaw | examples/common/dispatch.cpp:438-444 | aligns, copies the bytes, advances; nothing else in the block changes |
| Kernarg.Dispatch.KernargBuffer | examples/common/dispatch.cpp:446-450 | a buffer argument is its 8-byte pointer |
| Kernarg.ArgReadsBack | examples/common/dispatch.cpp:438-444 | after any fitting sequence of calls each argument reads back byte for byte |
| Kernarg.ArgPlacement | examples/common/dispatch.cpp:438-444 | starts are aligned, in order and disjoint, gaps smaller than the alignment |
| Kernarg.PointersBackToBack | examples/common/dispatch.cpp:446-450 | n buffer arguments sit at 0, 8, ..., 8(n-1) |
| Kernarg.AssertAdmits | examples/common/dispatch.cpp:440 | the assertion admits zero and the powers of two, nothing else |
| AqlQueue.PacketsArriveWhole | examples/common/dispatch.cpp:168-210 | in every interleaving the i-th packet consumed is the complete packet of the i-th reservation |
| AqlQueue.SlotsNotShared | examples/common/dispatch.cpp:170-172 | submitters at work at the same time never share a slot |
| AqlQueue.NextSlotFreeIff | examples/common/dispatch.cpp:170-172 | a new reservation gets a slot of its own if and only if fewer than size packets are outstanding |
| AqlQueue.HeadReady | examples/common/dispatch.cpp:201-207 | in every reachable state the oldest packet can be taken if and only if its submitter has published it |
| AqlQueue.AllDelivered | examples/common/dispatch.cpp:168-210 | from every reachable state, every outstanding packet can still be delivered, whole and in order |
| AqlQueue.OverrunMixes | examples/common/dispatch.cpp:170-172 | a run with one reservation more than the queue has slots, and nothing to hold it back, in which the processor takes a packet that is none of those submitted |
| AqlQueue.PacketContents | examples/common/dispatch.cpp:173-198 | the delivered fields that Setup leaves alone, and the wrapped group segment size |
| AqlQueue.SetupWins | examples/common/dispatch.cpp:212-224 | a field that Setup stores keeps the last value |
| AqlQueue.DeliveredDimensions | examples/common/dispatch.cpp:193-199 | every delivered packet has 1 to 3 dimensions: 3 if and only if its submitter's grid is deeper than one, at least 2 if and only if it is deeper or higher than one; a grid left alone has one |
| AqlQueue.DeliveredFields | examples/common/dispatch.cpp:198-224 | and it has the fields its submitter stored last, and the wrapped group segment size |
| AqlQueue.Packet.InitDispatch | examples/common/dispatch.cpp:173-182 | the stores of InitDispatch in program order |
| AqlQueue.Packet.RunDispatch | examples/common/dispatch.cpp:193-204 | the header counts the last grid dimension larger than one; group size stored, header last |
| ProgramHeaders.CountHeaders | amdphdrs/amdphdrs.c:142-156 | two headers if and only if a data section exists |
| ProgramHeaders.Layout | amdphdrs/amdphdrs.c:165-227 | addresses are assigned in order and nothing else in a section changes; header 0 shows file offset, size and assigned address of the last code section, readable and executable, header 1 those of the last data section, readable and writable, each with its type and alignment |
| ProgramHeaders.InOrderApart | amdphdrs/amdphdrs.c:181-209 | loaded sections are in list order, disjoint and inside the range |
| ProgramHeaders.NoGap | amdphdrs/amdphdrs.c:181-209 | every address of [0x10000, 0x10000 + total) belongs to a loaded section |
| DebugRing.Machine.DumpRegisters | examples/gfx8/debug.inc:22-40 | register number first + i, converted, is in the ring slot i behind the write index, for the last 16 of the dump; other slots, other registers and exec are unchanged |
| DebugRing.Machine.DumpAll | examples/gfx8/debug.inc:22-99 | any sequence of dumps leaves the ring and the index that writing all their values one after another leaves, exec and the registers outside the ring as they were |
| DebugRing.RingHoldsLatest | examples/gfx8/debug.inc:28-36 | that index is the old one plus the total, modulo 16, and every slot holds the latest value of its residue |

## Left out

- sp3 lines are modelled as words: what Perl's regular expressions match inside words (a parameter that is the
  tail of a longer word, a line that merely ends in "end", an `if` without a space) is not captured. A word that
  another character than white space or a comma follows is marked as such, so parentheses and brackets behind words
  are; the rewriting of an operand like `vmcnt(0)` by line 86 is not.
- The source meaning follows examples/sp3: bare words name parameters, words with a backslash loop variables.
  A statement runs the function its head names, with or without parentheses, in both meanings.
- A parameter listed twice, which the assembler rejects, is excluded from MeaningPreserved.
- Loop bounds are numbers; a step of 0 makes the script run forever and is excluded by the type of the step.
- A parameter named like a keyword of the converter (`else`, `end`) is not captured.
- The assembler is llvm-mc (README.md:41-52) reading GNU syntax. GNU as differs: it accepts an `.irp` without
  values, which llvm-mc rejects.
- It is modelled by its expansion rules; missing macro arguments are blank, too many are an error,
  and default arguments do not occur in the converter's output.
- Macro expansion is bounded by a nesting depth, as in the assembler; the results hold for every depth, and the
  direct meaning uses the same bound for calls.
- Register counts, byte counts and `*_ALLOC_FROM` values are naturals; negative ones, which the assembler would
  take, are not modelled. Reusing a name that was never defined is an error in the model.
- The SGPR granule count is computed but no hardware limit on SGPRs per wave is claimed; the code has none.
- AqlQueue.PacketsArriveWhole: packet indices are unbounded naturals; wrap-around after 2^64 packets is not modelled. The header word's type, barrier and fence bits are constants and are reduced to "valid".
- The packet processor is allowed to look at a slot at any time, so the doorbell only ends a submission here.
- Kernarg.Dispatch.KernargRaw: capacity and a nonzero alignment are the caller's duty, as in the source, which checks neither.
- Half infinities and NaNs are operands of no addition result here; the conversions cover them as bit patterns only.
- Denormal floats: sums of halves are never denormal in f32, so f32 flushing does not occur.
- Only one wavefront runs: both address computations use the lane id alone. All lanes are active; waits and hazards are taken as observed.
- FloatSums: sums of floats that are not whole numbers, or with a total above 2^24, are rounded on the way; the host's exact comparison promises nothing for them.
- dbg_store, which writes the ring to memory, and the wave id compare in it.
- The file copy, libelf and section name lookup of amdphdrs; alignment of the segments is not claimed, the code does not enforce it.
- HSA runtime calls, regions, code objects, signals and timeouts; the LLVM API examples; the remaining host drivers.
