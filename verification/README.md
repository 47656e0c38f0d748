# Element and LMNT, modelled and proved in Dafny

This project models the parts of the Element repository where a small mistake would be hardest
to see, and proves what they are meant to guarantee. `dafny verify dfyconfig.toml` checks it.

**The JIT's register cache** (`JitHelpers.dfy`, `CacheModel.dfy`, `RegCacheX86.dfy`,
`RegCacheArm.dfy`, `BranchTargets.dfy`). LMNT's JIT keeps stack slots in float registers, as single
floats or vectors of four, and writes them back late. A cache is a class over a memory array, a register
file and the status array; a ghost `view` is the stack the compiled program believes in.
`CacheModel` says once what it means for registers and memory to represent a view, and both back
ends are proved against it: every acquire, load, flush and eviction keeps the view, keeps mapped
ranges apart and (on ARM) keeps every bank one vector or four lanes, for any importances; a run of
accesses followed by a flush does what the same accesses do on a plain array. Where the code
falls short, the exact condition is given, on the registers as they stand before the call: a
vector load after a refused acquire is stale just when the request gives way to one register and a
later one on its slots is modified (`AcquireVectorRegisterOrLoad`, `StaleVectorLoad`), and `Perform`
says for every kind of access when it can neither be served by a register nor go around the cache.
On ARM a bank whose first lane is empty counts as worth nothing, whatever its other lanes hold
(`ChooseExistingVectorRegister`, `HollowBankIsTaken`).

**Verifier, interpreter, dispatch** (`Bytecode.dfy`, `Execution.dfy`, `Instructions.dfy`,
`Dispatch.dfy`, `Interpreter.dfy`, `Archive.dfy`, `Validation.dfy`, `Loading.dfy`, `Soundness.dfy`,
`Acceptance.dfy`). Bytecode is checked once and then run unchecked by one of three loops.
`Execution` is the machine, in which an access out of bounds is a fault; `Instructions` says opcode
by opcode which words a step reads and leaves; `Dispatch` has the three loops with their wrapping instruction
pointer and shows that they come to the same; `Interpreter` is the context that updates its stack
in place; `Validation` is the verifier's decision on bytes and `Loading` the archive that walks
its segments and rewrites its defs. `Soundness` closes the circle: an accepted archive whose
offsets fit 16 bits and whose sections end inside it, once linked, never faults, keeps its
constants, and ends within its instruction count if it has no back-branches. `Prepare` hands the
host a context for which all of this holds and whose sections, code and defs are what the archive's
bytes hold. `Acceptance` says without the validator's walks which archives are accepted, with any
number of strings, sections and defs.

**Archive writer and reader** (`CompileCommand.dfy`). The compile command's byte-level writer
against the reader's accessors: everything reads back, the def is found by its name, and the
validator accepts the bytes exactly when the function is in bounds by its own counts. From there
`LoadCompiled` goes on to a context that may run, and two small functions, one that branches, are
followed from their instructions to the values they return (`IdentityRuns`, `MaximumRuns`).

**The libelement tokeniser** (`Tokeniser.dfy`). A context with mutable position, line and token
state, over characters of one to four bytes. Its run equals a definition that recounts everything
from the start of the input; from that follow losslessness, the line index and the re-lex round
trip. What each character starts is said character by character, and types and texts of tokens
determine each other.

**The Element.NET simplifier** (`Simplifier.dfy`). Folding, algebraic rewrites and switch
collapse on instruction trees keep value and type, with exact conditions for the constant zero base
of a power, for operands of the wrong type and for a selector equal to the number of options. What
folding gives is said operation by operation, by laws and not by its own arithmetic; a simplified
tree has nothing left to simplify, but for divisions by an infinity.

Where the source promises more than its code does, the model follows the code: `__` tokenises as
an identifier although the documented grammar has no such identifier, and `1.` fails although it is
a literal of that grammar; `clear` does not always
make a tokeniser context as good as new, and a message about an invalid character quotes a line that
may not fit its buffer; the instruction count that the archive writer's
assertion admits can exceed what its 32-bit length field can hold, and what the validator's signed
32-bit result can carry; and the section check does not count a word as four bytes. The two remainders differ: the
interpreter floors the quotient (`Instructions.OperationsMean`), the simplifier cuts it toward zero
(`Simplifier.FoldsRemainder`).

## Hypotheses

The theorems about archives carry the conditions under which the library's 16-bit parameters are
harmless, as predicates a caller could check: `SegmentsFit` (strings and defs segments below
65536 bytes, which is also what makes the validator's walks end), and `Fits` (code offsets,
counts and call targets in 16 bits, calls to def boundaries, no INDEXRIS that has nothing checked
and names the slot just past the frame).
`SectionsInside` asks that every nonempty data section end inside the archive, at four bytes a
word; the validator does not (`SectionMayPassTheArchive`), and without it loads leave the archive.
Externs are assumed to fill exactly their return window and not to use the interpreter's internal
codes (`WellBehaved`). A def that is both extern and interface has nothing to run and is not
among the defs an image offers. On ARM the register range starts and ends on a bank.

`RegCacheX86.RegCache.Run` takes the compiled instruction's scalar write to leave the upper lanes
of a wider register alone, as register-to-register moves do. The moves from memory at
`LMNT/src/jit/jit-x86_64.dasc` lines 434, 461 and 498 clear them: `WriteScalarZeroing` has that
write and the exact condition under which it does no harm.

## Model

| member | source | states |
|---|---|---|
| `CacheModel.ViewIsDetermined` | LMNT/src/jit/jithelpers.h:326-344 | the stack the compiled code believes in is fixed by memory and registers: at every slot it is the lane of the initialised entry on that slot, otherwise memory |
| `CacheModel.StepKeepsView` | LMNT/src/jit/reghelpers-x86.h:126-157 | any simultaneous mix of loading, flushing, evicting and marking entries, with memory moving only toward the view, leaves the view and the disjointness of entries as they were |
| `CacheModel.MapKeepsView` | LMNT/src/jit/reghelpers-x86.h:97-103 | mapping empty entries to slots that nobody else maps changes no value |
| `CacheModel.StoreChangesView` | LMNT/src/jit/reghelpers-x86.h:166-169 | after a store every entry either is off the written slots or holds and owes the new values, and then the cache represents the changed stack |
| `CacheModel.NothingOwed` | LMNT/src/jit/reghelpers-x86.h:159-164 | a cache with no modified entry has memory equal to the view |
| `CacheModel.DirectLoadIff` | LMNT/src/jit/jithelpers.h:326-344 | a load around the cache gives the viewed values, whatever memory holds, if and only if no entry owes a write to those slots |
| `CacheModel.DirectStoreIff` | LMNT/src/jit/jithelpers.h:346-351 | a store around the cache keeps the cache truthful, whatever is stored, if and only if no initialised entry covers those slots |
| `RegCacheX86.RegCache.constructor` | LMNT/src/jit/reghelpers-x86.h:44-51 | a new cache is valid and quiescent, maps nothing, and its view is memory |
| `RegCacheX86.RegCache.ChooseExistingRegister` | LMNT/src/jit/reghelpers-x86.h:54-94 | refuses exactly when no register is free and none is less important; hands back the first free preferred register if there is one, otherwise the first free fallback one, and only when neither set has any the first of the least important |
| `RegCacheX86.RegCache.UpdateRegister` | LMNT/src/jit/reghelpers-x86.h:97-108 | maps one empty register, sets importance and adds MODIFIED for a write; every other register is untouched |
| `RegCacheX86.RegCache.InitialiseRegister` | LMNT/src/jit/reghelpers-x86.h:126-137 | loads the mapped slots, so the register holds the view; memory, the view and all other registers are unchanged |
| `RegCacheX86.RegCache.FlushRegister` | LMNT/src/jit/reghelpers-x86.h:139-157 | writes back exactly when the register is mapped and MODIFIED, clears only that flag, keeps the mapping and the view; memory only catches up with the view |
| `RegCacheX86.RegCache.FlushAllRegisters` | LMNT/src/jit/reghelpers-x86.h:159-164 | from a quiescent cache: no MODIFIED flag is left, mappings stay, and memory equals the view |
| `RegCacheX86.RegCache.WriteAndEvictRegister` | LMNT/src/jit/reghelpers-x86.h:171-207 | empties one register without losing a value: the view is unchanged and memory only catches up |
| `RegCacheX86.RegCache.CheckForOverlap` | LMNT/src/jit/reghelpers-x86.h:210-240 | reports none exactly when no mapped register shares a slot with the request, otherwise the first overlapping register with the exact kind of overlap |
| `RegCacheX86.RegCache.IsLocationInRegisterCache` | LMNT/src/jit/jithelpers.h:346-351 | true exactly when some mapped register shares a slot with the request |
| `RegCacheX86.RegCache.AcquireScalarRegister` | LMNT/src/jit/jithelpers.h:175-239 | succeeds exactly when a register already starts at the slot, or nothing is on it and some register is free or less important; the register handed back stands for the slot and holds its value when read; the view never changes; on refusal memory holds the slot's value |
| `RegCacheX86.RegCache.ClearWay` | LMNT/src/jit/jithelpers.h:252-292 | the retry loop ends because occupied registers decrease; it only evicts less important overlapping registers, and stops on a free range, an exact match, or one register at least as important |
| `RegCacheX86.RegCache.AcquireVectorRegister` | LMNT/src/jit/jithelpers.h:241-308 | granted exactly when, before the call, a register stands for just these slots, or none on them is worth at least the request and some register is free or less important than it; then it stands for the four slots with the viewed values and every other register is kept or is a less important one on the slots that was evicted; a refusal leaves a modified register on the slots exactly when, before the call, some register on them is worth at least the request and a later one on them is modified |
| `RegCacheX86.RegCache.AcquireScalarRegisterOrLoad` | LMNT/src/jit/jithelpers.h:326-334 | always hands back a register that holds the viewed value |
| `RegCacheX86.RegCache.AcquireVectorRegisterOrLoad` | LMNT/src/jit/jithelpers.h:336-344 | judged on the registers before the call: the register handed back holds the viewed vector unless the request gives way to one register on the slots and a later one on them is modified, and exactly then that one is still modified at the load |
| `RegCacheX86.RegCache.StillModifiedMeansUnsafe` | LMNT/src/jit/jithelpers.h:336-344 | the load after a refusal is right, whatever memory holds, if and only if no register on the slots is still modified |
| `RegCacheX86.RegCache.LoadIff` | LMNT/src/jit/jithelpers.h:336-344 | the load after a refusal is right, whatever memory holds, if and only if no overlapping register is both MODIFIED and INITIALISED |
| `RegCacheX86.RegCache.StoreIff` | LMNT/src/jit/jithelpers.h:346-351 | a direct store keeps the cache truthful if and only if no overlapping register is INITIALISED |
| `RegCacheX86.StaleVectorLoad` | LMNT/src/jit/jithelpers.h:336-344 | counterexample to trusting every refused vector load: two modified scalars under one vector, of which one is flushed, and the register handed back does not hold the viewed vector |
| `RegCacheX86.RegCache.WriteScalarZeroing` | LMNT/src/jit/jit-x86_64.dasc:426-437 | a scalar write that clears the upper lanes keeps the cache truthful if and only if the register maps one slot, or its other three slots are zero in the view |
| `RegCacheX86.ZeroingBreaksVector` | LMNT/src/jit/jit-x86_64.dasc:426-437 | concrete: a scalar write to the first slot of a loaded vector of ones is granted the vector's register; the move from memory leaves the cache invalid, three slots reading zero that are one in the view |
| `RegCacheX86.RegCache.PlatformWriteAndEvictAll` | LMNT/src/jit/jit-x86_64.dasc:244-249 | empties the cache and leaves memory equal to the view |
| `RegCacheX86.RegCache.PlatformWriteAndEvictByStack` | LMNT/src/jit/jit-x86_64.dasc:256-266 | memory holds the view on the whole range and no register maps any slot of it |
| `RegCacheX86.RegCache.ValidateRegCache` | LMNT/src/jit/reghelpers-x86.h:243-281 | answers OK if and only if empty registers carry no flags and no slot is mapped twice |
| `RegCacheX86.RegCache.ValidateReachable` | LMNT/src/jit/reghelpers-x86.h:243-281 | the checker answers OK on every valid, hence every reachable, cache |
| `RegCacheX86.RegCache.Perform` | LMNT/src/jit/jithelpers.h:175-344 | one read or write through the cache is turned away exactly when, before it, its load would miss an owed value or its store would go around a register mapped to the slots, condition by condition for the four kinds of access; otherwise it has the effect and result of the same access on a plain array |
| `RegCacheX86.RegCache.UniformIsServed` | LMNT/src/jit/jithelpers.h:175-344 | an access is never turned away when the accesses and the registers mapped so far use slots in steady shapes: any two are on just the same slots or apart |
| `RegCacheX86.RegCache.Run` | LMNT/src/jit/jithelpers.h:175-344 | any run of accesses under any importances, up to the first that is turned away and then flushed, leaves memory and every value read as the same accesses on a plain array; it stops only where the access is refused by the condition on the registers at that point, and runs to its end when shapes are steady |
| `RegCacheArm.EntryChangeKeepsBanks` | LMNT/src/jit/reghelpers-arm-vfp.h:195-208 | changing flags or importance of a whole entry alike keeps every bank one aligned vector or four independent lanes |
| `RegCacheArm.MapKeepsBanks` | LMNT/src/jit/reghelpers-arm-vfp.h:174-193 | mapping an empty lane, or four empty lanes of a bank to consecutive slots and indices, keeps the bank invariant |
| `RegCacheArm.StoreKeepsBanks` | LMNT/src/jit/reghelpers-arm-vfp.h:273-278 | marking written lanes keeps the bank invariant, also when only one lane of a loaded vector is written |
| `RegCacheArm.RegCache.constructor` | LMNT/src/jit/reghelpers-arm-vfp.h:51-58 | a new cache is valid, banked and quiescent, maps nothing, and its view is memory |
| `RegCacheArm.RegCache.VectorScanIsEmpty` | LMNT/src/jit/reghelpers-arm-vfp.h:95-97 | the scan for vectors to displace runs from nextbank(start) to thisbank(start), which is never a non-empty range: a scalar request never displaces a vector |
| `RegCacheArm.RegCache.ChooseExistingScalarRegister` | LMNT/src/jit/reghelpers-arm-vfp.h:63-109 | refuses exactly when no lane is free and no scalar lane is less important; hands back the first free preferred lane if there is one, otherwise the first free fallback one, and only when neither set has any the first of the least important scalars |
| `RegCacheArm.RegCache.FindFreeBank` | LMNT/src/jit/reghelpers-arm-vfp.h:115-138 | succeeds if and only if some aligned bank of the set has four empty lanes, and hands back the first such bank |
| `RegCacheArm.RegCache.LeastVector` | LMNT/src/jit/reghelpers-arm-vfp.h:141-150 | the first of the least important vectors of the range, or that none is less important than the greatest int |
| `RegCacheArm.RegCache.LeastScalars` | LMNT/src/jit/reghelpers-arm-vfp.h:153-164 | the first bank of the range that is no vector and counts least; a bank with an empty first lane counts as the least int |
| `RegCacheArm.RegCache.ChooseExistingVectorRegister` | LMNT/src/jit/reghelpers-arm-vfp.h:111-171 | refuses exactly when no bank of the two sets is free and every bank of the range counts at least as much as the request; hands back the first free preferred bank, else the first free fallback one, else the first least important vector if one is worth less than the request, else the first bank that counts least; displaces a lane that is not less important if and only if the choice falls, for want of a free bank and a less important vector, on a bank whose first lane is empty and another lane is not less important |
| `RegCacheArm.HollowBankIsTaken` | LMNT/src/jit/reghelpers-arm-vfp.h:159-159 | concrete: three scalars of importance 4 stand behind an empty first lane; a vector request of importance 1 is granted their bank, and the three are no longer held |
| `RegCacheArm.RegCache.UpdateRegisterState` | LMNT/src/jit/reghelpers-arm-vfp.h:195-208 | sets importance and MODIFIED on every lane of the entry and on no other lane |
| `RegCacheArm.RegCache.InitialiseRegister` | LMNT/src/jit/reghelpers-arm-vfp.h:225-238 | loads the whole entry, so every lane of it holds the view; memory and other lanes are unchanged |
| `RegCacheArm.RegCache.FlushRegister` | LMNT/src/jit/reghelpers-arm-vfp.h:240-264 | writes a vector back as a whole if any lane is MODIFIED, clears the flag on all its lanes, keeps the mapping and the view |
| `RegCacheArm.RegCache.FlushAllRegisters` | LMNT/src/jit/reghelpers-arm-vfp.h:266-271 | no MODIFIED flag is left, mappings stay, and memory equals the view |
| `RegCacheArm.RegCache.NotifyRegisterWritten` | LMNT/src/jit/reghelpers-arm-vfp.h:273-278 | marks exactly the written lanes INITIALISED and MODIFIED |
| `RegCacheArm.RegCache.WriteAndEvictRegister` | LMNT/src/jit/reghelpers-arm-vfp.h:280-308 | empties the whole entry, keeps banks and view; memory only catches up |
| `RegCacheArm.RegCache.WriteAndEvictRegisters` | LMNT/src/jit/reghelpers-arm-vfp.h:310-318 | empties every lane of the requested width whatever mix of entries was there |
| `RegCacheArm.RegCache.CheckForOverlap` | LMNT/src/jit/reghelpers-arm-vfp.h:322-353 | reports none exactly when no mapped lane is on the request; otherwise the exact kind of overlap, and for a subset the very lane that holds the slot |
| `RegCacheArm.RegCache.AcquireScalarRegister` | LMNT/src/jit/jithelpers.h:175-239 | with lane access a mapped slot is always granted; the lane handed back stands for the slot; view, banks and disjointness are kept; on refusal memory holds the value |
| `RegCacheArm.RegCache.ClearWay` | LMNT/src/jit/jithelpers.h:252-292 | the retry loop ends, evicts only less important overlapping entries, and reports why it stopped |
| `RegCacheArm.RegCache.AcquireVectorRegister` | LMNT/src/jit/jithelpers.h:241-308 | granted exactly when, before the call, a bank stands for just these slots, or no entry on them is worth at least the request and, once those on them are evicted, a bank is free or counts less; then it stands for the four slots with the viewed values, banks kept; a refusal leaves a modified lane on the slots exactly when, before the call, some entry on them is worth at least the request and a later entry has a modified lane on them |
| `RegCacheArm.RegCache.AcquireScalarRegisterOrLoad` | LMNT/src/jit/jithelpers.h:326-334 | always hands back a lane that holds the viewed value |
| `RegCacheArm.RegCache.AcquireVectorRegisterOrLoad` | LMNT/src/jit/jithelpers.h:336-344 | judged on the registers before the call: the bank handed back holds the viewed vector unless the request gives way to one entry on the slots and a later one has a modified lane on them, and exactly then such a lane is still modified at the load |
| `RegCacheArm.RegCache.StillModifiedMeansUnsafe` | LMNT/src/jit/jithelpers.h:336-344 | the load after a refusal is right, whatever memory holds, if and only if no lane on the slots is still modified |
| `RegCacheArm.RegCache.LoadIff` | LMNT/src/jit/jithelpers.h:336-344 | the load after a refusal is right if and only if no lane on the slots is both MODIFIED and INITIALISED |
| `RegCacheArm.RegCache.StoreIff` | LMNT/src/jit/jithelpers.h:346-351 | a direct store keeps the cache truthful if and only if no lane on the slots is INITIALISED |
| `RegCacheArm.RegCache.PlatformWriteAndEvictAll` | LMNT/src/jit/jit-armv7m.dasc:303-308 | empties the cache and leaves memory equal to the view |
| `RegCacheArm.RegCache.PlatformWriteAndEvictByStack` | LMNT/src/jit/jit-armv7m.dasc:315-325 | memory holds the view on the range and no lane maps any slot of it |
| `RegCacheArm.RegCache.ValidateRegCache` | LMNT/src/jit/reghelpers-arm-vfp.h:356-440 | answers OK if and only if every register passes: an empty one has neither flags nor index, a used one overlaps no entry outside its bank and stands in line with its neighbours |
| `RegCacheArm.RegCache.ValidateReachable` | LMNT/src/jit/reghelpers-arm-vfp.h:356-440 | on a valid cache it answers OK if and only if no empty register has kept a nonzero index |
| `RegCacheArm.EvictedVectorFailsCheck` | LMNT/src/jit/reghelpers-arm-vfp.h:280-302 | concrete: a vector loaded and evicted leaves a valid, empty cache about which the checker complains |
| `RegCacheArm.RegCache.PerformWriteScalar` | LMNT/src/jit/jithelpers.h:175-239 | every scalar write takes effect on the view, whether through a lane or around the cache |
| `RegCacheArm.RegCache.Perform` | LMNT/src/jit/jithelpers.h:175-344 | one access is turned away exactly when, before it, it is a vector read whose load would miss an owed value, or a vector write that would go around an entry on the slots; otherwise it has the effect and result of the same access on a plain array |
| `RegCacheArm.RegCache.UniformIsServed` | LMNT/src/jit/jithelpers.h:175-344 | an access is never turned away when the accesses and the entries mapped so far use slots in steady shapes |
| `RegCacheArm.RegCache.Run` | LMNT/src/jit/jithelpers.h:175-344 | any run of accesses under any importances, up to the first that is turned away and then flushed, leaves memory and every value read as the same accesses on a plain array; it stops only where the access is refused by the condition on the registers at that point, and runs to its end when shapes are steady |
| `BranchTargets.GetNextBranchTarget` | LMNT/src/jit/jithelpers.h:147-155 | the least target after the previous one, or the no-target value when there is none |
| `BranchTargets.TargetsAreBranchedTo` | LMNT/src/jit/jit-x86_64.dasc:317-323 | the collected targets are exactly the instructions, or the end, that some branch of the code goes to |
| `BranchTargets.CollectTargets` | LMNT/src/jit/jit-x86_64.dasc:311-323 | collects every branch's target in order if and only if the branches are no more than the array's 32 entries |
| `BranchTargets.EvictionPoints` | LMNT/src/jit/jit-x86_64.dasc:311-374 | unless there are more than 32 branches, the cache is evicted at exactly the instructions, or the end of the code, that some branch goes to, whatever the order and repetition of branches |
| `Execution.MapLanes` | LMNT/src/ops_misc_impl.h:29-45 | lane by lane in place: only the four (or one) target slots change |
| `Execution.Exec` | LMNT/src/dispatch_switch.h:31-118 | whatever the instruction and operands, no slot at or above the frame changes, nor the interrupt flag; what each opcode does is the rows of Instructions |
| `Execution.ControlOfExec` | LMNT/src/ops_branch_impl.h:41-167 | only branch opcodes report BRANCHING, then with the target as instruction pointer and nothing else changed; only RETURN returns; nothing else moves the pointer |
| `Execution.SafeInstrNeverFaults` | LMNT/src/ops_misc_impl.h:23-145 | where the archive holds every word its sections admit, an instruction within its static bounds never leaves frame, data section or archive, and branches only into the code or to its end |
| `Execution.OnlyTheseFail` | LMNT/src/ops_misc_impl.h:91-145 | only the computed data loads, the two index operations and EXTCALL can report an error |
| `Execution.SafeInstrKeepsConstants` | LMNT/src/validation.c:92-101 | a safe instruction other than INDEXRIR leaves every constant slot as it was |
| `Execution.IndexWriteKeepsConstantsIff` | LMNT/src/ops_misc_impl.h:136-145 | a safe INDEXRIR is refused exactly when an index is not finite or not in the frame, and leaves the constants as they are if and only if it is refused, its target lies above them, or the target already holds the word copied |
| `Execution.ShapesOfOpcodes` | LMNT/src/dispatch_switch.h:35-118 | which opcodes branch, return, compute an index, call out, and that exactly those from END on have no operation |
| `Instructions.NothingAndReturn` | LMNT/src/ops_misc_impl.h:18-21 | NOOP changes nothing, RETURN returns, and an opcode from END on faults |
| `Instructions.AssignsScalar` | LMNT/src/ops_misc_impl.h:23-27 | ASSIGNSS leaves the source word in the target slot and everything else as it was |
| `Instructions.AssignsVector` | LMNT/src/ops_misc_impl.h:29-36 | ASSIGNVV copies four slots in order; where source and target overlap, a lane finds what the lanes before it wrote |
| `Instructions.AssignsScalarToVector` | LMNT/src/ops_misc_impl.h:38-45 | ASSIGNSV leaves the source word in all four target slots, also where the source is one of them |
| `Instructions.Immediates` | LMNT/src/ops_misc_impl.h:47-70 | ASSIGNIBS and ASSIGNIBV leave the word whose low half is arg1 and high half arg2 |
| `Instructions.UnaryOperations` | LMNT/src/ops_bounds_impl.h:14-91 | for every opcode of one operand, trigonometric, logarithmic, roots, absolute values and roundings: each target slot holds that very operation on the matching source slot, and nothing else changes |
| `Instructions.BinaryOperations` | LMNT/src/ops_math_impl.h:12-109 | for ADD, SUB, MUL, DIV, REM, POW, MIN, MAX and ATAN2 in every form of operands: each target slot holds that very operation on the matching slots, the first operand first, and nothing else changes |
| `Instructions.OperationsMean` | LMNT/src/ops_math_impl.h:72-85 | of two unordered numbers a bound is the first; the remainder is the dividend less the floored quotient times the divisor; the rest are the float unit's own |
| `Instructions.ClearIsSeenBefore` | LMNT/src/ops_math_impl.h:18-25 | operands that do not overlap the target are read as they were before the instruction |
| `Instructions.SumAndSinCos` | LMNT/src/ops_math_impl.h:144-149 | SUMV adds the four lanes from the first on; SINCOS stores the sine first and takes the cosine of what the source slot then holds |
| `Instructions.Compares` | LMNT/src/ops_branch_impl.h:21-39 | after CMP and CMPZ the four flags say how the first operand compares with the second or with zero, and nothing else has changed |
| `Instructions.FlagsStay` | LMNT/src/ops_branch_impl.h:21-39 | no other instruction touches the flags |
| `Instructions.Branches` | LMNT/src/ops_branch_impl.h:41-115 | after comparing v with w: each BRANCHC opcode jumps if and only if its relation holds of v and w, BRANCH always, and then the pointer is arg2 and arg3 read as one offset; otherwise nothing changes |
| `Instructions.BranchesOnValue` | LMNT/src/ops_branch_impl.h:117-167 | BRANCHZ, NZ, POS, NEG and UN jump if and only if the slot's word is zero, neither zero nor NaN, of clear sign bit, of set sign bit, NaN |
| `Instructions.Chooses` | LMNT/src/ops_branch_impl.h:169-216 | after comparing v with w: each ASSIGNC opcode copies its first operand if its relation holds of v and w and its second otherwise |
| `Instructions.Loads` | LMNT/src/ops_misc_impl.h:72-118 | a data load leaves the section's words from the place asked for on, or reports a violation exactly when the section has not as many |
| `Instructions.SectionLengths` | LMNT/src/ops_misc_impl.h:120-125 | DSECLEN leaves the section's count as a number |
| `Instructions.Indexes` | LMNT/src/ops_misc_impl.h:127-145 | INDEXRIS and INDEXRIR copy the slot that the index, moved on by arg2 at 64 bits, names; refused exactly when an index is not finite or not in the frame |
| `Instructions.Calls` | LMNT/src/ops_fncall_impl.h:16-29 | EXTCALL hands over the words from arg3 on, as many as the linked function takes, its results go into the slots after them and nothing else changes, and its code is the outcome |
| `Dispatch.SuccUndoesPred` | LMNT/src/dispatch_computed_goto.h:236-241 | stepping back from a branch target and forward again meets, through 2^32-1 when the target is 0 |
| `Dispatch.SwitchIsJumpTable` | LMNT/src/dispatch_switch.h:24-139 | from any state, uninterrupted, the switch loop and the jump-table loop do the same for every number of instructions |
| `Dispatch.UncheckedNeverReport` | LMNT/src/dispatch_computed_goto.h:136-139 | the operations whose result computed goto throws away never report anything |
| `Dispatch.GotoIsJumpTable` | LMNT/src/dispatch_computed_goto.h:108-243 | the computed-goto run equals the jump-table run, except that it tells a branch to the end of the function as OK |
| `Dispatch.DispatchersAgree` | LMNT/src/interpreter.c:182-194 | all three loops stop after the same number of instructions with the same stack, flags and instruction pointer; raw results differ only on a branch to the end, and execute reports the same for all |
| `Dispatch.SafeRunsNeverFault` | LMNT/src/dispatch_jumptable.h:111-135 | however long a safe program runs, it never leaves frame, sections or archive, stays within its code, never changes a slot above its frame, and never meets the default opcode |
| `Dispatch.PlainRunsSucceed` | LMNT/src/dispatch_jumptable.h:111-135 | a safe program without computed accesses and calls, if it ends, ends with success |
| `Dispatch.RunsKeepConstants` | LMNT/src/validation.c:92-101 | no run of a safe program free of INDEXRIR changes a constant |
| `Dispatch.ForwardRunsEnd` | LMNT/src/dispatch_jumptable.h:117-132 | with forward branches only, a run ends within as many instructions as are left |
| `Dispatch.FinishedRunsStay` | LMNT/src/dispatch_jumptable.h:117-135 | a run that has finished is the same under any larger bound |
| `Dispatch.OneStep` | LMNT/src/dispatch_jumptable.h:111-135 | a run goes on at the next instruction after one that succeeds, at the branch target after one that branches, ends with any other result, and at the end of the code keeps the last result |
| `Interpreter.Ictx.MapOp` | LMNT/src/ops_bounds_impl.h:14-91 | the in-place lane loop computes the lane-by-lane function, source and target overlapping or not |
| `Interpreter.Ictx.ZipOp` | LMNT/src/ops_math_impl.h:12-109 | the in-place two-operand lane loop computes the lane-by-lane function, operands overlapping or not |
| `Interpreter.Ictx.LoadAtOp` | LMNT/src/ops_misc_impl.h:91-118 | a computed data load past the section is refused and changes nothing |
| `Interpreter.Ictx.IndexReadOp` | LMNT/src/ops_misc_impl.h:127-134 | refused for NaN, infinity or an index at or past the frame; otherwise copies the indexed slot |
| `Interpreter.Ictx.IndexWriteOp` | LMNT/src/ops_misc_impl.h:136-145 | refused for NaN, infinity or either index at or past the frame; otherwise copies slot to slot |
| `Interpreter.Ictx.CallOut` | LMNT/src/ops_fncall_impl.h:16-29 | the extern reads its argument window and fills exactly its return window in the frame |
| `Interpreter.Ictx.PerformInstruction` | LMNT/src/dispatch_switch.h:31-118 | each operation, unchecked and in place on the stack array, does what the machine's step does; what that is, opcode by opcode, is the rows of Instructions |
| `Interpreter.Ictx.RunJumpTable` | LMNT/src/dispatch_jumptable.h:111-135 | the loop computes the jump-table run |
| `Interpreter.Ictx.RunSwitch` | LMNT/src/dispatch_switch.h:24-139 | the loop computes the switch run |
| `Interpreter.Ictx.RunComputedGoto` | LMNT/src/dispatch_computed_goto.h:108-243 | the goto-driven loop computes the computed-goto run |
| `Interpreter.Ictx.UpdateArgs` | LMNT/src/interpreter.c:230-245 | copies exactly the given arguments above the constants when they fit the def's argument count, otherwise changes nothing and reports a violation if not even the stack could hold them and a mismatch if it could |
| `Interpreter.Ictx.ExecuteFunction` | LMNT/src/interpreter.c:15-21 | the same machine and the same outcome under whichever dispatch header is built in |
| `Interpreter.Ictx.Execute` | LMNT/src/interpreter.c:146-209 | under any dispatcher: a buffer too small for the return values is refused before anything runs; a run that ends at the end of the code, by RETURN or by a branch to the end hands back the def's return window and its size if a buffer was given, and one that ends in an error hands back that error's code and no values; it never leaves its bounds |
| `Interpreter.Ictx.Serve` | LMNT/src/interpreter.c:196-245 | any sequence of argument updates and executions on a prepared image free of INDEXRIR leaves every constant at its loaded value |
| `Interpreter.RunDefKeepsConstants` | LMNT/src/interpreter.c:146-194 | running any def of such an image keeps the constants |
| `Archive.Bytes32RoundTrip` | libelement.CLI/include/compile_command.hpp:192-193 | a 32-bit value written as four little-endian bytes reads back |
| `Archive.SectionsCountIsLowHalf` | LMNT/src/helpers.h:99-102 | of the count of sections only the low 16 bits are seen |
| `Archive.DefReadsAnywhere` | LMNT/src/helpers.h:84-87 | a def written field by field at any place is read back with every field |
| `Archive.CString` | LMNT/src/helpers.h:63-66 | the characters from an offset up to the first NUL or the end, and no NUL among them |
| `Archive.CStringIs` | LMNT/src/helpers.h:63-66 | a NUL-free text followed by NUL is the string at its offset |
| `Loading.FindIndex` | LMNT/src/extcalls.c:36-47 | the first table entry with this name and these counts, or there is none |
| `Loading.LmntArchive.CheckStrings` | LMNT/src/validation.c:386-395 | the walk over the strings segment decides as the walk's definition does, from the first string on |
| `Loading.LmntArchive.CheckSections` | LMNT/src/validation.c:405-412 | accepts exactly when every section lies behind the section table and offset plus count stays below the data length |
| `Loading.LmntArchive.CheckCode` | LMNT/src/validation.c:329-362 | the two loops accept exactly the code blocks whose instructions are accepted, with no self-branch, an honest HAS_BACKBRANCHES flag, and a size that stays positive as a signed 32-bit result |
| `Loading.LmntArchive.CheckDef` | LMNT/src/validation.c:34-85 | the checks in their order decide as the def's verdict does, the code block last |
| `Loading.LmntArchive.Validate` | LMNT/src/validation.c:365-430 | decides by the archive's verdict, and marks the archive validated exactly when it is accepted; which archives those are is Acceptance.AcceptedIff |
| `Loading.LmntArchive.FindDef` | LMNT/src/archive.c:79-94 | refuses an unvalidated archive; otherwise the first def of this name, or there is none |
| `Loading.LmntArchive.UpdateDefExtcalls` | LMNT/src/archive.c:132-161 | refuses exactly unvalidated and in-place archives, and fails exactly when some host function's def has no table entry of its name and counts; otherwise links every such def to the first entry like it and changes nothing else |
| `Loading.LinkingMeans` | LMNT/src/archive.c:132-161 | what linking has done to each def, by the bits of its flags and the fields of the table: one that is EXTERN and not INTERFACE has got the index of the first entry of its name and counts, and nothing else has changed |
| `Loading.MissingMeans` | LMNT/src/archive.c:132-161 | a table misses a function if and only if some EXTERN def that is not INTERFACE has no entry of its name and counts |
| `Acceptance.StringsAcceptedIff` | LMNT/src/validation.c:386-395 | the walk over the strings accepts if and only if the segment is terminated, aligned strings one behind the other and nothing else |
| `Acceptance.CallAcceptedIff` | LMNT/src/validation.c:126-139 | a call is accepted if and only if its target is a def of the archive that is an extern in order and no interface, its arguments lie in the frame and its results in the writable part of it |
| `Acceptance.InstructionAcceptedIff` | LMNT/src/validation.c:149-327 | an instruction is accepted if and only if its accesses are in bounds, a call as above, INDEXRIS by its own count |
| `Acceptance.CodeAcceptedIff` | LMNT/src/validation.c:329-362 | a code block is accepted if and only if it lies in its segment, is shorter than 2^31 bytes, every instruction is in order, none branches to itself, and HAS_BACKBRANCHES tells whether any branches back |
| `Acceptance.DefAcceptedIff` | LMNT/src/validation.c:34-85 | a def is accepted if and only if its name is a string in order, its stack fits and holds its arguments and results, just these for an extern or interface, its default arguments name a section, and its code is in order unless it is an extern |
| `Acceptance.DefsAcceptedIff` | LMNT/src/validation.c:414-423 | the walk over the defs accepts if and only if the segment is whole defs and every one of them, however many, is in order |
| `Acceptance.SectionsAcceptedIff` | LMNT/src/validation.c:397-412 | the sections are accepted if and only if each lies behind the section table and its offset plus its count stays below the segment's length |
| `Acceptance.AcceptedIff` | LMNT/src/validation.c:365-430 | any fitting archive is accepted if and only if it is in order: magic, lengths, alignment, strings, sections, and every def against the slots that are left, which is what acceptance reports |
| `Acceptance.FirstComplaint` | LMNT/src/validation.c:365-412 | which error a refused archive gets, up to the sections: the first of these that fails |
| `Acceptance.StringErrors` | LMNT/src/validation.c:8-30 | which error a refused string gets: header, size, alignment, last byte, in this order |
| `Acceptance.ExternErrors` | LMNT/src/validation.c:34-85 | a callee gets the verdict the def would get, but is refused for its flags if it is no extern |
| `Acceptance.CallErrors` | LMNT/src/validation.c:126-139 | a call is judged by its callee at the low half of the target first, is unreadable if the whole target is outside the defs, refused for flags if what is there is an interface, and otherwise accepted or an access violation |
| `Acceptance.InstructionErrors` | LMNT/src/validation.c:149-327 | an instruction other than a call is refused as unknown if its opcode is, and as an access violation otherwise |
| `Soundness.ValidatorDescribesInterpreter` | LMNT/src/validation.c:149-327 | for every opcode the validator checks the operands the interpreter will use, with the same widths |
| `Soundness.AcceptedIffInBounds` | LMNT/src/validation.c:87-147 | for every operand layout but calls and INDEXRIS, the validator accepts if and only if all accesses of the instruction are in bounds |
| `Soundness.IndexReadAccepted` | LMNT/src/validation.c:277-281 | an accepted INDEXRIS is in bounds if and only if its arg2 is at least 1 or its target is not just past the frame |
| `Soundness.IndexReadPastFrame` | LMNT/src/validation.c:280-280 | a concrete accepted INDEXRIS that writes past a one-slot frame |
| `Soundness.IndexedWriteReachesConstants` | LMNT/src/validation.c:282-286 | a concrete accepted INDEXRIR that overwrites a constant |
| `Soundness.AcceptedNameEnds` | LMNT/src/validation.c:8-30 | an accepted string holds a terminated C string inside the strings segment |
| `Soundness.EveryDefAccepted` | LMNT/src/validation.c:414-423 | accepting the defs segment accepts the def at every 16-byte offset and leaves no odd bytes |
| `Soundness.InstructionsAcceptedIff` | LMNT/src/validation.c:339-342 | the loop over instructions accepts if and only if each instruction is accepted |
| `Soundness.AcceptedArchive` | LMNT/src/validation.c:365-430 | what acceptance amounts to: readable data header, names that end, whole defs, every def accepted against the slots left |
| `Soundness.LinkingKeepsView` | LMNT/src/archive.c:132-161 | linking leaves constants, sections and code as they were |
| `Soundness.AcceptedCallsReachTheirExtern` | LMNT/src/validation.c:126-139 | after linking, an accepted call reaches the first table entry whose name and counts are the callee's, with both windows in the caller's frame and the results above the constants |
| `Soundness.AcceptedCall` | LMNT/src/validation.c:126-139 | only calls to externs that are not interfaces are accepted, so a def that calls itself is refused without its code being entered again; the converse is Acceptance.CallAcceptedIff |
| `Soundness.AcceptedInstructionIsSafe` | LMNT/src/validation.c:149-327 | an accepted instruction of a prepared archive is in bounds in the program it runs as |
| `Soundness.AcceptedLoadFaultsIff` | LMNT/src/ops_misc_impl.h:72-118 | an accepted data load of one or four words leaves its bounds if and only if its section admits the words asked for and the last of them lies outside the archive |
| `Soundness.SectionsInsideIff` | LMNT/src/validation.c:118-124 | the archive holds every word that the sections' counts admit if and only if every nonempty section, four bytes a word, ends inside it |
| `Soundness.PreparedImageIsSafe` | LMNT/src/validation.c:365-430 | verifier soundness: everything the host can execute in an accepted, fitting and linked archive whose sections end inside it is a safe program within the stack, loads included |
| `Soundness.AcceptedBranchesGoForward` | LMNT/src/validation.c:344-359 | a def accepted without HAS_BACKBRANCHES branches strictly forward only |
| `Soundness.PredictableExecution` | LMNT/src/validation.c:344-359 | such a def, run from any stack, ends within its instruction count |
| `Soundness.ValidationStaysInside` | LMNT/src/validation.c:365-430 | while offsets fit 16 bits, validating any bytes at all reads nothing outside the archive |
| `Soundness.SectionMayPassTheArchive` | LMNT/src/validation.c:410-411 | a concrete accepted archive whose section admits a word outside the archive, so that the condition on sections is one of its own |
| `Soundness.LoadArchive` | LMNT/src/interpreter.c:27-69 | an archive is loaded if and only if the memory area has at least 64 bytes and more than the archive; otherwise the size is reported |
| `Soundness.SectionReadsBack` | LMNT/src/helpers.h:99-112 | a section table entry and the words at its offset, given as bytes, read back: offset, count, and every word |
| `Soundness.ImageOffersSection` | LMNT/src/interpreter.c:82-111 | after linking too, the image's section is the words that lie in the archive, word for word |
| `Soundness.LoadDelivers` | LMNT/src/ops_misc_impl.h:72-118 | an accepted load of one or four words, direct or computed, leaves in the target slots just those words of the section, or reports a violation exactly when the section does not have them |
| `Soundness.LengthDelivered` | LMNT/src/ops_misc_impl.h:120-125 | DSECLEN leaves how many words the section has |
| `Soundness.BlockReadsBack` | LMNT/src/helpers.h:89-97 | a count and that many instructions, given as bytes at any offset of the code segment, read back one for one |
| `Soundness.ImageOffersBlock` | LMNT/src/interpreter.c:82-111 | after linking too, the code at each offset of the image is the instructions that lie in the archive |
| `Soundness.ImageOffersDef` | LMNT/src/interpreter.c:82-111 | and each def that has something to run is there field by field, linking having changed at most an extern's code |
| `Soundness.Prepare` | LMNT/src/interpreter.c:82-111 | reports an invalid archive exactly when it is refused, an access violation exactly when it is accepted but in place, a missing extern exactly when otherwise some host function's def has no entry in the table, and else yields a context over the linked image that is safe to run, its constants loaded at the bottom of the stack; whatever words the archive's bytes hold at a section's offset, as many as its count, are that section of the image |
| `CompileCommand.PaddedName` | libelement.CLI/include/compile_command.hpp:158-159 | two to five NULs are added and the whole string entry is a multiple of four bytes |
| `CompileCommand.AppendName` | libelement.CLI/include/compile_command.hpp:192-199 | the size byte, a zero byte, the name and its padding are appended to what is written |
| `CompileCommand.CreateArchive` | libelement.CLI/include/compile_command.hpp:149-227 | the buffer filled with a running index is the archive of this function, for all inputs the assertions admit |
| `CompileCommand.WellSizedIff` | libelement.CLI/include/compile_command.hpp:163-188 | what is written is a well-sized archive if and only if the code segment's length fits 32 bits; the assertion on the instruction count lets longer ones through |
| `CompileCommand.HeaderReadsBack` | libelement.CLI/include/compile_command.hpp:180-190 | magic and all five segment lengths read back, the code length in its low 32 bits |
| `CompileCommand.NameReadsBack` | LMNT/src/helpers.h:63-66 | the name reads back as written and ends inside the strings segment |
| `CompileCommand.DefReadsBack` | LMNT/src/helpers.h:84-87 | the def reads back with its flags and counts |
| `CompileCommand.CodeReadsBack` | LMNT/src/helpers.h:89-97 | the code block lies in its segment and reads back instruction for instruction |
| `CompileCommand.ConstantsReadBack` | LMNT/src/helpers.h:68-82 | number and value of every constant read back, and there is no data section |
| `CompileCommand.RoundTrip` | libelement.CLI/include/compile_command.hpp:149-227 | reading the written bytes through the accessors gives back the whole function: name, counts, flags, constants and code |
| `CompileCommand.FoundByName` | LMNT/src/archive.c:79-94 | the def is found by its name, at offset 0, and by no other name |
| `CompileCommand.InstructionAcceptedIff` | LMNT/src/validation.c:149-327 | the validator accepts an instruction of the written archive if and only if it is in bounds by the function's own counts |
| `CompileCommand.AcceptedIff` | LMNT/src/validation.c:365-430 | the validator accepts what is written if and only if the function fits the stack, its flags are honest, its code is in bounds without self-branches, and its code block is shorter than 2^31 bytes |
| `CompileCommand.PlainFunctionsAreAccepted` | libelement.CLI/include/compile_command.hpp:149-227 | a plain function with flags for back-branches only, instructions in bounds and a code block shorter than 2^31 bytes is accepted |
| `CompileCommand.LongFunctionIsRefused` | LMNT/src/validation.c:361-361 | a code block of 2^31 bytes or more is refused whatever is in it: its size is negative as a signed 32-bit result |
| `CompileCommand.NoopsAcceptedIff` | LMNT/src/validation.c:361-361 | of the functions that do nothing, those of fewer than 2^28 instructions are accepted and no others |
| `CompileCommand.TooManyToMeasure` | libelement.CLI/include/compile_command.hpp:163-188 | concrete: 2^29 instructions pass the writer's assertion and give an archive that says they take four bytes |
| `CompileCommand.CompiledImage` | LMNT/src/interpreter.c:82-111 | however it is linked, the loaded image offers exactly the compiled def, constants and instructions |
| `CompileCommand.CompiledRunsSafely` | LMNT/src/interpreter.c:82-111 | an acceptable compiled function, written, validated and linked, is safe to execute |
| `CompileCommand.LoadCompiled` | LMNT/src/interpreter.c:27-111 | from an acceptable compiled function, which implies a code block shorter than 2^31 bytes, writing, loading, validating and linking end in a context that may run and that offers this function, if and only if the memory area has room for the archive |
| `CompileCommand.IdentityRuns` | LMNT/src/interpreter.c:197-245 | for the one-assignment identity function the whole chain holds together: the value put in as argument is the value returned, under any dispatcher |
| `CompileCommand.MaximumRuns` | LMNT/src/interpreter.c:197-245 | and for a function that compares, branches and returns early: written, loaded, given two arguments and executed under any dispatcher, it returns the second if the first is less and else the first |
| `Tokeniser.NextAdvances` | libelement/src/token_internal.cpp:97-186 | every step consumes something, only a newline step passes a line end, and a comment stops at its line's end |
| `Tokeniser.CharacterClasses` | libelement/src/token_internal.cpp:32-39 | the character classes by characters and codes |
| `Tokeniser.WidthIsLeast` | libelement/src/token_internal.cpp:17-25 | a character takes the fewest UTF-8 bytes that have room for it |
| `Tokeniser.NextByCharacter` | libelement/src/token_internal.cpp:97-186 | what every character starts: each punctuation mark its own token, a hash a comment to the end of the line, an underscore an identifier, a token of its own or at the end a failure, a letter the longest identifier, a digit or sign a number, a line end, a blank, and anything else the parse error |
| `Tokeniser.TypesAreTexts` | libelement/src/token_internal.cpp:102-153 | on success the type and the text of every token determine each other: the eight marks and the underscore are spelled just so, a number starts with a digit or sign, an identifier with a letter or with an underscore that is not alone, and only the end token is empty |
| `Tokeniser.NothingIsLost` | libelement/src/token_internal.cpp:93-188 | on success tokens lie in order without overlap, and all text before, between and after them is white space and whole comments |
| `Tokeniser.MoveIsRecount` | libelement/src/token_internal.cpp:159-171 | position, line, line start, character and line table kept step by step equal a recount from the start of the input |
| `Tokeniser.TokeniserCtx.ResetToken` | libelement/src/token_internal.cpp:63-82 | pushes the current token if there is one and leaves a blank one |
| `Tokeniser.TokeniserCtx.AddToken` | libelement/src/token_internal.cpp:349-361 | appends one token at the current place and moves past it |
| `Tokeniser.TokeniserCtx.TokeniseNumber` | libelement/src/token_internal.cpp:204-292 | accepts and rejects exactly as the number rule says, appending the token on success and leaving it half read on failure |
| `Tokeniser.TokeniserCtx.TokeniseIdentifier` | libelement/src/token_internal.cpp:319-347 | appends the longest run of identifier characters as one token |
| `Tokeniser.TokeniserCtx.TokeniseComment` | libelement/src/token_internal.cpp:294-317 | consumes up to the end of the line and records the span on the current token |
| `Tokeniser.TokeniserCtx.TakeOne` | libelement/src/token_internal.cpp:97-186 | one turn of the loop takes the step the rules prescribe, which NextByCharacter gives character by character, and moves every field accordingly; at an invalid character whose line so far does not fit the message's buffer it has an outcome of its own |
| `Tokeniser.TokeniserCtx.Run` | libelement/src/token_internal.cpp:84-197 | from any state of the context: outcome, tokens, position, line start and line table are those of the input, after whatever the context already held; that the tokens' types are right is TypesAreTexts |
| `Tokeniser.InvalidReportedIff` | libelement/src/token_internal.cpp:172-183 | stopped at an invalid character, a run reports the parse error if and only if the bytes from where the context believes the line to start are between 0 and 1024; stopped elsewhere it reports what it found |
| `Tokeniser.LineSoFarIsStaleIff` | libelement/src/token_internal.cpp:84-90 | that number is negative if and only if the scanner is on the first line and before a line start that an earlier run has left behind |
| `Tokeniser.LongLineOverruns` | libelement/src/token_internal.cpp:175-179 | for n blanks and an invalid character on a fresh context: reported for n up to 1024, the buffer overrun from 1025 on |
| `Tokeniser.StaleLineStart` | libelement/src/token_internal.cpp:84-90 | concrete: two lines and then, without clear, an invalid character overrun the buffer |
| `Tokeniser.TokeniserCtx.Clear` | libelement/src/token_internal.cpp:379-389 | a half-read token and the line table survive; the context is fresh again if and only if there was neither |
| `Tokeniser.BrokenNumberOutlivesClear` | libelement/src/token_internal.cpp:379-389 | a concrete run, clear and second run whose tokens start with a stale number |
| `Tokeniser.IndexAtIs` | libelement/src/token_internal.cpp:199-202 | byte offsets of characters are found again, so a token's text is the characters it covers |
| `Tokeniser.TokensCoverInput` | libelement/src/token_internal.cpp:93-188 | losslessness in bytes: token ranges lie in the input, increase and do not overlap, gaps are white space and comments, and an empty end token closes the input |
| `Tokeniser.LineTableListsNewlines` | libelement/src/token_internal.cpp:159-166 | the line table lists exactly the offset after each newline, in order |
| `Tokeniser.LineIndexAgrees` | libelement/src/token_internal.cpp:349-361 | every token's line is the one the table puts its position on, its line start is the table's, and its character is the byte distance from there plus one |
| `Tokeniser.NextShifts` | libelement/src/token_internal.cpp:84-197 | what a step does depends only on the text from there on |
| `Tokeniser.TokenSame` | libelement/src/token_internal.cpp:204-347 | a token's text followed by a space is scanned as that very token |
| `Tokeniser.RelexRoundTrip` | libelement/src/token_internal.cpp:84-197 | whatever tokenises, printed with one space after each token, tokenises to the same types and texts, and printing again changes nothing |
| `Tokeniser.PrintAndReadAgain` | libelement/src/token_internal.cpp:84-202 | two contexts: one reads any input, the text of each of its tokens is printed with a space after it, the other reads that; if the first run succeeds the token lists agree in length, types and texts |
| `Tokeniser.NumbersAreLiterals` | libelement/src/token_internal.hpp:22-23 | every number token is a literal of the documented grammar |
| `Tokeniser.LiteralIsNumberIff` | libelement/src/token_internal.hpp:22-23 | a literal of the grammar, at the end of the input or before white space, is one number token if and only if its fraction is not a dot alone |
| `Tokeniser.LoneDotIsRefused` | libelement/src/token_internal.cpp:237-258 | concrete: a digit and a dot are a literal of the grammar and fail, at the end of the input and before a blank |
| `Tokeniser.IdentifiersUnlessDoubleUnderscore` | libelement/src/token_internal.hpp:25-26 | an identifier token is an identifier of the documented grammar if and only if it does not start with two underscores |
| `Tokeniser.IdentifierIsToken` | libelement/src/token_internal.hpp:25-26 | an identifier of the documented grammar that no identifier character follows is one identifier token |
| `Tokeniser.DoubleUnderscoreIsNoIdentifier` | libelement/src/token_internal.hpp:25-26 | concrete: two underscores are one identifier token and no identifier of the grammar |
| `Simplifier.ComparisonsMean` | Element.NET/!3-Instructions/Binary.cs:55-60 | the arithmetic of the comparisons decides equality and order of reals |
| `Simplifier.ConnectivesMean` | Element.NET/!3-Instructions/Binary.cs:53-54 | on truth values, And, Or and Not are the logical ones |
| `Simplifier.FoldsArithmetic` | Element.NET/!3-Instructions/Binary.cs:63-65 | on two numbers folding gives their sum, difference, product and two-argument arctangent |
| `Simplifier.FoldsQuotient` | Element.NET/!3-Instructions/Binary.cs:66-66 | folding a division gives the number that times the divisor is the dividend |
| `Simplifier.FoldsRemainder` | Element.NET/!3-Instructions/Binary.cs:67-67 | folding a remainder gives a number a whole number of divisors away from the dividend, smaller than the divisor, and zero or of the dividend's sign |
| `Simplifier.FoldsBounds` | Element.NET/!3-Instructions/Binary.cs:69-70 | folding a minimum or maximum gives one of the operands, and a bound of both |
| `Simplifier.FoldsComparisons` | Element.NET/!3-Instructions/Binary.cs:55-60 | folding a comparison of two numbers gives its truth |
| `Simplifier.FoldsConnectives` | Element.NET/!3-Instructions/Binary.cs:53-54 | folding And and Or gives whether the product, or the sum less the product, is positive; on zero and one, conjunction and disjunction |
| `Simplifier.FoldsByLibrary` | Element.NET/!3-Instructions/Binary.cs:66-71 | powers and logarithms are the library's, first operand first; a negative has no logarithm; a zero divisor gives what lies beyond the reals |
| `Simplifier.FoldsUnary` | Element.NET/!3-Instructions/Unary.cs:32-48 | folding gives the negation, the absolute value, and the library's function by its name |
| `Simplifier.FoldsRoundings` | Element.NET/!3-Instructions/Unary.cs:45-46 | floor and ceiling are whole and less than one away, below and above |
| `Simplifier.NaNSpreads` | Element.NET/!3-Instructions/Binary.cs:79-86 | a NaN operand gives a NaN of the operation's type |
| `Simplifier.MeaningIsFolding` | Element.NET/!3-Instructions/Binary.cs:52-74 | the value that the theorems ask to be kept is, for an operation on operands of any values, what folding those values gives |
| `Simplifier.UnaryMeaningIsFolding` | Element.NET/!3-Instructions/Unary.cs:32-48 | the same for operations of one operand |
| `Simplifier.TruncIs` | Element.NET/!3-Instructions/Instruction.cs:71-72 | a selector is cut toward zero, a negative one upwards |
| `Simplifier.SwitchMeans` | Element.NET/!3-Instructions/Switch.cs:16-34 | a switch has the value of the option its selector, cut toward zero, names, and none outside them |
| `Simplifier.ConstantSelector` | Element.NET/!3-Instructions/Switch.cs:22-34 | a constant selector picks the option it names, fails exactly when it names the one just past the end, and otherwise leaves the switch |
| `Simplifier.SwitchRefusals` | Element.NET/!3-Instructions/Switch.cs:18-34 | no options are refused, and options of different types exactly when they are not all equal |
| `Simplifier.DivisionByConstant` | Element.NET/!3-Instructions/Binary.cs:108-112 | dividing by a constant multiplies by the number that times it is one; by zero, by infinity; by an infinity, by zero |
| `Simplifier.BuildBinaryIsNormalIff` | Element.NET/!3-Instructions/Binary.cs:77-123 | a node built of operands in which nothing is left to simplify has nothing left to simplify either, if and only if it is not a division of something unknown by an infinity |
| `Simplifier.SimplifyIsNormal` | Element.NET/!3-Instructions/Binary.cs:77-123 | in a simplified tree no folding, rewrite, collapse or selection is left to do, unless a division by an infinity was rebuilt in it |
| `Simplifier.NormalStays` | Element.NET/!3-Instructions/Binary.cs:77-123 | and a tree with nothing left to do is left as it is, so simplifying again changes nothing |
| `Simplifier.EqualsSameValue` | Element.NET/!3-Instructions/Switch.cs:70-84 | equal instructions have the same value under every input |
| `Simplifier.EqualsItselfIff` | Element.NET/!3-Instructions/Constant.cs:44-44 | an instruction equals its own copy if and only if no NaN constant is in it |
| `Simplifier.EqualsIff` | Element.NET/!3-Instructions/Switch.cs:70-84 | without shared references, instructions are equal if and only if they are the same but for the types of constants, inputs and switches, and have no NaN in them |
| `Simplifier.BuildBinaryKeepsValueIff` | Element.NET/!3-Instructions/Binary.cs:77-123 | folding and every algebraic rewrite keep a defined value if and only if the node is not a power whose operands are the constant zero and a non-constant that comes out zero |
| `Simplifier.ZeroToZeroInput` | Element.NET/!3-Instructions/Binary.cs:90-92 | concrete: zero to the power of an input that is zero is one, is simplified to the constant zero, and so is the lost power of the two theorems |
| `Simplifier.BuildSwitchKeepsValue` | Element.NET/!3-Instructions/Switch.cs:16-34 | collapsing equal options and resolving a constant selector keep the value |
| `Simplifier.SimplifyKeepsValueIff` | Element.NET/!3-Instructions/Binary.cs:77-123 | a tree rebuilt bottom-up that has a value over the reals keeps it, and so does every part that is evaluated, if and only if no evaluated power is rebuilt with a constant zero base and a non-constant exponent that comes out zero |
| `Simplifier.BuildBinaryKeepsTypeIff` | Element.NET/!3-Instructions/Binary.cs:77-142 | for every operation and any operands: the result has the operation's type if and only if the operand a rewrite hands back, if one does, has it |
| `Simplifier.BuildBinaryKeepsType` | Element.NET/!3-Instructions/Binary.cs:125-142 | every rewrite of a well-typed node has the node's type |
| `Simplifier.SimplifyKeepsType` | Element.NET/!3-Instructions/Switch.cs:22-34 | simplifying a well-typed tree fails to index if and only if some switch, its rebuilt options not all equal, has a rebuilt constant selector that truncates to the number of options; otherwise it gives a well-typed tree of the same type |
| `Simplifier.AddingZeroLosesTheType` | Element.NET/!3-Instructions/Binary.cs:96-99 | for an ill-typed sum the type changes: adding zero to a truth value gives back the truth value |
| `Simplifier.SelectorEqualToCountFails` | Element.NET/!3-Instructions/Switch.cs:29-30 | a concrete switch of two options whose constant selector 2 passes the index check and fails to index |

## Left out

- Interrupting and resuming a run: nothing in the library clears the flag, and the loops report an interruption differently; the run theorems are for uninterrupted runs.
- `dispatch_jumptable.h` on interruption, which reports OK: described by the run's definition, no theorem.
- In-place archives: preparing one always fails at the linking step (`Prepare` says so), so nothing further is said about them.
- Copying an archive into the memory area in pieces, and the stack overlying the archive's constants in one memory area: `Prepare` takes the archive as loaded, with its size within the memory, and gives the stack its own array with the constants at the bottom.
- Words of a data section that lie past the archive's end: a load that gets there is a fault of the machine, and what the host would read is not modelled; `SectionsInsideIff` says when no load gets there.
- What the JIT does past its array of 32 branch targets: `CollectTargets` stops there and says so.
- Default arguments: reading them from a data section when a host asks for them is not modelled, only the validator's check of their index.
- Dispatch.ForwardRunsEnd: runs are bounded by a number of instructions; for programs with back-branches nothing is said about ending.
- Dispatch.DispatchersAgree: when a run leaves its bounds the loops are only said to fault alike; safe programs do not.
- Externs whose results depend on anything but their arguments, or that touch the context: an extern is a function of its argument window.
- Floating point: values are bit patterns, arithmetic and comparisons are parameters; the two-output trigonometric variant that a build flag may choose, rounding and NaN payloads are not modelled.
- Host byte order and structure layout: bytes are little-endian and packed, as the archive format is.
- The lookahead heuristics of the JIT: importance is a parameter of every acquire, so nothing depends on how it is computed.
- DynASM code generation: the cache sees one access at a time; code paths that hold several registers before notifying are not modelled, and no equivalence of JIT and interpreter is claimed.
- RegCacheX86.RegCache.Run: stops at an access that must not go around the cache, which `Refused` tells beforehand; the code generators' own fallback at that point is not modelled, `LoadIff` and `StoreIff` say when it would be sound. Scalar writes that clear the upper lanes are `WriteScalarZeroing` and no part of a run.
- RegCacheArm.RegCache.Run: the same about its stopping, for vector accesses.
- Stack positions are unbounded naturals in the caches and 16-bit in the source.
- Validation.SegmentsFit: archives whose strings or defs segment reaches 65536 bytes, on which the validator's 16-bit walk can revisit offsets, are outside every theorem.
- Tokeniser: invalid UTF-8 (every such read throws), counters overflowing a 32-bit int, what log messages say, source names (taken to be given), the token fields before the token (never set), and the text of a line.
- Simplifier: reference identity is a parameter, infinities and signed zero are only carried along, operands that are not instructions, casts, hash codes, and looking types up in a context.
- The Lexico-based parser, boundaries, common subexpression extraction, the command line, packages, logging and the API's null checks.
