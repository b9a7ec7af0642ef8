# SymCC in Dafny

SymCC is a compiler pass and a run-time library that make a program execute *concolically*:
beside every concrete value travels a symbolic expression, or null where the value does not
depend on the input, and every decision that depends on the input is reported to a solver as
a path constraint. This project models that machinery, the quicksort that SymCC brings along so
that sorting can be executed symbolically, and the coverage bookkeeping of its fuzzing helper,
and proves what each of them is for.

`dafny verify dfyconfig.toml` checks all of it.

## What is proved

**Path soundness** (`PathSoundness.PathSound`). For every program of a small SSA language
with the integer instructions that the pass handles, for every run and every number of steps: an
input of the same length that satisfies all constraints pushed so far goes through the same
blocks, and each of its registers and memory bytes is the expression recorded for it evaluated on
that input, or the recorded concrete value where the expression is null. `Divergence` adds the
other half: the running input satisfies its own constraints, so with a complete solver no assertion
of the backend can fire; a constraint gets a model, and only one, exactly if some input of the same
length satisfies all earlier constraints and violates it; and a model found at a branch, select,
switch, address or size repeats the run up to that point and then decides otherwise.

Both executions share the definitions of the operators, so those are pinned down separately:
`BitVectorLaws` says what they do as arithmetic, for every width, and `MachineLaws` does the same for
casts, loads, stores, PHI nodes, terminators and blocks. `InputStream` proves that over a whole run the
reads deliver the input byte by byte, in order, each byte once and with its own variable, and that
nothing is symbolic before the first byte.

Calls included: `Interprocedural.ModuleSound` is the same for modules of functions that call each
other, with expressions of arguments and results travelling through the global slots;
`CallReturn.WholeCall` says what a call, however deep its callees nest, hands over and back.

**The pass emits that semantics** (`CompiledRun.PassSimulatesIff`). For every function in static
single assignment form, with loops, PHI nodes, memory accesses, branches and switches, and for
every number of steps: the code that is left after PHI finalisation and short-circuiting, run
beside the program, has pushed the same constraints in the same order, has the same shadow memory,
keeps the expression of every register in scope, and has never passed null to a builder, if and
only if no step is harmed by an operand that the pass visited too late.
`PassSound.FinishedCodeIsSound` puts this together with path soundness. Scope is dominance, defined over all
control-flow paths; `LoopExample` is a loop as an instance.

**Paged shadow memory is a flat map** (`PagedShadow`, `ShadowMoves`, `RuntimeMemory`).
Page-wise iteration, with iterators that may hold a stale null page pointer while writers create
pages, refines a map from addresses to byte expressions for every overlap and page crossing; on the
flat map every operation keeps the invariant that expressions describe the bytes.

**The quicksort sorts** (`QsortInsertion.Quicksort`). On raw bytes, with pointers into them:
termination, order, permutation of whole elements, no access outside the array by the unguarded scans,
no overflow of the fixed stack.

**Smaller protocols**: switch batches, argument and return slots, bit-vector aggregates, address
calculation, coverage accumulation.

### How the model is laid out

| modules | what they model |
|---|---|
| `Options`, `BitVectors`, `BitVectorLaws`, `Expressions`, `Constraints` | bit vectors (least significant bit first) and the arithmetic of their operators, the solver's expressions with sorts and values, path constraints |
| `FlatMemory`, `PagedShadow`, `ShadowMoves`, `RuntimeMemory` | runtime/Shadow.h and the memory operations |
| `Aggregates`, `Gep`, `GepExactness` | extract, insert, byte swap; address calculation and exactly when it is right |
| `Ir`, `Concolic`, `PathSoundness`, `Backend`, `Divergence` | programs, their concrete and their instrumented execution, the simple backend over an abstract solver |
| `MachineLaws`, `InputStream`, `RuntimeSteps` | what the concrete machine computes, the symbolic input as a stream, the run-time library's entry points in an instrumented step |
| `SymbolicCode`, `ShortCircuit`, `CodeFrame`, `ShortCircuitMeaning`, `PhiFinalization` | inserted code and its two rewritings |
| `Instrumentation`, `GepInstrumentation`, `Recording`, `Emission`, `SymbolizerPass` | what the visit methods record and insert for each instruction, and the pass at work |
| `Scope`, `FunctionPass`, `FinalPass`, `Typing`, `LateOperands`, `CompiledRun`, `PassSound` | the pass over a whole function and the run of its code |
| `LoopExample`, `LayoutExample` | a loop that the theorem covers, and a block layout that loses an expression |
| `SwitchBatch`, `CallSlots`, `Coverage` | three state machines |
| `Interprocedural`, `CallReturn` | functions that call each other through the slots |
| `QsortSpec`, `QsortBytes`, `QsortPending`, `Qsort`, `QsortInsertion` | libc_harness/qsort.c |

Binary operators are total with their SMT-LIB meaning. Pointers have 64 bits. Clocks, files and
processes are parameters: the outcome of running `afl-showmap` and of copying a file is part of a
test case, and the solver is a pair of functions assumed sound, and where stated complete.

### Where the code does less than it promises

The model follows the code. For each of these a lemma states exactly when the code does what it
promises.

- `trunc` to i1 builds a one-bit vector where the other code expects a Boolean expression: the sort is right if and only if the target is not i1 (`PathSoundness.TruncationSort`).
- `createValueExpression` builds 128-bit constants for all integers wider than 64 bits: exact if and only if the width is at most 64 or 128 (`Expressions.ValueExprExact`).
- In an address calculation, element sizes and member offsets go through a 32-bit unsigned, and an index of type i1 is sign-extended as a Boolean. An index path is right for all run-time values if and only if its indices are all literal zeros, or it has no i1 index and none wider than a pointer besides literal zeros, every variable index scales a size below 2^32, and what the literal part loses cancels out modulo 2^64 (`GepExactness.GepExact`). Without literal indices that means that all sizes and offsets are below 2^32 (`GepExactness.FitsMeansSmall`).
- The pass visits instructions in layout order and takes an operand that it has not visited yet for a concrete one. What it knows about every operand at its use is final if and only if no value whose definition is visited at or after a use ends up with an expression (`FunctionPass.LayoutExact`); then every run is right (`CompiledRun.PassSimulates`). For other layouts a run is right if and only if each of its steps does the same without the expressions of such late operands (`CompiledRun.PassSimulatesIff`), and for every kind of instruction module `LateOperands` says when that is. A late operand of an operator or comparison must be concrete, or the other operand is symbolic, not late, and the late one's expression is that of a constant (`LateOperands.LateBinary`). A late condition leaves a branch out of the path unless it is concrete (`LateOperands.LateBranch`). `LayoutExample.ExpressionLost` is a function and a layout in which a value in scope loses its expression.
- The argument slots are indexed by eight bits: every argument list of length n arrives if and only if n is at most 256 (`CallSlots.ArgumentLimit`).
- Asking the simple backend for input bytes with a gap mixes up variable names: right if and only if there is no gap (`Backend.InputVariables.GetInputByte`).
- A little-endian insert runs into the byte swap's assertion: it succeeds if and only if the inserted width is a multiple of 16 (`Aggregates.InsertIsSplice`).
- The fuzzing helper merges the bitmap before it copies the test case. If the copy fails, the test case is lost: no later submission of the same map is New (`Coverage.LostForever`). A map is New in some submission if and only if the copy of its first submission succeeds and it has an unseen bit then (`Coverage.QueuedIff`); `Coverage.LosingRun` is a run of two steps.
- An ordering comparison of i1 values is ill-sorted: a comparison of Booleans is well sorted if and only if it is for equality or inequality (`PathSoundness.BooleanOrdering`).
- The concretisation of a size compares with a 64-bit constant: it is well sorted if and only if the size has 64 bits, which `memcpy` and its relatives do not demand (`PathSoundness.PinSort`).
- qsort's `MAX_THRESH * size` can wrap around in `size_t`, and `base_ptr + max_thresh` in the address space. For two elements and more the threshold pointer is right if and only if there are more than four or the address of element 4 does not wrap (`QsortInsertion.ThreshPointer`); otherwise it lies below the array, no sentinel is placed, and two elements are left as they are (`QsortInsertion.Quicksort`). For a single element the insertion scan starts behind it if and only if the address of element 2 does not wrap (`QsortInsertion.RunPointer`). No array in an ordinary process lies that close to the top of memory.

## Model

| member | source | states |
|---|---|---|
| `PathSoundness.PathSound` | compiler/Symbolizer.cpp:350-519 | any input of the same length that satisfies the constraints pushed so far is in the same place after the same number of steps, with every register and memory byte as its expression says on that input |
| `PathSoundness.StepAgrees` | compiler/Symbolizer.cpp:350-519 | one step keeps that agreement for every instruction and terminator, given the constraints of that step |
| `PathSoundness.TargetSame` | compiler/Symbolizer.cpp:429-443 | an input that satisfies the pushed constraints takes the same edge out of a branch or switch |
| `PathSoundness.SwitchTargetSame` | compiler/Symbolizer.cpp:810-847 | the case constraints, taken or not, determine the target of a switch |
| `PathSoundness.PhisAgree` | compiler/Symbolizer.cpp:763-780 | PHI nodes carry over the expression of the value that comes in over the edge, all read before any is written |
| `MachineLaws.PhisRead` | compiler/Symbolizer.cpp:763-780 | every PHI node takes the value and expression that its incoming operand had before the jump, whatever the other nodes do; other registers keep theirs |
| `MachineLaws.TerminatorDoes` | compiler/Symbolizer.cpp:414-443 | a terminator enters the block that its operand selects at the first instruction; a return stops the function with its operand |
| `MachineLaws.BlockRuns` | compiler/Symbolizer.cpp:350-519 | a block executes all its instructions in order, each once, and then its terminator |
| `PathSoundness.BinPredicted` | compiler/Symbolizer.cpp:350-380 | a binary operator's expression predicts its value on the other input; concrete operands become constants |
| `MachineLaws.BinaryInstruction` | compiler/Runtime.cpp:90-105 | an arithmetic instruction applies its own operator to its operands in order, and its expression does so on every input; it is null exactly if both operands are |
| `BitVectorLaws.SubUndoesAdd` | runtime/simple_backend/Runtime.cpp:210-211 | subtraction and addition undo each other |
| `BitVectorLaws.UnsignedDivision` | runtime/simple_backend/Runtime.cpp:213-215 | quotient times divisor plus remainder is the dividend, with the remainder below the divisor; by zero all ones and the dividend |
| `BitVectorLaws.SignedDivision` | runtime/simple_backend/Runtime.cpp:214-216 | the same for signed numbers, rounding towards zero, with the exact case in which the quotient wraps around, and the values for a zero divisor |
| `BitVectorLaws.ShiftLeft` | runtime/simple_backend/Runtime.cpp:217 | shifting left multiplies by a power of two, modulo the width, for every shift amount |
| `BitVectorLaws.ShiftRight` | runtime/simple_backend/Runtime.cpp:218 | a logical shift divides the unsigned number by a power of two |
| `BitVectorLaws.ShiftArithmetic` | runtime/simple_backend/Runtime.cpp:219 | an arithmetic shift divides the signed number by a power of two, rounding down |
| `BitVectorLaws.BitwiseBits` | runtime/simple_backend/Runtime.cpp:231-234 | each bit of and, or and xor |
| `BitVectorLaws.BitwiseSums` | runtime/simple_backend/Runtime.cpp:231-234 | and plus or is the sum of the operands, and xor their difference |
| `PathSoundness.BoolPredicted` | compiler/Symbolizer.cpp:350-380 | the same for and, or, xor on i1 |
| `MachineLaws.BooleanOperators` | runtime/simple_backend/Runtime.cpp:231-284 | the Boolean operators are the bitwise ones on single bits |
| `PathSoundness.CmpPredicted` | compiler/Symbolizer.cpp:402-412 | the same for comparisons |
| `MachineLaws.CompareInstruction` | compiler/Runtime.cpp:116-129 | a comparison decides its own predicate of its operands in order, and so does its expression on every input |
| `BitVectorLaws.UnsignedOrder` | runtime/simple_backend/Runtime.cpp:225-228 | the unsigned orders are decided by the highest bit in which the operands differ |
| `BitVectorLaws.SignedOrder` | runtime/simple_backend/Runtime.cpp:221-224 | the signed orders are the unsigned ones with the top bits flipped |
| `BitVectorLaws.EqualityOrder` | runtime/simple_backend/Runtime.cpp:229-274 | equality is equality of the unsigned and of the signed numbers, and inequality its negation |
| `PathSoundness.CastPredicted` | compiler/Symbolizer.cpp:714-761 | the same for sign extension, zero extension and truncation, i1 operands included, and truncations to i1 of concrete values |
| `MachineLaws.CastMeans` | compiler/Symbolizer.cpp:714-761 | zero extension keeps the unsigned number, sign extension the signed one, truncation the unsigned one modulo a power of two, with i1 as one bit |
| `BitVectorLaws.ZeroExtendValue` | runtime/simple_backend/Runtime.cpp:355-357 | zero extension keeps the unsigned value |
| `BitVectorLaws.TruncateValue` | runtime/simple_backend/Runtime.cpp:359-361 | truncation keeps it modulo a power of two |
| `PathSoundness.TruncationSort` | compiler/Symbolizer.cpp:637-644 | truncation builds an expression of the result's sort if and only if the result is not i1 |
| `PathSoundness.BooleanOrdering` | compiler/Symbolizer.cpp:402-412 | a comparison of Boolean expressions is well sorted if and only if it is for equality or inequality |
| `PathSoundness.SelectPredicted` | compiler/Symbolizer.cpp:382-400 | under the pushed condition a select copies the right expression |
| `PathSoundness.LoadPredicted` | compiler/Symbolizer.cpp:474-496 | a loaded value of any width is predicted by the expression read from shadow memory |
| `PathSoundness.GepPredicted` | compiler/Symbolizer.cpp:521-610 | a computed address is predicted by the expression built for it |
| `PathSoundness.PinOperandSame` | compiler/Symbolizer.cpp:967-983 | an input that satisfies the concretisation constraint has the same address or size |
| `PathSoundness.PinSort` | runtime/simple_backend/Runtime.cpp:481-487 | a concretisation is well sorted if and only if the operand has 64 bits |
| `PathSoundness.StoreKeeps` | compiler/Symbolizer.cpp:498-519 | a store keeps the agreement of both runs |
| `PathSoundness.MoveKeepsState` | runtime/RuntimeCommon.cpp:101-117 | a memory move keeps the agreement of both runs |
| `PathSoundness.FillKeepsState` | runtime/RuntimeCommon.cpp:84-99 | a memory fill keeps the agreement of both runs |
| `PathSoundness.ReadKeeps` | runtime/RuntimeCommon.cpp:293-299 | reading from the symbolic input keeps the agreement of both runs, each with its own bytes |
| `InputStream.ReadReturns` | runtime/LibcWrappers.cpp:136-149 | a read returns at most what was asked for, and less only at the end of the input; the position moves on by just that much |
| `InputStream.ReadDelivers` | runtime/LibcWrappers.cpp:136-149 | each byte of the buffer up to the number returned gets the input byte and the variable of its own position, and nothing else changes |
| `InputStream.StreamInOrder` | runtime/LibcWrappers.cpp:136-149 | over a whole run the bytes found in the buffers are the input up to the position, in order and each once, their shadow entries the variables of those bytes, and the returned numbers add up to their count |
| `InputStream.ConcreteUntilRead` | runtime/LibcWrappers.cpp:136-149 | as long as no input byte has been delivered there is no expression, no shadow entry and no constraint |
| `Divergence.RunOwn` | runtime/simple_backend/Runtime.cpp:416-472 | over every run the running input satisfies all constraints it pushes, they are Boolean, and every expression evaluates to the value beside it |
| `Divergence.ConcolicMemory` | runtime/RuntimeCommon.cpp:67-193 | at every point of every run a non-null shadow entry is an 8-bit expression that evaluates to the concrete byte |
| `Divergence.Explore` | runtime/simple_backend/Runtime.cpp:416-472 | running a program against the backend: no assertion fires, the pushed constraints are the path, a constraint has a model, and only one, exactly if some input of that length satisfies the earlier ones and violates it, and every model repeats the run on its own input up to its constraint |
| `Divergence.ModelRepeats` | runtime/simple_backend/Runtime.cpp:416-472 | a model found for constraint number d repeats every step whose constraints come before d |
| `Divergence.ModelAtStep` | runtime/simple_backend/Runtime.cpp:416-472 | a model found for the q-th constraint of a step arrives at that step, satisfies the step's earlier constraints and violates this one |
| `Divergence.BranchModel` | compiler/Symbolizer.cpp:429-443 | a model found at a conditional branch arrives there in the same state of control and takes the other edge |
| `Divergence.BranchFlips` | compiler/Symbolizer.cpp:429-443 | violating the branch constraint means the other target |
| `Divergence.SelectFlips` | compiler/Symbolizer.cpp:382-400 | violating a select's constraint means choosing the other operand |
| `Divergence.SelectModel` | compiler/Symbolizer.cpp:382-400 | a model found at a select arrives there and selects the other operand |
| `Divergence.PinFlips` | runtime/simple_backend/Runtime.cpp:474-487 | violating a concretisation means a different address or size |
| `Divergence.PinModel` | runtime/simple_backend/Runtime.cpp:474-487 | a model found for the concretisation of an address or size arrives at that instruction and has another address or size |
| `Divergence.SwitchReaches` | compiler/Symbolizer.cpp:810-847 | satisfying a case's equation leads to that case's target |
| `Divergence.SwitchModel` | compiler/Symbolizer.cpp:810-847 | a model found for a non-taken case arrives at the switch and goes to the target of the very case that the constraint asks for |
| `Divergence.DefaultModel` | compiler/Symbolizer.cpp:810-847 | a model found for the taken case, which is asked for last, arrives at the switch and goes to the default target |
| `Backend.SimpleBackend.Push` | runtime/simple_backend/Runtime.cpp:416-472 | with a sound and complete solver no assertion fires; the assertions on the solver keep meaning exactly the pushed constraints; one model with the constraint's number is added if and only if some input of the same length satisfies all earlier constraints and violates this one, and the model does |
| `Backend.PushAll` | runtime/simple_backend/Runtime.cpp:416-472 | the same over a whole run: exactly the constraints that some input violates after satisfying all earlier ones have a model, and one each |
| `Backend.AlternativeMeans` | runtime/simple_backend/Runtime.cpp:440-468 | the query and the assertion hold exactly of inputs with the opposite and the actual outcome |
| `Backend.InputVariables.GetInputByte` | runtime/simple_backend/Runtime.cpp:181-194 | the variable handed out is the one named after the offset, and later ones stay so, if and only if no offset was skipped |
| `Expressions.ValueExprExact` | compiler/Symbolizer.cpp:863-903 | the constant built for a value evaluates to it, and has its sort, if and only if the width is 1 to 64 or 128 |
| `FlatMemory.GatherDenotes` | runtime/RuntimeCommon.cpp:119-157 | the bytes gathered in either endianness evaluate to the integer that the other run loads |
| `FlatMemory.ReadIsRight` | runtime/RuntimeCommon.cpp:119-157 | a read returns an expression for the integer in memory, or null only if that integer is the same on the other input |
| `FlatMemory.ReadNull` | runtime/RuntimeCommon.cpp:119-157 | a read is null if and only if every byte of its region has a null entry |
| `FlatMemory.WriteKeeps` | runtime/RuntimeCommon.cpp:159-193 | a write keeps the invariant that shadow memory predicts memory |
| `FlatMemory.MoveKeeps` | runtime/RuntimeCommon.cpp:101-117 | a move keeps it, for every overlap |
| `FlatMemory.FillKeeps` | runtime/RuntimeCommon.cpp:84-99 | a fill with an 8-bit value keeps it |
| `FlatMemory.MakeSymbolicKeeps` | runtime/RuntimeCommon.cpp:293-299 | marking input bytes symbolic keeps it |
| `FlatMemory.WriteThenRead` | runtime/RuntimeCommon.cpp:119-193 | reading any sub-range of what was written gives the matching bit slice, under every input and in both byte orders |
| `FlatMemory.WriteThenReadWhole` | runtime/RuntimeCommon.cpp:119-193 | reading back the whole gives an expression of the same sort and value under every input |
| `MachineLaws.LittleEndian` | runtime/RuntimeCommon.cpp:150-152 | in little-endian order the byte at the lowest address is the least significant one of a load |
| `MachineLaws.BigEndian` | runtime/RuntimeCommon.cpp:150-152 | in big-endian order it is the most significant one |
| `MachineLaws.StoreThenLoad` | runtime/RuntimeCommon.cpp:119-193 | loading any sub-range of what was stored gives its bytes |
| `MachineLaws.StoreThenLoadWhole` | runtime/RuntimeCommon.cpp:119-193 | loading the whole gives back what was stored, and loads elsewhere are not affected |
| `PagedShadow.PageTable.GetOrCreate` | runtime/Shadow.h:155-164 | a page is there afterwards, existing pages stay, and the flat contents do not change |
| `PagedShadow.PageTable.Store` | runtime/Shadow.h:152-152 | exactly one address changes |
| `PagedShadow.ReadIterator.constructor` | runtime/Shadow.h:62-64 | the cached page is null exactly if there is none |
| `PagedShadow.ReadIterator.Increment` | runtime/Shadow.h:66-73 | the cached position stays that of the address; the page is looked up anew only at a page boundary |
| `PagedShadow.ReadIterator.Decrement` | runtime/Shadow.h:75-82 | the same downwards |
| `PagedShadow.ReadIterator.Get` | runtime/Shadow.h:84-89 | the entry seen through the cached page, null if that is stale or missing |
| `PagedShadow.WriteIterator.constructor` | runtime/Shadow.h:132-134 | creates the page it needs and changes no entry |
| `PagedShadow.WriteIterator.Increment` | runtime/Shadow.h:136-142 | crosses into the next page, creating it, and changes no entry |
| `PagedShadow.WriteIterator.Decrement` | runtime/Shadow.h:144-150 | the same downwards |
| `PagedShadow.WriteIterator.Set` | runtime/Shadow.h:152-152 | writes exactly the entry of the current address |
| `ShadowMoves.StdCopy` | runtime/RuntimeCommon.cpp:67-82 | the forward copy moves the old source entries although its read iterator may hold a stale null page |
| `ShadowMoves.StdCopyBackward` | runtime/RuntimeCommon.cpp:101-117 | the same backwards, including the page created for the end iterator |
| `ShadowMoves.CopyForward` | runtime/RuntimeCommon.cpp:101-117 | on pages refines the flat move if the destination starts at or below the source, or does not overlap |
| `ShadowMoves.CopyBackward` | runtime/RuntimeCommon.cpp:101-117 | on pages refines the flat move if the destination starts at or above the source |
| `RuntimeMemory.IsConcrete` | runtime/Shadow.h:204-215 | true exactly if no entry of the range is set, the missing-page shortcut included |
| `RuntimeMemory.Memcpy` | runtime/RuntimeCommon.cpp:67-82 | the flat move, and the concretisations of both addresses and the size in order |
| `RuntimeMemory.Memmove` | runtime/RuntimeCommon.cpp:101-117 | the flat move for all overlaps and page crossings, and the same concretisations |
| `RuntimeMemory.Memset` | runtime/RuntimeCommon.cpp:84-99 | the flat fill, or clearing for a concrete value |
| `RuntimeMemory.Read` | runtime/RuntimeCommon.cpp:119-157 | the flat read, null for a concrete range, and the concretisation of the address |
| `RuntimeMemory.Accumulate` | runtime/RuntimeCommon.cpp:141-156 | the loop over the non-null iterator joins the bytes in the requested order |
| `RuntimeMemory.GetNonNull` | runtime/Shadow.h:119-124 | a byte's expression, or a constant for the concrete byte |
| `RuntimeMemory.Write` | runtime/RuntimeCommon.cpp:159-193 | the flat write, with the shortcut for a concrete value over a concrete range |
| `RuntimeMemory.MarkSymbolic` | runtime/RuntimeCommon.cpp:293-299 | consecutive input bytes become the entries |
| `RuntimeSteps.ConcretizeMeans` | runtime/simple_backend/Runtime.cpp:474-487 | an input satisfies a concretisation if and only if the symbolic value has its concrete value on it |
| `RuntimeSteps.MovePushesMean` | runtime/simple_backend/Runtime.cpp:504-527 | an input satisfies what a move pushes if and only if each symbolic one among destination, source and size has its concrete value on it |
| `RuntimeSteps.MoveStep` | runtime/RuntimeCommon.cpp:67-117 | called with a move instruction's operands, memmove, or memcpy for equal or disjoint regions, pushes and leaves in the shadow what the instrumented step says |
| `RuntimeSteps.FillStep` | runtime/RuntimeCommon.cpp:84-99 | so does memset for a fill |
| `RuntimeSteps.LoadStep` | compiler/Symbolizer.cpp:474-496 | the inserted pin of the address and the read yield the instrumented load's expression and both its constraints |
| `RuntimeSteps.StoreStep` | compiler/Symbolizer.cpp:498-519 | the inserted pin of the address and the write yield the instrumented store's shadow and both its constraints |
| `RuntimeSteps.ReadStep` | runtime/LibcWrappers.cpp:136-149 | the wrapped read pins buffer and size and marks the bytes it got as the instrumented step says |
| `Aggregates.BuildExtractLoop` | runtime/RuntimeCommon.cpp:195-216 | the loop builds the expression of the recursive definition |
| `Aggregates.ExtractIsSlice` | runtime/RuntimeCommon.cpp:195-216 | extraction is the slice of the bytes in memory order, reversed for little endian |
| `Aggregates.BswapReverses` | runtime/RuntimeCommon.cpp:218-222 | the swap succeeds exactly for multiples of 16 bits and reverses the bytes |
| `Aggregates.BswapInvolutive` | runtime/RuntimeCommon.cpp:218-222 | swapping twice is the identity |
| `Aggregates.InsertIsSplice` | runtime/RuntimeCommon.cpp:259-287 | an insert replaces exactly the addressed bytes and keeps the width; it fails exactly for little-endian values that are no multiple of 16 bits wide |
| `Aggregates.ExtractAfterInsert` | runtime/RuntimeCommon.cpp:195-287 | extracting what was inserted gives it back |
| `Aggregates.ExtractElsewhere` | runtime/RuntimeCommon.cpp:195-287 | disjoint extracts do not see an insert |
| `Aggregates.InsertExtracted` | runtime/RuntimeCommon.cpp:195-287 | inserting what was extracted changes nothing |
| `Gep.GepIsRight` | compiler/Symbolizer.cpp:521-610 | for every choice of symbolic operands, the expression predicts the address on every input on which the built offset is right modulo 2^64; a null expression means that the address cannot change |
| `Gep.ChainDenotes` | compiler/Symbolizer.cpp:546-607 | the additions chained over the path evaluate to the base plus what was built for every index, with sizes and offsets cut to 32 bits |
| `GepExactness.GepExact` | compiler/Symbolizer.cpp:521-610 | for all bases, index values, inputs and choices of symbolic operands, zero-index shortcuts included: the expression predicts base plus member offsets plus sign-extended index times element size modulo 2^64 if and only if the path consists of literal zeros or fits |
| `GepExactness.FitsIsRight` | compiler/Symbolizer.cpp:521-610 | the sufficient half, for one choice of run-time values |
| `GepExactness.FitsMeansSmall` | compiler/Symbolizer.cpp:563-600 | without literal indices a path fits if and only if all sizes and offsets are below 2^32 |
| `ShortCircuit.Rewrite` | compiler/Symbolizer.cpp:83-177 | the loops of the pass produce the rewritten form that the meaning theorem is about |
| `ShortCircuitMeaning.ShortCircuitKeepsMeaning` | compiler/Symbolizer.cpp:83-177 | after the rewriting a computation yields null exactly when all inputs are null, otherwise the fully built expression; no builder gets a null argument; the same calls are made in the same order, or none |
| `ShortCircuitMeaning.SlowPath` | compiler/Symbolizer.cpp:119-161 | the slow path builds every argument and makes every call |
| `ShortCircuitMeaning.SingleIsSymbolic` | compiler/Symbolizer.cpp:131-141 | where the only check is skipped, the argument is not null |
| `PhiFinalization.Finalizer.Finalize` | compiler/Symbolizer.cpp:47-81 | the two loops fill in the remaining nodes and replace all uses of the erased ones by null |
| `PhiFinalization.FinalizeKeepsMeaning` | compiler/Symbolizer.cpp:47-81 | for one node after finalisation (all registers at once: `CompiledRun.EdgeScope`) each PHI node's operand, erased or not, is the expression of the value that came in, even for nodes that refer to each other |
| `PhiFinalization.FinalizeKeepsOthers` | compiler/Symbolizer.cpp:47-81 | other values keep their expressions across the edge |
| `PhiFinalization.ErasedIs` | compiler/Symbolizer.cpp:47-66 | a node is erased exactly if none of its incoming values has an expression |
| `Instrumentation.VisitBinaryRight` | compiler/Symbolizer.cpp:350-412 | the computation recorded for an operator or comparison yields the expression of the instrumented execution |
| `Instrumentation.VisitCastRight` | compiler/Symbolizer.cpp:714-761 | the same for casts, with the extra conversion of i1 operands |
| `LateOperands.LateCode` | compiler/Pass.cpp:71-83 | the code for any instruction some of whose operands are visited too late does what the instrumented step does without their expressions |
| `LateOperands.LateExact` | compiler/Pass.cpp:71-83 | so it is right exactly if those expressions make no difference to what is pushed, to shadow memory and to the result |
| `LateOperands.LateBinary` | compiler/Symbolizer.cpp:350-412 | an operator or comparison is right if and only if each late symbolic operand had the expression of its constant while the other operand is symbolic and not late; with both late, if and only if both are concrete |
| `LateOperands.LateUnary` | compiler/Symbolizer.cpp:612-761 | a cast or copy is right if and only if its late operand is concrete |
| `LateOperands.LateSelect` | compiler/Symbolizer.cpp:382-400 | a select is right if and only if its condition and the operand it chooses are concrete or not late |
| `LateOperands.LateLoad` | compiler/Symbolizer.cpp:474-496 | a load is right if and only if its late address is concrete |
| `LateOperands.LateStore` | compiler/Symbolizer.cpp:498-519 | a store is right if and only if its late address and value are concrete |
| `LateOperands.LateMove` | compiler/Symbolizer.cpp:229-243 | a memory move is right if and only if none of its late operands is symbolic |
| `LateOperands.LateFill` | compiler/Symbolizer.cpp:214-228 | a memory fill is right if and only if its late address and length are concrete, and its late value is or nothing is filled |
| `LateOperands.LateGep` | compiler/Symbolizer.cpp:521-610 | an address calculation is right if and only if no late operand is symbolic, or some other one is and each late one had the expression of its constant |
| `LateOperands.LateBranch` | compiler/Symbolizer.cpp:429-443 | the code before a branch pushes the branch's constraint if and only if a late condition is concrete |
| `LateOperands.LateSwitch` | compiler/Symbolizer.cpp:810-847 | the code before a switch pushes its constraints if and only if a late operand is concrete or there is no case |
| `Instrumentation.BuildGep` | compiler/Symbolizer.cpp:546-607 | the loop that merges one computation per index builds the recorded chain |
| `GepInstrumentation.VisitGepRight` | compiler/Symbolizer.cpp:521-610 | no expression, the base's expression or the recorded computation: each yields the expression of the instrumented execution |
| `GepInstrumentation.RoundsRight` | compiler/Symbolizer.cpp:546-607 | after any number of rounds the current address has the chained expression, and is null exactly if all inputs were |
| `Recording.RecordableIs` | compiler/Symbolizer.cpp:84-86 | every recorded computation has an input, as the pass asserts, and uses earlier results only |
| `CodeFrame.RewrittenWithin` | compiler/Symbolizer.cpp:83-177 | rewritten code writes its own registers only |
| `Emission.InstrDoes` | compiler/Symbolizer.cpp:350-655 | the finished code for any instruction of the model, memory accesses included, has the effect of the instrumented step and leaves the result's expression where the pass will look for it |
| `Emission.TermDoes` | compiler/Symbolizer.cpp:429-443 | the code before a terminator pushes exactly the terminator's constraints |
| `Emission.PushRight` | compiler/Symbolizer.cpp:382-393 | a recorded push adds the condition's outcome if the condition is symbolic, and nothing otherwise |
| `Emission.LoadDoes` | compiler/Symbolizer.cpp:474-496 | the code of a load pins the address twice and leaves the expression read from shadow memory |
| `Emission.StoreDoes` | compiler/Symbolizer.cpp:498-519 | the code of a store pins the address twice and writes the shadow |
| `FunctionPass.FinalAtUse` | compiler/Pass.cpp:71-83 | if no late value ends up with an expression, what the pass knows about an operand at its use is what it knows at the end |
| `FunctionPass.LateLost` | compiler/Pass.cpp:71-83 | a value whose definition is visited at or after a use is not known to the pass at that use |
| `FunctionPass.LayoutExact` | compiler/Pass.cpp:71-83 | what the pass knows about every operand at its use is final if and only if no late value ends up with an expression |
| `FunctionPass.NotOverwritten` | compiler/Symbolizer.cpp:521-543 | a value in scope, even one that shares the expression of another, is not kept in a register that the code about to run writes |
| `FunctionPass.LayoutComplete` | compiler/Pass.cpp:71-83 | layout order visits everything once |
| `FinalPass.CodeIsClean` | compiler/Symbolizer.cpp:47-81 | erasing PHI nodes after the visits leaves the code that visiting without them would have emitted |
| `FinalPass.ErasedExact` | compiler/Symbolizer.cpp:47-66 | over a whole function, a PHI node is erased exactly if none of its incoming values has an expression |
| `Scope.NotYet` | compiler/Symbolizer.cpp:763-780 | a definition is not in scope at itself, however often the block is entered again |
| `Scope.ScopeOfOperand` | compiler/Symbolizer.cpp:521-543 | where a value is in scope, so is what was in scope at its definition |
| `CompiledRun.EdgeScope` | compiler/Symbolizer.cpp:47-81 | if every register in scope has its expression before a jump, then so it has after it, PHI nodes finalised, erased or untouched |
| `CompiledRun.InstrSimulated` | compiler/Symbolizer.cpp:350-655 | one unharmed instruction at any point of a function, entered for the first or any later time |
| `CompiledRun.InstrHarmed` | compiler/Symbolizer.cpp:350-655 | an instruction after which the code has the state of the instrumented execution was unharmed |
| `CompiledRun.TermSimulated` | compiler/Symbolizer.cpp:429-443 | one terminator with the edge it takes is simulated if and only if its constraints were pushed |
| `CompiledRun.PassSimulatesIff` | compiler/Pass.cpp:71-86 | for every function, layout, input and number of steps: the finished code has the constraints of the instrumented execution in order, its shadow memory and the expression of every register in scope all along the run, if and only if no step is harmed by a late operand |
| `CompiledRun.PassSimulates` | compiler/Pass.cpp:71-86 | in every layout in which no late value ends up with an expression, that holds for every input and number of steps |
| `PassSound.FinishedCodeIsSound` | compiler/Pass.cpp:71-86 | on a run without harmed steps, any input of the same length that satisfies the constraints which the finished code has pushed repeats the run, with every register in scope and memory byte as the finished code has recorded it |
| `LayoutExample.ExpressionLost` | compiler/Pass.cpp:71-83 | a function and a layout in which a symbolic value that is in scope has no expression in the finished code, whatever its state, so that the simulation fails |
| `LoopExample.SecondRound` | compiler/Symbolizer.cpp:763-780 | the loop body is entered again while its result still has the expression of the first round |
| `LoopExample.LoopSimulated` | compiler/Pass.cpp:71-86 | a loop with a PHI node is simulated for every number of steps |
| `SymbolizerPass.Symbolizer.Instrument` | compiler/Pass.cpp:71-86 | visiting, finalising and short-circuiting leave the code and the PHI nodes that `CompiledRun.PassSimulates` is about |
| `SymbolizerPass.Symbolizer.Visit` | compiler/Symbolizer.h:255-271 | one visit updates the known expressions and inserts exactly the instruction's code |
| `SymbolizerPass.Symbolizer.VisitSelect` | compiler/Symbolizer.cpp:382-400 | the recorded push, then the choice between both operands' expressions if either has one |
| `SymbolizerPass.Symbolizer.VisitGetElementPtr` | compiler/Symbolizer.cpp:521-610 | nothing for concrete operands, the base's expression for zero indices, otherwise the merged computation |
| `SymbolizerPass.Symbolizer.VisitMemory` | compiler/Symbolizer.cpp:474-519 | the pinned pointer, if tracked, and the run-time call |
| `SymbolizerPass.Symbolizer.RegisterComputation` | compiler/Symbolizer.h:255-271 | the computation is recorded and, where there is a program value, becomes its expression |
| `SymbolizerPass.Symbolizer.ShortCircuitExpressionUses` | compiler/Symbolizer.cpp:83-177 | every recorded computation is rewritten in its place and nothing else changes |
| `SwitchBatch.Cache.Push` | runtime/RuntimeCommon.cpp:230-257 | constraints are held back until the last case, which releases the batch and empties the cache |
| `SwitchBatch.Cache.Flush` | runtime/RuntimeCommon.cpp:243-256 | non-taken constraints go out in order and the taken one last |
| `SwitchBatch.Cache.PushAll` | compiler/Symbolizer.cpp:810-847 | one switch, case by case |
| `SwitchBatch.RunBatches` | runtime/RuntimeCommon.cpp:230-257 | the same over every run of switches |
| `SwitchBatch.RunSwitch` | compiler/Symbolizer.cpp:810-847 | the code before a switch releases exactly the switch's constraints, and none if the operand is concrete |
| `SwitchBatch.BatchedOnce` | runtime/RuntimeCommon.cpp:230-257 | each constraint is released exactly once |
| `SwitchBatch.CaseMeans` | compiler/Symbolizer.cpp:832-846 | a case constraint holds exactly of inputs on which the operand has the case's value |
| `SwitchBatch.ExclusionsAreFree` | runtime/RuntimeCommon.cpp:230-257 | an input that reaches a case satisfies the exclusion of all others |
| `SwitchBatch.QuerySatisfiable` | runtime/RuntimeCommon.cpp:230-257 | each non-taken query has a solution exactly when the prior path condition with that case has one |
| `SwitchBatch.TakenFirstBlocks` | runtime/RuntimeCommon.cpp:241-255 | had the taken constraint been pushed first, no other case could be reached |
| `CallSlots.Slots.Execute` | compiler/Symbolizer.cpp:314-348 | over every tree of instrumented and uninstrumented calls each callee reads its own caller's arguments and each result read is that very callee's, or null |
| `CallSlots.Slots.ExecuteAll` | compiler/Symbolizer.cpp:314-348 | the same for a sequence of calls |
| `CallSlots.Slots.SetParameters` | compiler/Symbolizer.cpp:329-332 | the argument slots after a caller's stores, with the eight-bit index |
| `CallSlots.Slots.GetParameters` | compiler/Symbolizer.cpp:28-40 | what a callee reads at its entry |
| `CallSlots.Slots.SetReturnExpression` | runtime/RuntimeCommon.cpp:42-49 | the return slot holds the expression |
| `CallSlots.Slots.GetReturnExpression` | runtime/RuntimeCommon.cpp:51-56 | reading empties the slot |
| `CallSlots.ReceivedAll` | runtime/RuntimeCommon.cpp:58-65 | up to 256 arguments arrive unchanged |
| `CallSlots.ArgumentLimit` | runtime/RuntimeCommon.cpp:58-65 | all argument lists of length n arrive unchanged if and only if n is at most 256 |
| `Interprocedural.InvokeBinds` | compiler/Symbolizer.cpp:28-40 | a callee's parameters have the expressions of its own caller's arguments |
| `CallReturn.InvokePasses` | compiler/Symbolizer.cpp:28-40 | the callee starts at its entry with its caller on the stack; parameter d has the value and the expression, null included, of argument d, and no other register is set |
| `Interprocedural.InvokeAgrees` | compiler/Symbolizer.cpp:314-348 | a call keeps the agreement of both runs, for the callee and all suspended callers |
| `Interprocedural.ResumeAgrees` | compiler/Symbolizer.cpp:414-427 | a return keeps it: the used result has the expression which that very callee returned |
| `CallReturn.ResumeTakes` | compiler/Symbolizer.cpp:414-427 | a return gives a used result the value and the expression of the operand that the callee returned, and the caller's other registers and expressions are as they were |
| `CallReturn.WholeCall` | compiler/Symbolizer.cpp:314-348 | the same from a call to its own return, whatever functions were called in between |
| `CallReturn.ConcretePart` | compiler/Symbolizer.cpp:314-427 | over every run of a module the concrete part of the instrumented execution is the concrete execution |
| `Interprocedural.ModuleSound` | compiler/Symbolizer.cpp:314-427 | path soundness over whole call trees: an input that satisfies the constraints pushed so far is in the same function under the same callers, with every register of every function under way and every memory byte as its expression says |
| `Coverage.Load` | util/symcc_fuzzing_helper/src/symcc.rs:55-75 | a short file is padded with zeros, a longer one is an error |
| `Coverage.Helper.Merge` | util/symcc_fuzzing_helper/src/symcc.rs:81-91 | the bitmap becomes the bytewise or, and the result says whether it changed |
| `Coverage.Helper.Process` | util/symcc_fuzzing_helper/src/main.rs:348-403 | New exactly if the bitmap changes and the copy succeeds, Uninteresting exactly if a successful map changes nothing, an error after a failed copy; which counters move in each outcome |
| `Coverage.Helper.ProcessAll` | util/symcc_fuzzing_helper/src/main.rs:366-380 | over every run the bitmap is the or of all successful maps, each result is that of its test case on the map so far, and there are no more New results than set bits |
| `Coverage.RunHelper` | util/symcc_fuzzing_helper/src/main.rs:366-380 | at most 65536 * 8 results of any run are New, namely those of copied test cases with an unseen bit |
| `Coverage.CoveredBit` | util/symcc_fuzzing_helper/src/symcc.rs:81-91 | a bit is set after a run exactly if some successful map had it |
| `Coverage.OrChanges` | util/symcc_fuzzing_helper/src/symcc.rs:81-91 | merging changes the map exactly if the other has a bit not seen before |
| `Coverage.NewExactly` | util/symcc_fuzzing_helper/src/main.rs:366-380 | a test case of a run is New exactly if it is copied and has a bit that no earlier successful map had |
| `Coverage.Resubmitted` | util/symcc_fuzzing_helper/src/main.rs:366-380 | a map that was submitted before is Uninteresting, whatever became of it |
| `Coverage.LostForever` | util/symcc_fuzzing_helper/src/main.rs:366-380 | a failed copy of a map with new coverage is an error, and no later submission of that map is New |
| `Coverage.QueuedIff` | util/symcc_fuzzing_helper/src/main.rs:366-380 | some submission of a map is New if and only if the copy of its first one succeeds and it has an unseen bit then |
| `Coverage.BitOrigin` | util/symcc_fuzzing_helper/src/main.rs:366-380 | every covered bit was first seen in a test case that is New, or in one whose copy failed |
| `Coverage.LosingRun` | util/symcc_fuzzing_helper/src/main.rs:366-380 | a run of two steps whose only bit is covered without a test case in the queue |
| `Coverage.CountOr` | util/symcc_fuzzing_helper/src/symcc.rs:81-91 | merging never loses bits, and gains at least one if it changes the map |
| `QsortInsertion.Quicksort` | libc_harness/qsort.c:94-254 | for every count, every element size of at least one, every total preorder and every address with room: terminates with the elements sorted and a permutation of the originals as byte blocks; without room two elements are left as they are |
| `QsortInsertion.InsertionPhase` | libc_harness/qsort.c:210-253 | a nearly sorted array with room becomes sorted, without a bounds test in the inner scan |
| `QsortInsertion.NearlyFromCuts` | libc_harness/qsort.c:202-206 | what the first phase leaves: elements more than MAX_THRESH apart are in order |
| `QsortInsertion.PlaceSmallest` | libc_harness/qsort.c:220-225 | if the threshold is right, the smallest element of the whole array moves to the front; if it lies below the array, nothing moves |
| `QsortInsertion.FindSmallest` | libc_harness/qsort.c:220-222 | if the threshold is right, the smallest of the first MAX_THRESH + 1 elements is the smallest of all |
| `QsortInsertion.FindPlace` | libc_harness/qsort.c:232-236 | the unguarded scan stops at the sentinel or earlier, at the right place |
| `QsortInsertion.InsertOne` | libc_harness/qsort.c:230-252 | one more element is in order, the front stays smallest, same elements |
| `QsortInsertion.ThreshPointer` | libc_harness/qsort.c:213-213 | for two elements and more at any address, the threshold pointer is that of element min(n - 1, MAX_THRESH) if and only if no address involved wraps around; otherwise it lies below the array |
| `QsortInsertion.RunPointer` | libc_harness/qsort.c:229-230 | the insertion scan starts at element 2, except behind a single element at the top of memory, where it starts below |
| `Qsort.QuicksortPhase` | libc_harness/qsort.c:105-200 | the main loop ends with cuts at most MAX_THRESH + 1 apart and the same elements; its stack never overflows |
| `Qsort.Partition` | libc_harness/qsort.c:125-168 | only the range changes, and it splits: lo <= right < left <= hi, left part no greater than right part |
| `Qsort.CollapseWalls` | libc_harness/qsort.c:137-168 | the do-while loop ends in such a split |
| `Qsort.WallRound` | libc_harness/qsort.c:143-168 | one round moves the walls closer, keeps mid at the pivot's value and the parts on their sides |
| `Qsort.ScanLeft` | libc_harness/qsort.c:145-146 | the scan stops inside the range, at an element no less than the pivot, having passed only strictly smaller ones |
| `Qsort.ScanRight` | libc_harness/qsort.c:148-149 | the mirror image |
| `Qsort.ExchangePair` | libc_harness/qsort.c:151-160 | the exchange keeps mid at the pivot's value when the pivot itself moves |
| `Qsort.MedianOfThree` | libc_harness/qsort.c:125-135 | first, middle and last are in order afterwards, all other elements unchanged |
| `Qsort.NextRange` | libc_harness/qsort.c:175-198 | which ranges remain, the larger one pushed and the smaller continued, in the real stack array and within its bounds |
| `Qsort.PtrDifference` | libc_harness/qsort.c:175-184 | the size_t differences do not wrap and compare with the threshold like element counts |
| `Qsort.DepthRoom` | libc_harness/qsort.c:61-64 | there is always room for one more push |
| `QsortPending.DepthPush` | libc_harness/qsort.c:187-198 | pushing the larger part keeps the bound: at depth d at most total_elems / 2^d elements |
| `QsortPending.DepthFits` | libc_harness/qsort.c:57-64 | so the depth stays below the number of bits in size_t |
| `QsortPending.Step` | libc_harness/qsort.c:114-200 | one partition keeps the phase's invariant: pending ranges lie between cuts and apart, and any MAX_THRESH + 2 neighbours are split by a cut or pending |
| `QsortPending.InvEnd` | libc_harness/qsort.c:202-206 | with nothing pending, elements more than MAX_THRESH apart are in order |
| `QsortBytes.SwapBytes` | libc_harness/qsort.c:31-43 | the bytewise loop exchanges two disjoint byte ranges and nothing else |
| `QsortBytes.SwapElements` | libc_harness/qsort.c:31-43 | which exchanges two whole elements |
| `QsortBytes.RotateBytes` | libc_harness/qsort.c:241-250 | the strided loops rotate each byte column by one element |
| `QsortBytes.RotateElements` | libc_harness/qsort.c:236-251 | which moves the element at run to tmp, shifts those between up by one and changes nothing else |

## Left out

- Floating point: the casts and comparisons of floats, and the float-to-integer bit cast, which does not register its result.
- Z3, QSYM, the Rust backend and LLVM itself: the solver is an abstract oracle, the IR a small language.
- Inline assembly, bit-count and overflow intrinsics, and instructions the pass does not know, which drop expressions without a constraint.
- Pointer/integer casts that change the width, which the source marks as unfinished.
- Widths of 256 bits and more, which the pass hands to builders in eight bits.
- Whole-aggregate loads and stores in SSA registers, whose byte order differs between load and store; `insertvalue` and `extractvalue` are covered by the laws of `Aggregates`.
- Calls, invokes and indirect branches inside the programs of `Ir`; calls are modelled between blocks in `Interprocedural`, and their protocol in `CallSlots`. Uninstrumented callees, whose results the code takes for concrete ones, are part of `CallSlots` only.
- Ordering comparisons of i1 values in the programs of `Ir`: the model treats them as a fault of the program; `PathSoundness.BooleanOrdering` says what the backend makes of them.
- 32-bit lengths of memcpy, memmove and memset in the programs of `Ir`: likewise a fault; `PathSoundness.PinSort` says what their concretisation is worth.
- Callbacks from uninstrumented into instrumented code, which the repository declares unsupported.
- runtime/LibcWrappers.cpp, except the effect of `read` on the symbolic input. A read gets as many bytes as are left; errors, and reads that return early although more input is there, are not modelled.
- libc_harness/bsearch.c and the Rust backend's handles: independent of everything modelled here.
- Garbage collection, configuration, statistics and process handling: bookkeeping around the modelled behaviour.
- PathSoundness.PathSound: requires that registers have widths which `createValueExpression` represents, that no executed truncation to i1 has a symbolic operand, and that index paths are ones that `GepExactness.GepExact` shows to be right. Accesses that wrap around the end of the address space are outside the model.
- PathSoundness.CmpPredicted: ordering comparisons of i1 values are a fault in the model.
- Divergence.RunOwn: assumes that a switch's case values have the type of its operand, as LLVM guarantees.
- CompiledRun.PassSimulatesIff: the function is in static single assignment form and well typed, as LLVM guarantees. Nothing is claimed after the program has faulted. That the concrete run is the same with and without inserted code is built into the model, since the instrumented step takes its concrete part from the concrete one. The arguments' expressions are given; calls between finished functions are represented by the instrumented execution of `Interprocedural`.
- SymbolizerPass.Symbolizer.Instrument: the block splitting that short-circuiting does in LLVM is represented by structured code.
- CallSlots.Slots.Execute: argument lists have at most 256 entries and a used result is one that the callee returns.
- QsortInsertion.Quicksort: the array and the address after it lie within memory, and it is smaller than 2^63 bytes, as C demands; without room behind one, three or four elements the code leaves the array, which is outside the model. The comparator is a function, so one with side effects or without a consistent order is not covered.
- Interprocedural.ModuleSound: call sites stand at the ends of blocks, argument lists have at most 256 entries, and every callee is a function of the module.
- RuntimeMemory.Memcpy: source and destination are equal or disjoint, as the intrinsic demands.
- RuntimeMemory.Memset: the value expression stands for one byte, as in the intrinsic; the wrapper in runtime/LibcWrappers.cpp passes a wider one.
