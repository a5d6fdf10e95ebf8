# Aseba compiler and device manager: a verified model

This project models the part of the Aseba suite that has to get bits right, and proves what it is
relied upon for.

**The AESL compiler**, from vector assignments to linked bytecode. Vector expressions are sized,
expanded to scalars (through a temporary where the assigned array appears on the right), type-checked
and optimized. Trees are then emitted as words of a stack machine, closed, checked for stack use and
linked behind a table of event addresses. The model gives scalar trees a sixteen-bit evaluator
(`Semantics`), gives the machine a step function with a bounded stack (`Machine`), and proves that
each pass preserves meaning. `VectorPipeline.VectorEventRuns` puts the chain together: an event of the
vector program, run by its own semantics, and the same event run by the machine on the linked program end
with the same memory and the same emitted events. `Expansion.AssignmentIsSimultaneous` says what vector
assignments mean, `Confinement.RunsConfined` that no run leaves its arrays, `ForLoop.ForRuns` what a `for`
loop does.

**The device manager and its messages**: fetching a node's description over lossy channels
(`Description`), the cache of a node's variables (`VariableCache`), guessing misspelled identifiers
(`EditDistance`), matching scratchpads to nodes (`Scratchpads`), turning an Intel HEX file into flash
pages (`HexFile`, `HexText`), and messages as bytes (`Utf8`, `Messages`).

How things are modelled:

- Trees are datatypes, and passes over trees are functions. Loops of the original, and objects
  whose fields change, are methods and classes, each proved equal to the function that the lemmas are about.
- Machine words are integers with explicit wrap-around. Constants fold at the width of `int`, the
  machine computes at sixteen bits, and the difference is stated (`OptimizerDomain`).
- An exception, a failed assertion, a failed cast and undefined behaviour are results of their own
  (`Err(...)`, `Abort`, `AssertFailed`, `Undefined`, `Fault`), so that their absence can be proved.
- Loops and calls are bounded by fuel; every theorem holds for all fuel, and `Semantics.MoreFuel` says that
  more of it changes nothing.
- A name ending in `Exact` states an if-and-only-if, or the whole result, without naming the function
  it is about; often the code does not do what one would expect. A `Counterexample` shows such a case.
- What the compiler accepts is stated as well as what it makes of it: `Typing`, `Acceptance`, `TupleIndexes`,
  `Rejections` and `StackUse` say exactly which programs pass each stage and which error stops the others.

Where code and comments disagree, the model follows the code: the comment of `assign_scratchpads` promises a first
match by node id, which can never match (`Scratchpads.FirstPassIsIdle`); the comment in `read_hex_file`
speaks of fusing at the head of a chunk, which leaves the chunk at its old address (`HexFile.AddExact`).

## Model

| member | source | states |
|---|---|---|
| `PowerOfTwo.IsPOTExact` | aseba/compiler/power-of-two.h:29-36 | exactly the powers of two are recognised, never a negative number, and the shift is then their exponent |
| `PowerOfTwo.ComputeIsPOT` | aseba/compiler/power-of-two.h:29-36 | the shifting loop ends and computes the recogniser |
| `PowerOfTwo.ComputeShiftFromPOT` | aseba/compiler/power-of-two.h:40-51 | the counting loop ends and computes the exponent |
| `Tree.ConditionKindFollows` | aseba/compiler/tree-typecheck.cpp:57-91 | the extra test on the node kind of a condition rejects nothing of boolean type |
| `Tree.WellTypedTypeChecks` | aseba/compiler/tree-typecheck.cpp:44-148 | typing that also visits array indexes implies that the compiler's own check passes |
| `Typing.TypeExact` | aseba/compiler/tree-typecheck.cpp:98-148 | an expression has a type if and only if every node the checker visits has operands of the kind it takes, truth values for and/or and `not`, numbers for all others |
| `Typing.TypeChecksExact` | aseba/compiler/tree-typecheck.cpp:44-97 | a statement passes the checker if and only if its conditions are such truth values and its assigned values such numbers |
| `Optimizer.OptimizeBlock` | aseba/compiler/tree-optimize.cpp:32-53 | the loop that replaces and erases children in place computes the list of statements that keep code |
| `OptimizerShape.DeMorganShape` | aseba/compiler/tree-optimize.cpp:371-393 | pushing a negation down never meets a failing cast on trees of comparisons under and/or, and leaves such a tree |
| `OptimizerShape.DeMorganExact` | aseba/compiler/tree-optimize.cpp:371-393 | pushing a negation down succeeds if and only if the tree consists of comparisons joined by and/or, and aborts on every other |
| `OptimizerShape.OptExprShape` | aseba/compiler/tree-optimize.cpp:215-436 | a well-typed expression never aborts the optimizer; a boolean one becomes a constant or comparisons under and/or, with no `not` left |
| `OptimizerShape.OptStmtShape` | aseba/compiler/tree-optimize.cpp:32-213 | a well-typed statement never aborts the optimizer and leaves trees that code generation accepts |
| `OptimizerShape.OptExprAbortExact` | aseba/compiler/tree-optimize.cpp:215-436 | whatever the expression, the optimizer aborts if and only if it comes to a `not` whose optimized operand is a binary node other than comparisons joined by and/or |
| `OptimizerShape.TypedNeverAborts` | aseba/compiler/tree-typecheck.cpp:98-148 | an expression the type checker accepts never aborts the optimizer, as long as no array index does on its own |
| `OptimizerShape.OptStmtAbortExact` | aseba/compiler/tree-optimize.cpp:32-213 | a statement the type checker accepts aborts the optimizer if and only if the optimizer comes to such a `not` in it |
| `OptimizerShape.PayloadAbortsOnly` | aseba/compiler/tree-optimize.cpp:197-205 | once the parser has let its indexes through, only the payload of an emit can abort the optimizer, and exactly for such a `not` in it |
| `OptimizerShape.UncheckedPayloadAborts` | aseba/compiler/tree-optimize.cpp:197-205 | `emit ev (not (b + c))` passes the type checker, which never looks at the payload, and aborts the optimizer |
| `Rejections.OptExprErrorExact` | aseba/compiler/tree-optimize.cpp:215-475 | whatever the expression and the error, the optimizer reports it if and only if it comes to a node that deserves it: a divisor folded to 0, `abs` of -32768, a constant index outside its array, a fold without a thirty-two-bit result, a misplaced `not` |
| `Rejections.OptStmtErrorExact` | aseba/compiler/tree-optimize.cpp:32-213 | the same for every statement, loops on a constant true condition included |
| `Rejections.OptStmtAcceptsExact` | aseba/compiler/tree-optimize.cpp:32-213 | the optimizer accepts a statement if and only if it comes to no such node |
| `Rejections.OptProgramErrorExact` | aseba/compiler/compiler.cpp:194-206 | the same for programs |
| `Rejections.NoFalseDivision` | aseba/compiler/tree-optimize.cpp:224-366 | an expression that can be evaluated, inside the optimizer's domain, is never rejected for a division by zero |
| `OptimizerNormal.OptExprSimplifies` | aseba/compiler/tree-optimize.cpp:215-475 | an optimized expression has nothing left to fold: no operation on constants, no neutral or absorbing operand, no factor or divisor that a shift replaces, no `not` over a binary node, no constant index |
| `OptimizerNormal.OptExprFixedExact` | aseba/compiler/tree-optimize.cpp:215-475 | the optimizer leaves an expression alone if and only if it is of this form, so that optimizing twice changes nothing more |
| `OptimizerNormal.OptStmtSimplifies` | aseba/compiler/tree-optimize.cpp:32-213 | an optimized statement has simplified expressions, folded conditions and no dead code |
| `OptimizerDomain.FoldAgrees` | aseba/compiler/tree-optimize.cpp:224-274 | constants folded at int width give the machine's sixteen-bit result, provided the operators that look at high bits are folded on constants they may be folded on; the lemmas below say that no others may |
| `OptimizerDomain.FoldUnaryAgrees` | aseba/compiler/tree-optimize.cpp:399-421 | the same for unary operators, `abs` on exactly the constants it may be folded on |
| `OptimizerDomain.AbsExact` | aseba/compiler/tree-optimize.cpp:405-412 | folding `abs` is right if and only if the constant and its word have the same sign, or the word is 0 or -32768 |
| `OptimizerDomain.ShiftRightExact` | aseba/compiler/tree-optimize.cpp:231-265 | shifting a folded constant right is right for every amount if and only if it fits sixteen bits |
| `OptimizerDomain.DividendExact` | aseba/compiler/tree-optimize.cpp:231-265 | a folded dividend gives right quotients for every divisor if and only if it fits sixteen bits |
| `OptimizerDomain.DivisorExact` | aseba/compiler/tree-optimize.cpp:231-265 | a folded divisor gives right quotients for every dividend if and only if it fits sixteen bits |
| `OptimizerDomain.ModDividendExact` | aseba/compiler/tree-optimize.cpp:231-265 | a folded dividend gives right remainders for every divisor if and only if it fits sixteen bits |
| `OptimizerDomain.ModDivisorExact` | aseba/compiler/tree-optimize.cpp:231-265 | a folded divisor gives right remainders for every dividend if and only if it fits sixteen bits or is 32768 |
| `OptimizerDomain.FoldedOperatorsCounterexample` | aseba/compiler/tree-optimize.cpp:231-265 | half, quotient, remainder and magnitude of `30000 + 30000` all differ between compiler and machine |
| `OptimizerDomain.FoldedComparisonExact` | aseba/compiler/tree-optimize.cpp:231-265 | a folded constant compares like the machine's value with everything if and only if it fits sixteen bits |
| `OptimizerDomain.FoldedComparisonCounterexample` | aseba/compiler/tree-optimize.cpp:231-265 | `30000 + 30000 > 0` folds to true where the machine finds false |
| `OptimizerDomain.ShiftDivisionExact` | aseba/compiler/tree-optimize.cpp:347-358 | division by a power of two may become a shift exactly for non-negative dividends or, below the sign bit, exact multiples |
| `OptimizerDomain.ShiftDivisionCounterexample` | aseba/compiler/tree-optimize.cpp:347-358 | minus three divided by two: -1 by division, -2 by shift |
| `OptimizerDomain.ShiftMultiplies` | aseba/compiler/tree-optimize.cpp:346-352 | multiplication by a power of two is the shift, at sixteen bits |
| `OptimizerDomain.ConstantWhenExact` | aseba/compiler/tree-optimize.cpp:91-107 | a `when` on a constant loses its edge trigger: right if and only if the constant is false, or it is never evaluated, or it is evaluated once and its condition counted as false before |
| `OptimizerCorrectness.DeMorganNegates` | aseba/compiler/tree-optimize.cpp:371-393 | removal of `not` negates the truth value and keeps faults |
| `OptimizerCorrectness.OptExprRefines` | aseba/compiler/tree-optimize.cpp:215-474 | folding, neutral and absorbing elements, shifts, `not` removal and static array reads keep the value of every expression that evaluates |
| `OptimizerCorrectness.OptTargetRefines` | aseba/compiler/tree-optimize.cpp:475-498 | an assignment target keeps the word it designates |
| `OptimizerCorrectness.OptStmtRefines` | aseba/compiler/tree-optimize.cpp:32-213 | a run that ends, with calls, loops and emitted events, is the same run after optimization and removal of dead code |
| `BranchWords.OptKeepsConditions` | aseba/compiler/tree-optimize.cpp:63-186 | an `if`, `when` or `while` that is not folded away keeps its edge flag, and its condition's operator, in order |
| `Bytecode.RewriteInPlace` | aseba/compiler/compiler.cpp:276-303 | the walk over instructions that rewrites first words in place computes the rewriting |
| `Bytecode.RewriteConcat` | aseba/compiler/compiler.cpp:276-303 | rewriting whole instructions is local to each piece of code |
| `Bytecode.GetTypeOfLast` | aseba/compiler/compiler.cpp:305-313 | the loop finds the opcode of the last whole instruction |
| `Bytecode.ResolvedCallExact` | aseba/compiler/compiler.cpp:276-287 | a patched call decodes to its address if and only if the address is below 4096 |
| `CodeGen.ForwardJumpExact` | aseba/compiler/tree-emit.cpp:180-197 | a forward jump decodes to its displacement if and only if it is a signed twelve-bit number |
| `CodeGen.BackwardJumpExact` | aseba/compiler/tree-emit.cpp:256-268 | the same for the jump back of a loop |
| `CodeGen.EmitLength` | aseba/compiler/tree-emit.cpp:134-269 | the size of code does not depend on where it goes or on call addresses |
| `CodeGen.StmtSizeExact` | aseba/compiler/tree-emit.cpp:20-46 | the exact number of words of a statement: one for a constant of twelve bits and two for others, two besides the index for an array access, two for a branch, one for each jump, three for an event |
| `BranchWords.StmtCarries` | aseba/compiler/tree-emit.cpp:134-269 | read as bits, the branch instructions of a statement's code carry, in order, the operators and edge flags of its conditions, `when` included |
| `CodeGen.ExprPeakBound` | aseba/compiler/tree-emit.cpp:324-352 | an expression uses at most the slots reported for it |
| `CodeGen.PeakBound` | aseba/compiler/tree-emit.cpp:83-88 | a statement uses at most the slots reported, plus one where an array is written under a computed index |
| `StackUse.StackDepthExact` | aseba/compiler/tree-emit.cpp:83-88 | the reported depth of a statement is the largest number of leaves of a condition, an assigned value or an index of an array write, an array read counting its index only |
| `ExprCode.ExprRuns` | aseba/compiler/tree-emit.cpp:317-386 | code of an expression pushes exactly its value, or faults when evaluation faults, within its slots |
| `StmtCode.StmtRuns` | aseba/compiler/tree-emit.cpp:91-313 | code of a statement reaches its end, or its return, with exactly the evaluator's memory and an unchanged stack, calls included, never out of stack |
| `StmtCode.DoneMayFall` | aseba/compiler/tree-emit.cpp:451-454 | a body that can run to its end is one the static test lets fall through |
| `FallThrough.StmtFalls` | aseba/compiler/tree-emit.cpp:91-313 | control can leave the emitted code of a statement at its end, by some chain of fall-throughs, jumps and branches, if and only if the static test on the tree lets it fall through |
| `FallThrough.StaysExact` | aseba/compiler/tree-emit.cpp:54-80 | control stays at the instructions of a piece of code for ever if and only if it can never leave it at its end |
| `Divergence.StmtDiverges` | aseba/compiler/tree-emit.cpp:91-313 | where the evaluator's run of a statement never ends, its code keeps the machine running for ever: no stop, fault, overflow or jump out |
| `Relocation.StmtRelocates` | aseba/compiler/tree-emit.cpp:91-313 | fixing up and resolving emitted code changes only the stops and the calls of the statement itself |
| `Relocation.ExprInert` | aseba/compiler/tree-emit.cpp:317-386 | no word of an expression's code is ever taken for a stop or a call |
| `StackCheck.VerifyStackCalls` | aseba/compiler/analysis.cpp:30-97 | the check terminates, recursion or not, and rejects if and only if an event, or a call chain counted from an event or from any subroutine, exceeds the stack; it leaves settled depths |
| `StackCheck.RaiseCalls` | aseba/compiler/analysis.cpp:70-91 | one walk over a segment raises the depth of exactly the subroutines it calls |
| `StackCheck.CheckEvents` | aseba/compiler/analysis.cpp:33-58 | the loop over events rejects exactly on an oversized event and seeds the depths |
| `StackCheck.CheckSubroutines` | aseba/compiler/analysis.cpp:61-94 | one pass over subroutines keeps all depths attained and makes progress or settles |
| `StackCheck.SettledIsSafe` | aseba/compiler/analysis.cpp:60-96 | settled depths bound every call chain of any length |
| `StackCheck.RecursionOverflows` | aseba/compiler/analysis.cpp:60-96 | a subroutine that calls itself is rejected for every stack size |
| `PreLink.EmitProgramSegments` | aseba/compiler/tree-emit.cpp:91-118 | there is one segment per declaration and the initial one, each with the code of exactly its own statements and their largest depth |
| `PreLink.PreLinkBytecode.Emit` | aseba/compiler/tree-emit.cpp:96-118 | the loop over the program's children fills the segments accordingly |
| `PreLink.PreLinkBytecode.Fixup` | aseba/compiler/tree-emit.cpp:54-80 | empty events go, events end in STOP, stops in subroutines become returns, and a return is added unless the last instruction is one |
| `BranchWords.SegmentCarries` | aseba/compiler/tree-emit.cpp:54-80 | the finished segments of a program carry the conditions of their own statements |
| `StackUse.SegmentDepthExact` | aseba/compiler/tree-emit.cpp:91-118 | the depth the stack check reads off a segment is that of its own statements |
| `Linker.Link` | aseba/compiler/compiler.cpp:251-291 | the loops lay out table, events and subroutines, note addresses and resolve calls; false exactly when the program is too large |
| `Linker.PrefixExact` | aseba/compiler/compiler.cpp:276-287 | words in front of code are left alone, and the code resolved on its own, if and only if they read as whole instructions without a call |
| `Linker.TableExact` | aseba/compiler/compiler.cpp:256-287 | hence the vector table is not mistaken for code if and only if its ids and addresses read that way |
| `Linker.SmallTableInert` | aseba/compiler/compiler.cpp:256-287 | with the ids the compiler gives out they do as long as the events end by word 8192 |
| `Linker.LinkedLayout` | aseba/compiler/compiler.cpp:251-291 | behind a table that reads that way, whatever the size, every segment has exactly its calls resolved, and table and operands are untouched |
| `Linker.LinkedEvent` | aseba/compiler/compiler.cpp:251-291 | each event stands at the address its table entry gives |
| `Linker.LinkedSub` | aseba/compiler/compiler.cpp:251-291 | each subroutine stands at the address its calls are resolved to |
| `Linker.GetEventAddressesToIds` | aseba/compiler/compiler.cpp:316-325 | the loop over the table computes the map of addresses to ids |
| `Linker.EventTableReadsBack` | aseba/compiler/compiler.cpp:316-325 | read back from a linked program with sixteen-bit event addresses, such a table has, behind its size, the id and the start of each event, and gives each event's id at its own start and no other address |
| `Linker.OversizedProgramCounterexample` | aseba/compiler/compiler.cpp:276-287 | with an event of 8187 words the walk takes a table word for an instruction and leaves a call unresolved |
| `Compiler.CompiledEventRuns` | aseba/compiler/compiler.cpp:133-239 | in a program that was emitted, fixed up, checked and linked, an event runs from its table address to a halt, or to a fault, as the trees of the event and of the subroutines it can call do, on the stack it was checked for (one slot more with array writes) |
| `Compiler.CompiledEventEnds` | aseba/compiler/compiler.cpp:133-239 | such an event stops on the machine if and only if the evaluator's run of its trees ends |
| `Driver.GenerateCode` | aseba/compiler/compiler.cpp:222-239 | emit, fixup, stack check and link in order: rejected exactly for an overflowing call chain or for size, `when` included; an accepted addressable program is one `Compiler.CompiledEventRuns` speaks about |
| `Driver.SmallIsAddressable` | aseba/compiler/compiler.cpp:251-291 | every program of at most 4096 words is addressable: table not mistaken for code, called subroutines within reach of a call |
| `Driver.SomeProgramCompiles` | aseba/compiler/compiler.cpp:222-239 | these conditions can be met |
| `Pipeline.OptProgramShape` | aseba/compiler/compiler.cpp:133-239 | optimizing a typed program never aborts and leaves only trees that can be emitted |
| `Pipeline.OptKeeps` | aseba/compiler/tree-optimize.cpp:32-213 | optimization adds no call and no `when` |
| `Pipeline.SourceEventRuns` | aseba/compiler/compiler.cpp:133-239 | from typed scalar source to machine: if an event ends in the evaluator, the machine halts with the same memory and emitted events; only the subroutines the event can call matter |
| `ControlFlow.StmtContained` | aseba/compiler/tree-emit.cpp:134-269 | every fall-through, jump and branch of emitted code ends at one of its instructions or at its end |
| `ControlFlow.ClosedSegment` | aseba/compiler/tree-emit.cpp:54-80 | code with its closing word is closed: every move stays at an instruction inside, and only STOP (RET in a subroutine) leaves |
| `Driver.SegmentsClosed` | aseba/compiler/tree-emit.cpp:54-80 | every event segment that fixup leaves is closed, and every subroutine that got a closing word |
| `BackEndLimits.SubFallsExact` | aseba/compiler/tree-emit.cpp:70-79 | control can leave the finished code of a subroutine at its end if and only if it got no closing word, its last instruction being a return, although the tree may fall through |
| `BackEndLimits.SegmentFallsExact` | aseba/compiler/tree-emit.cpp:54-80 | the same for every segment of a program: events never, subroutines exactly under this condition |
| `BackEndLimits.SegmentStaysExact` | aseba/compiler/tree-emit.cpp:54-80 | control stays in the segment it starts in for every event, and for a subroutine if and only if it has its closing word where the tree may fall through |
| `BackEndLimits.ExprOverflows` | aseba/compiler/tree-emit.cpp:324-352 | with one slot less than computed an expression overflows the stack, so the computed use is exact |
| `BackEndLimits.AssignmentStackExact` | aseba/compiler/tree-emit.cpp:120-126 | an assignment halts with the new memory if and only if its true need fits the stack, and overflows if and only if it does not |
| `BackEndLimits.ReportedDepthExact` | aseba/compiler/tree-emit.cpp:83-88 | the reported depth suffices for an assignment if and only if the index of an array write needs fewer slots than are reported |
| `BackEndLimits.ArrayWriteCounterexample` | aseba/compiler/tree-emit.cpp:361-372 | `a[x] = 1` is reported to need one slot and overflows a stack of one |
| `BackEndLimits.ProgramFallsOff` | aseba/compiler/tree-emit.cpp:70-79 | in a linked program, each run of a subroutine without closing word that comes to the end of its tree goes on behind its segment, with the evaluator's memory |
| `BackEndLimits.GuardedReturn` | aseba/compiler/compiler.cpp:305-313 | whatever the condition, a guarded return at the end of a subroutine counts as its return |
| `BackEndLimits.FallOffCounterexample` | aseba/compiler/tree-emit.cpp:70-79 | `sub f if a == b then return end`, called with a and b different, neither returns nor stops: the machine runs off the program |
| `VectorTree.FindElement` | aseba/compiler/tree-expand.cpp:250-268 | the loop over the children of a tuple finds the scalar of element i |
| `VectorTree.SizeIsLength` | aseba/compiler/tree-expand.cpp:422-499 | the computed size is the number of elements of the value |
| `VectorTree.SizeNoAssert` | aseba/compiler/tree-expand.cpp:422-499 | computing a size reaches no assertion on trees the parser builds with constant tuple indexes |
| `VectorTree.ExpandMeaning` | aseba/compiler/tree-expand.cpp:250-315 | the scalar for element i reaches no assertion and means element i of the vector |
| `Expansion.ExpandElements` | aseba/compiler/tree-expand.cpp:237-246 | the loop builds one scalar assignment per element |
| `Expansion.AssignmentIsSimultaneous` | aseba/compiler/tree-expand.cpp:207-247 | run in order, the scalar assignments write all elements as they were before, self-reference included, in every word outside a temporary that meets no variable; a fault exactly when an element faults |
| `Expansion.ComputedAssignment` | aseba/compiler/tree-expand.cpp:207-307 | under a computed index value and index are both read before the one write |
| `Expansion.ExpansionIsTotal` | aseba/compiler/tree-expand.cpp:207-315 | expanding a size-checked assignment with constant tuples as indexes reaches no assertion |
| `Acceptance.SizeOkExact` | aseba/compiler/tree-expand.cpp:408-499 | the size check passes if and only if all slices end inside their arrays and all operands have values of the same length |
| `Acceptance.SizeErrorExact` | aseba/compiler/tree-expand.cpp:408-499 | it reports a slice past the end, or operands of different length, if and only if it comes to one |
| `Acceptance.ExpandOkExact` | aseba/compiler/tree-expand.cpp:250-307 | an element expands if and only if the static accesses it needs lie inside their arrays |
| `Acceptance.LeftValueExact` | aseba/compiler/tree-expand.cpp:207-213 | an assignment is rejected for its left side if and only if this is not a variable |
| `Acceptance.AssignmentAccepted` | aseba/compiler/tree-expand.cpp:207-247 | a size-checked assignment is accepted if and only if all static accesses on both sides lie inside their arrays and its temporary, needed exactly when the assigned array of several words is read, fits; it takes exactly the words of that temporary |
| `Acceptance.ProgramAcceptedExact` | aseba/compiler/tree-expand.cpp:188-247 | the same for programs, all temporaries together |
| `TupleIndexes.SizeAssertExact` | aseba/compiler/tree-expand.cpp:408-499 | whatever the tree, computing its size fails an assertion if and only if it comes to a slice whose bounds are not constant before another error |
| `TupleIndexes.ElementAssertExact` | aseba/compiler/tree-expand.cpp:250-315 | expanding an element fails an assertion if and only if it comes to a tuple as index that is not constant before another error |
| `TupleIndexes.TupleIndexExact` | aseba/compiler/tree-expand.cpp:207-338 | the same for the size check and the expansion of a whole assignment, temporary included |
| `TupleIndexes.TupleIndexCounterexample` | aseba/compiler/tree-expand.cpp:271-307 | `v = a[[x]] + 1` passes the size check and then fails an assertion |
| `Expansion.MakeOnes` | aseba/compiler/tree-expand.cpp:88-117 | the loop builds as many ones as the variable has words |
| `Expansion.OpAssignmentRuns` | aseba/compiler/tree-expand.cpp:120-140 | `v op= e` is the simultaneous assignment of each word of v combined with its element, both as they were before, in every word outside the temporary; a fault exactly when a combination faults |
| `Expansion.IncrementRuns` | aseba/compiler/tree-expand.cpp:88-117 | `v++` and `v--` never fault, change each word by one at sixteen bits, and leave every other word outside the temporary alone |
| `VectorProgram.ExpansionRefines` | aseba/compiler/tree-expand.cpp:188-315 | whole vector programs, with conditions, loops, calls and computed payloads of events: the expanded scalar program ends, faults or goes on like the vector program run without any temporary, with the same events and the same memory outside the words kept for temporaries |
| `BranchWords.ExpandKeepsEdges` | aseba/compiler/tree-expand.cpp:188-205 | expansion keeps the edge flags of all conditions, in order |
| `VectorPipeline.EventExpands` | aseba/compiler/compiler.cpp:133-187 | expanding a program statement by statement, with the memory for temporaries passed on, keeps the run of every event |
| `VectorPipeline.VectorEventRuns` | aseba/compiler/compiler.cpp:133-239 | from vector source to machine: if an event ends in the vector semantics, the expanded, optimized, emitted, checked and linked program halts, started at the event's table entry, with the same events and the same memory outside the words kept for temporaries |
| `Allocator.DoKeepsSound` | aseba/compiler/parser.cpp:213-228 | declarations, allocations and releases keep variables and temporaries apart |
| `Allocator.RunIsSound` | aseba/compiler/parser.cpp:213-381 | after any accepted sequence of them on any target, whatever an earlier compilation left in the count of temporary words, this holds |
| `Allocator.SoundIsDisjoint` | aseba/compiler/parser.cpp:217-228 | named variables are pairwise disjoint below the free index, temporaries disjoint above it and inside memory |
| `Allocator.DeclarationsExact` | aseba/compiler/parser.cpp:329-381 | a list of declarations is accepted if and only if its names are new and distinct, no size is zero, and all of it fits into the words left |
| `Allocator.DeclarationsPlaced` | aseba/compiler/parser.cpp:329-381 | each declared variable lies right behind the ones before it, and earlier ones stay |
| `Allocator.TargetIsSound` | aseba/common/msg/TargetDescription.cpp:49-57 | the target's own variables are apart from each other |
| `Allocator.TargetPlaced` | aseba/common/msg/TargetDescription.cpp:49-57 | they lie one right after the other |
| `Allocator.VariableSpace.BuildMaps` | aseba/compiler/identifier-lookup.cpp:175-185 | the loop over the target's variables computes this layout; the count of temporary words stays as it was |
| `Allocator.VariableSpace.ParseVarDef` | aseba/compiler/parser.cpp:329-381 | a declaration gets its declared size or that of its initial value and is placed at the free index, or is rejected for the first reason that applies |
| `Allocator.VariableSpace.AllocateTemporaryMemory` | aseba/compiler/parser.cpp:217-228 | a temporary lies at the end of memory above all variables, or there is not enough space |
| `Allocator.VariableSpace.FreeTemporaryMemory` | aseba/compiler/parser.cpp:213-215 | all temporaries go at once |
| `Confinement.AssignmentConfined` | aseba/compiler/tree-expand.cpp:271-307 | every static address of an expanded assignment lies inside an array of the program, every dynamic access names a whole one |
| `Confinement.OptStmtConfined` | aseba/compiler/tree-optimize.cpp:450-498 | optimization turns constant indexes into words of the same arrays and invents no access |
| `Confinement.RunsConfined` | aseba/compiler/tree-expand.cpp:271-307 | over any run, calls and loops included, a program whose assignments are to its arrays leaves all other words alone |
| `Confinement.OptimizedRunConfined` | aseba/compiler/tree-optimize.cpp:450-498 | a confined statement, optimized and run with confined subroutines, changes no word outside its arrays |
| `Confinement.CompiledAssignmentConfined` | aseba/compiler/tree-expand.cpp:207-307 | a vector assignment, expanded, optimized and run, changes no word outside the variables and its temporary |
| `ForLoop.DesugarExact` | aseba/compiler/parser.cpp:532-556 | a loop is accepted if and only if it has a step, at least one value, and some sixteen-bit number lies past its end |
| `ForLoop.SingleValue` | aseba/compiler/parser.cpp:562-568 | with equal bounds the body runs once and the variable keeps the bound |
| `ForLoop.ValuesCount` | aseba/compiler/parser.cpp:535-556 | there are floor((b - a) / s) + 1 values, and the next one is the first past the end |
| `ForLoop.ValueAt` | aseba/compiler/parser.cpp:593-596 | they are a, a + s, a + 2s and so on, none past the end |
| `ForLoop.ForRuns` | aseba/compiler/parser.cpp:557-597 | with a body that leaves the variable alone, the loop runs it once for each value in order, and ends if and only if these runs do |
| `ForLoop.EnoughRoom` | aseba/compiler/parser.cpp:545-555 | for that it is enough that b + s fits sixteen bits |
| `ForLoop.ForExact` | aseba/compiler/parser.cpp:545-555 | the loop runs the body for exactly these values if and only if the first value past the end fits sixteen bits |
| `ForLoop.ForCounterexample` | aseba/compiler/parser.cpp:545-555 | `for i in 0:32766 step 2` is accepted and never ends |
| `Description.Receiver.HandleDescriptionMessage` | aseba/thymio-device-manager/aseba_node.cpp:951-998 | a message updates lists and counters, and sends the next request unless the description is complete |
| `Description.Receiver.RequestNextDescriptionFragment` | aseba/thymio-device-manager/aseba_node.cpp:1000-1007 | the request is for the fragment after those stored, or for the description itself |
| `Description.StepSafe` | aseba/thymio-device-manager/aseba_node.cpp:951-1018 | retransmissions, deliveries and losses keep the invariant and nothing stored is lost; a repeated description arrives only before any entry is stored |
| `Description.RunIsSafe` | aseba/thymio-device-manager/aseba_node.cpp:951-1018 | in every reachable state the stored entries are a prefix of the device's fragments, in order, everything else blank, and only the last and the next fragment are in flight |
| `Description.ReadyIsComplete` | aseba/thymio-device-manager/aseba_node.cpp:990-997 | a node is ready exactly when every fragment is stored, and then holds the device's whole description |
| `Description.CanComplete` | aseba/thymio-device-manager/aseba_node.cpp:951-1018 | with distinct, non-empty names per kind, from every reachable state some steps without loss complete the transfer |
| `Description.LosslessIsLive` | aseba/thymio-device-manager/aseba_node.cpp:951-1018 | as long as nothing is lost, a node that is not ready has the request or the reply for its next fragment on its way |
| `Description.RunsByItself` | aseba/thymio-device-manager/aseba_node.cpp:951-1018 | from the first request on, with nothing lost and no timer, the transfer takes exactly two steps for the description and for each fragment, never stops before, and ends with a ready node and nothing in flight |
| `Description.ReadyReachableExact` | aseba/thymio-device-manager/aseba_node.cpp:955-964 | a device can be described at all if and only if the names of each kind are non-empty and distinct |
| `VariableCache.RequestVariables` | aseba/thymio-device-manager/aseba_node.cpp:693-705 | the loop computes the areas to ask for, with sixteen-bit starts |
| `VariableCache.SentWhole` | aseba/thymio-device-manager/aseba_node.cpp:693-705 | in a memory of sixteen-bit addresses no start is cut off |
| `VariableCache.RequestsTile` | aseba/thymio-device-manager/aseba_node.cpp:693-705 | the areas tile the memory without gap or overlap |
| `VariableCache.RequestsFit` | aseba/thymio-device-manager/aseba_node.cpp:693-705 | every area has at most 256 words if and only if every variable does |
| `VariableCache.RequestsAtBoundaries` | aseba/thymio-device-manager/aseba_node.cpp:693-705 | areas are cut at variable boundaries |
| `VariableCache.RequestsAreFull` | aseba/thymio-device-manager/aseba_node.cpp:693-705 | no area is cut short without need: with the variable the next one starts with it would have more than 256 words |
| `VariableCache.Cache.SetVariables` | aseba/thymio-device-manager/aseba_node.cpp:758-789 | a piece of memory is copied into exactly the variables it covers, up to the first word that belongs to none; exactly those that change or had no value are reported, with their new value |
| `VariableCache.ContiguousReach` | aseba/thymio-device-manager/aseba_node.cpp:758-767 | without gaps between the variables no word of a piece is lost |
| `VariableCache.Refresh` | aseba/thymio-device-manager/aseba_node.cpp:768-785 | one variable: the new value, and whether it is reported |
| `VariableCache.RepliesSync` | aseba/thymio-device-manager/aseba_node.cpp:684-789 | the replies to all requests, in any order and with repetitions, make every variable equal to the node's memory |
| `VariableCache.PartialPieceCounterexample` | aseba/thymio-device-manager/aseba_node.cpp:770-771 | a piece that covers a variable without value in part makes up zeros for the rest |
| `VariableCache.PieceSyncExact` | aseba/thymio-device-manager/aseba_node.cpp:769-780 | a piece leaves a variable it touches equal to memory if and only if the words outside the piece already were, a missing word counting as 0 |
| `VariableCache.FirstPieceSyncExact` | aseba/thymio-device-manager/aseba_node.cpp:769-780 | for a variable without a value: if and only if the piece covers it or all words outside the piece are 0 |
| `VariableCache.TwoPiecesExact` | aseba/thymio-device-manager/aseba_node.cpp:749-756 | one report for two pieces has the final values if and only if no variable is changed by both |
| `VariableCache.Cache.ResetKnownVariables` | aseba/thymio-device-manager/aseba_node.cpp:711-735 | variables of a new description end up by address, one per address, and the names that disappear are known; of several at one address it is the first |
| `VariableCache.ResetGivesLayout` | aseba/thymio-device-manager/aseba_node.cpp:719-731 | in whatever order they come, they end up in the order of the description |
| `VariableCache.ResetKeepsAllExact` | aseba/thymio-device-manager/aseba_node.cpp:726-730 | no variable is dropped if and only if none but the last is empty |
| `VariableCache.ResetIsLaid` | aseba/thymio-device-manager/aseba_node.cpp:711-735 | whatever was dropped, the variables kept have distinct names and follow each other in memory |
| `EditDistance.EditDistance` | aseba/compiler/identifier-lookup.cpp:69-94 | the two-row dynamic program computes the recursive distance for all pairs of words |
| `EditDistance.FillRow` | aseba/compiler/identifier-lookup.cpp:86-90 | one row of it, in place |
| `EditDistance.EditsBound` | aseba/compiler/identifier-lookup.cpp:67-94 | no sequence of single-character edits is shorter than the distance |
| `EditDistance.EditsExist` | aseba/compiler/identifier-lookup.cpp:67-94 | a sequence of as many edits exists |
| `EditDistance.FindInTable` | aseba/compiler/identifier-lookup.cpp:96-120 | a guess is the first key at minimal distance, below 3; there is none if and only if no key is that close |
| `Scratchpads.Group.SetNodeScratchpad` | aseba/thymio-device-manager/group.cpp:199-206 | the text goes to the node's pad, created if missing |
| `Scratchpads.SetTextKeeps` | aseba/thymio-device-manager/group.cpp:245-254 | then every pad of the node has the text, one is added only if there was none, all others stay as they were, and no node is shared |
| `Scratchpads.Group.FindOrCreateScratchPad` | aseba/thymio-device-manager/group.cpp:222-243 | the first pad that suits by node, preferred node, Aseba id or name, or a new one |
| `Scratchpads.Group.LoadAesl` | aseba/thymio-device-manager/group.cpp:173-194 | all pads are replaced by those of the file and then assigned, with the signals of that assignment |
| `Scratchpads.Group.AssignBy` | aseba/thymio-device-manager/group.cpp:287-296 | the loop of one matching pass |
| `Scratchpads.Group.DropDisconnected` | aseba/thymio-device-manager/group.cpp:269-274 | pads of nodes that are gone lose them |
| `Scratchpads.Group.AssignRemaining` | aseba/thymio-device-manager/group.cpp:302-308 | pads left get any free node; it ends early exactly if some pad stays without |
| `Scratchpads.Group.AssignScratchpads` | aseba/thymio-device-manager/group.cpp:256-314 | all passes together; changes are signalled only if every pad got a node |
| `Scratchpads.FirstPassIsIdle` | aseba/thymio-device-manager/group.cpp:298 | matching by node id never changes anything |
| `Scratchpads.PassKeeps` | aseba/thymio-device-manager/group.cpp:287-296 | a pass gives free nodes only, only to pads that suit them, and takes none away |
| `Scratchpads.PassIsMaximal` | aseba/thymio-device-manager/group.cpp:287-296 | after a pass no pad is left that suits a node left |
| `Scratchpads.AssignIsSound` | aseba/thymio-device-manager/group.cpp:256-314 | no node is shared, only connected ones are given, exactly min(pads, nodes) pads have one, and a pad keeps a node that is still connected |
| `ScratchpadOrder.PassExact` | aseba/thymio-device-manager/group.cpp:287-300 | a pass gives the nodes that suit a pad, in their order, to the pads that wait for them, in theirs, and changes nothing else |
| `ScratchpadOrder.FillExact` | aseba/thymio-device-manager/group.cpp:302-308 | the pads left get the nodes left, both in order |
| `ScratchpadOrder.IdComesFirst` | aseba/thymio-device-manager/group.cpp:256-300 | a pad without a connected node gets one with its Aseba id, unless each of these stays where it is or goes to another pad with this id |
| `ScratchpadOrder.NameComesSecond` | aseba/thymio-device-manager/group.cpp:256-300 | the same for names, after the ids |
| `ScratchpadOrder.LoadKeepsTextsExact` | aseba/thymio-device-manager/group.cpp:173-243 | each entry of a file gets a pad of its own, with its text, if and only if no entry shares the name, Aseba id or node of an earlier one |
| `Scratchpads.RunIsSound` | aseba/thymio-device-manager/group.cpp:173-314 | over every run of edits, loads and reassignments no two pads share a node, and every assignment leaves exactly min(pads, nodes) assigned |
| `HexFile.ChecksumExact` | aseba/thymio-device-manager/thymio2_fwupgrade.cpp:67-71 | a checksum is accepted if and only if all bytes of the record add up to a multiple of 256 |
| `HexFile.AddRecord` | aseba/thymio-device-manager/thymio2_fwupgrade.cpp:78-101 | the loop finds the first chunk to fuse with, or inserts a new one |
| `HexFile.ReadHexFile` | aseba/thymio-device-manager/thymio2_fwupgrade.cpp:35-179 | records give chunks or the first error, with segment and linear base addresses |
| `HexFile.AddressedExact` | aseba/thymio-device-manager/thymio2_fwupgrade.cpp:35-179 | records are read up to the end of file record or the first bad one, whose error is exact; each data record lies at its low address plus sixteen times the segment, or 65536 times the upper half, of the last address record before it |
| `HexFile.AddExact` | aseba/thymio-device-manager/thymio2_fwupgrade.cpp:78-101 | a record that overlaps nothing ends up at its address, and moves nothing, if and only if it is not put in front of a chunk |
| `HexFile.SameStartReplaces` | aseba/thymio-device-manager/thymio2_fwupgrade.cpp:78-101 | a record at the start of a chunk that it does not touch takes the place of the whole chunk |
| `HexFile.FinishedExact` | aseba/thymio-device-manager/thymio2_fwupgrade.cpp:35-179 | the finished chunks are the byte image of the records if and only if no record has its next byte, but not its previous one, written before it |
| `HexFile.AscendingNeverPrepends` | aseba/thymio-device-manager/thymio2_fwupgrade.cpp:78-101 | ascending records are never put in front of a chunk |
| `HexFile.PrependCounterexample` | aseba/thymio-device-manager/thymio2_fwupgrade.cpp:88-97 | of two descending records the second is lost and the first moves |
| `HexFile.CopyPart` | aseba/thymio-device-manager/thymio2_fwupgrade.cpp:198-209 | one part of a chunk lands in its page, new pages are zero elsewhere |
| `HexFile.CopyChunk` | aseba/thymio-device-manager/thymio2_fwupgrade.cpp:192-213 | the loop copies a whole chunk across pages |
| `HexFile.ExtractPages` | aseba/thymio-device-manager/thymio2_fwupgrade.cpp:187-215 | pages have 2048 bytes, byte x is at x % 2048 of page x / 2048, others are 0, and only touched pages exist |
| `HexFile.ExtractPagesFromHex` | aseba/thymio-device-manager/thymio2_fwupgrade.cpp:182-217 | from records that do not overlap, the pages are the byte image of the records if none is prepended, and only then as long as no record starts with a 0; errors are those of the records |
| `HexFile.ZeroBytesCounterexample` | aseba/thymio-device-manager/thymio2_fwupgrade.cpp:88-97 | two zero bytes in descending order are moved, and the pages are right all the same |
| `HexText.ReadHexText` | aseba/thymio-device-manager/thymio2_fwupgrade.cpp:25-180 | the loop over the characters, whatever they are, with the arithmetic of the digit readers and the end of input noticed after a record |
| `HexText.ReadPrinted` | aseba/thymio-device-manager/thymio2_fwupgrade.cpp:7-180 | a text of records, in digits of either case and with any white space, says what the records say and fails where they fail |
| `HexText.JunkRejected` | aseba/thymio-device-manager/thymio2_fwupgrade.cpp:35-48 | where a record should start, a character other than a colon or white space ends the reading with an error |
| `HexText.PrintReadsBack` | aseba/thymio-device-manager/thymio2_fwupgrade.cpp:7-180 | every list of records has a text that reads back |
| `HexText.ExtractPagesFromText` | aseba/thymio-device-manager/thymio2_fwupgrade.cpp:182-217 | the pages of a text are those of the records it prints |
| `Utf8.WStringToUTF8` | aseba/common/utils/utils.cpp:154-172 | the loop encodes character by character |
| `Utf8.UTF8ToWString` | aseba/common/utils/utils.cpp:226-258 | the loop, with its own count of what is left, computes the decoding |
| `Utf8.EncodeCharExact` | aseba/common/utils/utils.cpp:154-172 | characters take one, two or three bytes by their number of bits, with the lead bytes and payload bits of UTF-8, and from 0xD800 on a question mark |
| `Utf8.DecodeExact` | aseba/common/utils/utils.cpp:226-258 | any bytes decode to the characters they start, up to the first cut that the decoder's count of what is left shows, or a read past the end |
| `Utf8.DecodeEncode` | aseba/common/utils/utils.cpp:154-258 | decoding an encoded string never fails and shows characters from 0xD800 on as question marks |
| `Utf8.RoundTripExact` | aseba/common/utils/utils.cpp:154-258 | a string comes back unchanged if and only if all its characters are below 0xD800 |
| `Messages.SerializationBuffer.AddWord` | aseba/common/msg/msg.cpp:202-211 | a word is appended low byte first |
| `Messages.SerializationBuffer.AddString` | aseba/common/msg/msg.cpp:213-227 | a string goes behind its length, unless longer than 255 bytes |
| `Messages.SerializationBuffer.TakeWord` | aseba/common/msg/msg.cpp:229-246 | the next word is read, or reading fails past the end |
| `Messages.SerializationBuffer.TakeString` | aseba/common/msg/msg.cpp:248-256 | the next string is read, or reading fails |
| `Messages.SerializationBuffer.AddSetBytecode` | aseba/common/msg/msg.cpp:915-921 | destination, start and all words of code are appended |
| `Messages.SerializationBuffer.TakeSetBytecode` | aseba/common/msg/msg.cpp:923-930 | they are read back, or there is no message on overread or leftover bytes |
| `Messages.SetBytecodeBack` | aseba/common/msg/msg.cpp:915-930 | every such message survives serialization |
| `Messages.SetBytecodeForth` | aseba/common/msg/msg.cpp:148-173 | bytes make a message exactly when at least four and even in number, and are then the bytes of that message |
| `Messages.SetBytecodeBytes` | aseba/common/msg/msg.cpp:915-921 | destination, start and words stand in this order, low bytes first |
| `Messages.SendBytecode` | aseba/common/msg/msg.cpp:968-991 | the loop cuts code into pieces |
| `Messages.PiecesConcatenate` | aseba/common/msg/msg.cpp:968-991 | pieces have at most 256 words and concatenate to the code |
| `Messages.PieceAt` | aseba/common/msg/msg.cpp:968-991 | piece i starts at word 256 * i, cut to sixteen bits, and holds the code from there |
| `Messages.UploadInstalls` | aseba/common/msg/msg.cpp:915-991 | serialized, read back and written in any order with repetitions, the pieces put the code at the start of memory and leave the rest alone |
| `Messages.StartWraps` | aseba/common/msg/msg.cpp:968-991 | beyond 65536 words the piece at 65536 claims to start at 0 |
| `Messages.StartsExact` | aseba/common/msg/msg.cpp:915-991 | every piece claims the start where it belongs if and only if the code has at most 65536 words |
| `Messages.SerializationBuffer.AddFunction` | aseba/common/msg/msg.cpp:599-608 | a native function description is appended, or a string is too long |
| `Messages.SerializationBuffer.TakeFunction` | aseba/common/msg/msg.cpp:610-619 | it is read back, or there is no message |
| `Messages.FunctionBack` | aseba/common/msg/msg.cpp:599-619 | whatever serializes comes back with all bytes consumed, characters shown as far as the encoder has them; with more bytes behind it there is no message |
| `Messages.FunctionAcceptedExact` | aseba/common/msg/msg.cpp:599-608 | a description can be serialized if and only if none of its texts takes more than 255 bytes |
| `Messages.FunctionBytes` | aseba/common/msg/msg.cpp:599-608 | name, description, number of parameters, and sizes and names of the parameters stand in this order |
| `Messages.FunctionRoundTripExact` | aseba/common/msg/msg.cpp:599-619 | a description within its field limits comes back unchanged if and only if all characters are below 0xD800 |

## Left out

- Lexing, parsing beyond declarations, allocation and `for`, error texts, dumps and the disassembler: text processing without a deep property; models start from trees.
- Native function calls and their arguments (`CallNode`, `LoadNativeArgNode`): their run-time behaviour is in firmware that is not part of this model.
- `Pipeline.SourceEventRuns`: does not cover the edge state of `when`, which the machine keeps in the instruction word by rules of firmware that is not part of this model; an event that can come to a `when`, in itself or in a subroutine, is outside, and `OptimizerDomain.ConstantWhenExact` says what goes wrong with a constant one. The same holds of `VectorPipeline.VectorEventRuns`, `Compiler.CompiledEventRuns`, `StmtCode.StmtRuns` and `OptimizerCorrectness.OptStmtRefines`. Emission, relocation, stack check, linking and containment cover `when`.
- `OptimizerCorrectness.OptStmtRefines`: requires that width-sensitive operators are folded on constants they may be folded on, and that dividends of divisions turned into shifts are exact or non-negative. On other constants the fold is wrong for some other operand (`OptimizerDomain.AbsExact`, `ShiftRightExact`, `DividendExact`, `DivisorExact`, `ModDividendExact`, `ModDivisorExact`, `FoldedComparisonExact`, `ShiftDivisionExact`); that a particular pair of constants happens to agree is not taken into account.
- `Compiler.CompiledEventRuns`: requires displacements and addresses that fit their fields, a table that is not mistaken for code and, of the subroutines the event can call, that none falls off its end, because the claim is false otherwise (`CodeGen.ForwardJumpExact`, `Bytecode.ResolvedCallExact`, `Linker.TableExact`, `BackEndLimits.SegmentFallsExact`).
- `Expansion.AssignmentIsSimultaneous`: the temporary is an array of its own even if the program declares a variable called like it (`temp0` and so on); the original would then go through a second temporary. `VectorProgram.ExpansionRefines` requires a name that no variable has.
- `ForLoop.ForRuns`: the loop variable is one scalar word; an array as loop variable fails the size check that follows.
- Line numbers in bytecode, and the target of an event emission beyond its id and the words it sends.
- Nodes updated in place and their ownership: trees are values; sharing and deletion of nodes are not captured. Undefined shifts by negative or oversized amounts are faults.
- `Description.RunIsSafe`: the device answers fragment -1 with its description and others from one fixed sequence, in any order of kinds; how firmware orders its fragments is not part of this model. Timers are retransmissions at any moment. Nodes below protocol version 8, which send everything unasked, are covered by the message handler only.
- `VariableCache.Cache.SetVariables`: the firmware version picked out of one variable, and the value type of reports, are not modelled.
- `Scratchpads.Group.LoadAesl`: shared variables, event tables, the notices about deleted pads and random pad identifiers are not modelled.
- `HexText.ReadHexText`: when the input ends where a record should start, the original compares a character it has not read; the model gives this an error of its own.
- `HexFile.ExtractPagesFromHex`: the "only then" requires that no record starts with a 0, because `HexFile.ZeroBytesCounterexample` shows it false otherwise, and that the file leaves room below the last thirty-two-bit address, where the original wraps around.
- `Utf8.UTF8ToWString`: reading behind the terminating zero of a string is an outcome of its own, `OverRead`, and not described further.
- Other messages, `crc`, endpoints, sockets, serial and USB drivers, firmware page sending, pairing, passwords, FlatBuffers, build scripts: input and output over libraries that are not part of this model, or easy members.
