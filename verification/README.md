# Verified models of the polynomial engine and of the compiler back end

The project models two parts of the system and proves what they are for.

**The compiler back end.** A function arrives as a sea of nodes. The optimiser rewrites it to a fixpoint
(`OptimizerGraph`, `Optimizer`); every pass is a sequence of justified rewriting steps, `OptimizerMeaning` proves that
a step on data admits only values that the graph admitted before, `PassMeaning` lifts this to whole passes, and
`ExpressionSharing` says exactly which merging steps keep the meaning. `ControlTracks` follows control through a graph
and its rewritings, `OptimizerTracks` through all rounds of the optimiser, and `OptimizedRuns` adds the values that a
run uses: what is left happens as before and sees what it saw; `FoldedArm` is a graph for which the condition on
folded strings is needed. The register allocator orders the nodes into basic blocks (`BlockSchedule`,
`DepthFirstOrder`), turns Phis into ordered moves at the ends of blocks (`PhiMoves`, `PhiDestruction`), computes
liveness with try/catch (`Liveness`), builds the interference graph (`Interference`), coalesces moves (`Coalescing`),
colours and spills (`Colouring`), and puts it all together (`RegisterAllocator`). `AllocatorIR` says what running
virtual and physical code means, `HandlerStacks` which handlers are active in a run, `DefinedRuns` which runs use no
register before it has a value, and `AllocationMeaning` proves that every run sees the same operands and the same
world on both; `UnshelteredHandler` is the graph that shows that its condition on handlers is needed. The symbolic
front end (`SymbolicCodegen`, `CodegenMeaning`) compiles an expression to straight-line code; `SymbolicCompiler`
composes it with scheduling and allocation, down to the value that the return instruction sees on the frame.
`Trampolines` is the emitter's removal of blocks without code, `InstructionEncoding` its packing of instruction words.

**The exact algebra engine.** Multivariate polynomials over a lexicographic order (`MonomialOrder`, `SparseMonomial`,
`MultiPoly`), ideals (`PolyIdeal`), pseudo-division (`PolyDivision`), exact division (`PolyExactDivision`),
Buchberger's loop (`Buchberger`) with the criterion that justifies it (`StandardRepresentation`,
`BuchbergerCriterion`), and basis reduction (`BasisReduction`). Univariate factorisation: integers and polynomials
(`IntegerGcd`, `IntPoly`, `GaussLemma`, `PolyCongruence`), arithmetic over Z_p (`ModularPoly`) and its machine-word
twin (`MachineWord`), irreducible polynomials and finite fields (`MonicPoly`, `Irreducibility`, `FiniteField`), the
test for square factors (`SquareFreeTest`), Cantor-Zassenhaus (`DistinctDegrees`, `SeparatingDraws`,
`CantorZassenhaus`), recombination over the integers (`TrialDivision`, `SubsetSearch`, `Recombination`), the bound on
the coefficients of factors (`BinaryForms`, `FormProducts`, `BombieriInequality`, `FormNorms`, `FactorBound`), the
monic substitution and its undoing (`FactorReconstruction`, `RestoredFactors`), and one square-free part from end to
end (`PolynomialFactoring`); exact roots (`ExactRoot`). Rational functions: polynomials over a field (`RationalPoly`,
`RationalRing`), division and greatest common divisors (`RationalDivision`), Yun's square-free decomposition
(`SquareFree`), Hermite reduction (`RepeatedParts`, `HermiteReduction`) and polynomials times exponentials
(`ExponentialIntegral`). Matrices: determinants by fraction-free elimination (`Determinant`, `Bareiss`), inverses over
the fraction field (`LinearAlgebra`, `MatrixInverse`) and without leaving the integers (`ExactInverse`), powers
(`MatrixProduct`, `MatrixPower`), triangular factors (`LuFactors`) and permanents (`Permanent`).

How things are represented:

- Big integers are `int`, exact fractions are `real`, and machine words are modelled explicitly (`MachineWord`, the
  overflowing shift in `Permanent`). The truncating `/` and `%` of the host language are `ModularPoly.TruncDiv` and
  `ModularPoly.TruncRem`.
- Objects whose fields the source updates are classes (`ConflictGraph`, `AliasForest`, `BlockGraph`, `IRGraph`,
  `SymbolicIRBuilder`); a vector of booleans is a set of indices; pointers to nodes are positions.
- The code lets a language operator do anything; the models take its meaning as a function, so the theorems hold for
  every such meaning (`AllocatorIR.Semantics`, `SymbolicCodegen.Ops`, `Optimizer.Language`).
- Proofs over `real` write products as `RealProducts.By`, so that the laws of multiplication are applied by name.
- Random polynomials, the primes that are tried and the normalising factors of coefficients are parameters, and the
  results hold for all of them.

What the theorems about whole rounds of the optimiser take for granted about its input: control hangs on nodes of the
control chain, not on Phis or on operators that are folded in place, a join has no control input of its own, and an If
controls only its projections, one for each side (`ControlTracks.Tidy`). The graph builder makes such graphs
(src/compiler/IRBuilder.cpp:212-221, 401-423).

What the allocator takes for granted about its input: an instruction in a try block that may throw is not followed, in
its own block and before the next read, by a write to a register that an active handler reads. The graph builder sees
to it: a handler reads what was defined before its try block, and every way out of the region ends the try first
(src/compiler/IRBuilder.cpp:2809-2815, 2850-2856, 4016-4194). `AllocationMeaning.Sheltered` states it for the handlers
that are active (`HandlerStacks.Structured`), `AllocationMeaning.LiveAtThrowExactly` says for which throws the live
sets are enough without it, and `UnshelteredHandler.ShelterIsNeeded` gives a graph outside of it whose handler reads a
wrong value.

What a call starts with: parameters lie in their slots, whether their nodes were placed at the start of the entry
block, as the symbolic front end does it, or in no block at all, as the builder does it. All other registers hold
anything; a run that reads a register before it has a value depends on that, and exactly such a run does
(`DefinedRuns.DefinedExactly`).

Where the code and its comments differ, the code is modelled:

- Basis reduction drops both of two generators with the same leading monomial; `BasisReduction.EqualLeadsLost` gives
  the input, and `BasisReduction.ReducedExactly` says exactly when the result is still right.
- Hermite reduction is meant to leave a square-free denominator. The loop picks one factor for each multiplicity, and
  a factor whose multiplicity has come down takes the place of the others, so only the factor of the highest
  multiplicity is reduced. `HermiteReduction.Reduce` leaves a square-free denominator exactly when the given one, in
  lowest terms, is one power times a rest, base and rest square-free and coprime; `HermiteReduction.SquareStays`
  reduces 1 / (x^2 * (x+1)^3) and keeps a square.
- Common-subexpression elimination does not look at captured variables, as the sharing of constants does. A merge
  keeps the meaning if and only if the removed expression is no captured variable and the remaining one is none either
  or nothing reads the removed one (`ExpressionSharing.MergeExactly`; over whole passes `StagesExactly`).
  `ExpressionSharing.CapturedComparison` gives two comparisons of the same parameters, one of them captured, whose
  merge lets a later assignment to the captured variable reach the readers of the other.
- Folding a string op takes it out of the control chain, so that the chain is not broken; but a join keeps the folded
  op among its inputs. Control finds its way exactly when it enters no join from there
  (`ControlTracks.FoldKeepsExactly`). `FoldedArm.ArmIsCutOff` gives a branch one of whose arms ends with a string of a
  constant: in the folded graph control comes to the return only by the other arm.
- Ryser's loop counts subsets in a 32-bit integer. `Permanent.Compute` returns zero for every matrix with 31 columns,
  and it is right for all matrices of a size exactly up to 30 columns (`Permanent.RightExactly`); the identity matrix
  has permanent one (`Permanent.IdentityPermanent`).

## Model

| member | source | states |
|---|---|---|
| BlockSchedule.BuildBlocks | src/compiler/RegisterAllocator.cpp:29-70 | one block per control node in creation order; block j occurs among the successors of block i exactly as often as the join j has inputs whose nearest head up the control inputs is i, or once when i is the nearest such head of a node j that is no join; successors are in rising order |
| BlockSchedule.FindOwner | src/compiler/RegisterAllocator.cpp:73-79 | the loop up the control inputs finds the block head that controls a node, or none |
| BlockSchedule.OwnerExactly | src/compiler/RegisterAllocator.cpp:73-79 | a node belongs to the first block head on the walk up its control inputs, and to none exactly when the walk meets none |
| BlockSchedule.OrderBlock | src/compiler/RegisterAllocator.cpp:82-109 | every data node of the block is placed, none twice, behind all it depends on whenever the dependencies have no cycle, and nothing outside any set closed under dependencies is placed |
| DepthFirstOrder.Visit | src/compiler/RegisterAllocator.cpp:88-106 | one depth-first visit extends the order by new items only, never by one that is on the stack, and keeps it topological when the dependencies are acyclic |
| DepthFirstOrder.Order | src/compiler/RegisterAllocator.cpp:87-109 | the order is a permutation of all items, and topological if the dependencies are acyclic |
| PhiMoves.OrderMoves | src/compiler/RegisterAllocator.cpp:154-192 | the ordered moves are a permutation of the given ones; without cycles every reader of a register runs before its writer |
| PhiMoves.SequentialIsParallel | src/compiler/RegisterAllocator.cpp:154-192 | with distinct destinations, running the moves one by one in such an order leaves every register as if all had been performed at once |
| PhiMoves.ExactlyWithoutCycle | src/compiler/RegisterAllocator.cpp:154-192 | an order that is right for all register contents exists if and only if the moves have no cycle |
| PhiMoves.SwapIsNotOrdered | src/compiler/RegisterAllocator.cpp:166 | two registers that swap cannot be ordered |
| PhiDestruction.DestroyPhis | src/compiler/RegisterAllocator.cpp:118-192 | the loop over the Phis appends one Move per way in that has a source, registered or not, to the block of that way, and sorting each block's appended moves puts every reader before its writer; everything else stays |
| PhiDestruction.LoweredIsParallel | src/compiler/RegisterAllocator.cpp:143-192 | running the appended Move nodes of a block in their order is the parallel assignment of its Phis, and leaves the world alone |
| PhiDestruction.PhiReceives | src/compiler/RegisterAllocator.cpp:126-192 | leaving a block by a way into a merge, the register of each Phi holds what the Phi's input for that way held |
| PhiDestruction.FrameReceives | src/compiler/RegisterAllocator.cpp:118-561 | after register allocation the place of the Phi on the frame holds that value as well |
| Liveness.UseDef | src/compiler/RegisterAllocator.cpp:242-255 | the two sets of a block are what it reads before writing and what it writes, pool constants aside |
| Liveness.TryRegions | src/compiler/RegisterAllocator.cpp:261-284 | a handler is recorded for a block exactly when the block can be reached from the matching try block without passing the handler |
| Liveness.Analyse | src/compiler/RegisterAllocator.cpp:286-319 | the loop terminates and a register is in a live set exactly when some run from there reads it before writing it, where a run may also go from the end of a block of a try region to the handler |
| Interference.Build | src/compiler/RegisterAllocator.cpp:321-371 | there is an edge between two registers exactly when one is written while the other is live behind it, the source of a move excepted, and the hints of a register are exactly the other ends of its moves |
| HandlerStacks.EntersNext | src/compiler/IRBuilder.cpp:4016-4194 | in a graph whose try blocks nest, every step of a run, thrown exceptions included, enters the next block with exactly the handlers that block is written for, and a throw ends in a handler whose region holds the block |
| Interference.ScanBlock | src/compiler/RegisterAllocator.cpp:338-371 | the backward scan of one block adds exactly that block's clashes and keeps adjacency lists, matrix and degrees in step |
| Interference.ConflictGraph.AddEdge | src/compiler/RegisterAllocator.cpp:327-336 | an edge is added to matrix, lists and degrees once, and nothing else changes |
| Coalescing.AliasForest.Find | src/compiler/RegisterAllocator.cpp:399-402 | path compression returns the representative and changes no register's representative |
| Coalescing.AliasForest.Link | src/compiler/RegisterAllocator.cpp:418-420 | linking two representatives merges exactly their classes |
| Coalescing.JoinKeeps | src/compiler/RegisterAllocator.cpp:413-427 | joining two non-adjacent classes and moving the edges keeps every old conflict as an edge between the classes' representatives |
| Coalescing.Coalesce | src/compiler/RegisterAllocator.cpp:404-432 | after all moves, conflicting registers are in different classes whose representatives are adjacent, classes are adjacent only where members conflict, a class has at most one fixed register, and no move is left whose ends could be joined |
| Colouring.Contract | src/compiler/RegisterAllocator.cpp:434-451 | after coalescing the adjacency lists are duplicate-free lists of adjacent representatives, complete, with matching degrees |
| Colouring.Simplify | src/compiler/RegisterAllocator.cpp:469-497 | every remaining register is pushed once, and when pushed it either had fewer than K remaining neighbours or all remaining ones had at least K |
| Colouring.Select | src/compiler/RegisterAllocator.cpp:499-546 | no two adjacent registers get the same place, spill slots start at 128 and are never shared, a register pushed while its degree was below K gets a colour below K, and every colour is that of a hint or the least that the neighbours leave free, a spilled register finding all K taken |
| Colouring.NotSimplified | src/compiler/RegisterAllocator.cpp:508-545 | a register that finds all K colours taken was not pushed while its degree was below K |
| RegisterAllocator.Precolour | src/compiler/RegisterAllocator.cpp:384-393 | parameters get their slots, pool constants are taken out, everything else is open |
| RegisterAllocator.EdgeApart | src/compiler/RegisterAllocator.cpp:395-554 | registers joined by an interference edge end in different places after coalescing, colouring and back-filling |
| RegisterAllocator.Allocate | src/compiler/RegisterAllocator.cpp:223-561 | every register that occurs has a place, parameters have their slots, clashing registers have different places, the live sets flow along all edges, exceptional ones included, and contain nothing that no successor wants; coalesced registers share a place, the ends of every other move clash or are bound to different slots, and a register is spilled only when clashing ones take all K places |
| AllocationMeaning.StepAgrees | src/compiler/RegisterAllocator.cpp:338-371 | one instruction keeps the agreement between virtual registers and places on all that is live behind it, moves between coalesced registers included |
| AllocationMeaning.LiveExactlyKept | src/compiler/RegisterAllocator.cpp:286-371 | a register that is live at the end of a block is live in front of instruction k exactly when the block from k on reads it before writing it or never writes it |
| AllocationMeaning.LiveAtThrowExactly | src/compiler/RegisterAllocator.cpp:286-319 | everything a handler needs is live where the exception is thrown if and only if the rest of the throwing block reads it before it writes it or leaves it alone |
| AllocationMeaning.VisitAgrees | src/compiler/RegisterAllocator.cpp:286-371 | a whole or aborted visit of a block carries agreement to the start of every block that may follow; after an exception, to the handler, whenever what it needs is not rewritten before it is read in the rest of the block |
| AllocationMeaning.RunAgrees | src/compiler/RegisterAllocator.cpp:237-561 | along every run, exceptions out of nested try blocks included, both machines see the same operands at every instruction and end in the same world |
| AllocationMeaning.CallAgrees | src/compiler/RegisterAllocator.cpp:237-561 | every call behaves on the frame, whatever it holds beside the arguments, as on virtual registers that start with what the frame holds at their places |
| AllocationMeaning.AllocationPreservesMeaning | src/compiler/RegisterAllocator.cpp:237-561 | a call with the arguments in the parameter slots and anything elsewhere on the frame behaves as on virtual registers with the arguments in the parameters' registers and anything in the others, for every run, loops and exceptions included, that reads no register before it has a value; parameters may be live on entry |
| DefinedRuns.DefinedExactly | src/compiler/RegisterAllocator.cpp:242-319 | what a run observes is independent of all registers but the given ones if and only if it reads nothing else before writing it |
| UnshelteredHandler.ShelterIsNeeded | src/compiler/RegisterAllocator.cpp:286-319 | without the condition on handlers the result fails: a faithful allocation of a small graph, and a run, defined throughout, after whose exception the handler sees different operands on the frame |
| SymbolicCodegen.SymbolicIRBuilder.Append | src/cas/SymIRCodegen.cpp:103-109 | a node is appended with the previously appended node as explicit predecessor and the last effect as control input, and becomes the last effect itself exactly when it is one |
| SymbolicCodegen.SymbolicIRBuilder.DeclareParameter | src/cas/SymIRCodegen.cpp:25-31 | a parameter node with its slot is appended and bound to its name |
| SymbolicCodegen.SymbolicIRBuilder.Emit | src/cas/SymIRCodegen.cpp:33-82 | the nodes that the emission specification gives are appended in its order, and its result node is returned |
| SymbolicCodegen.SymbolicIRBuilder.EmitFunc | src/cas/SymIRCodegen.cpp:72-79 | a call emits the function lookup, then the arguments from the left, then the call |
| SymbolicCodegen.EmittedExactly | src/cas/SymIRCodegen.cpp:38-45 | emission fails exactly when some variable of the expression is not a parameter |
| CodegenMeaning.EmitMeans | src/cas/SymIRCodegen.cpp:33-82 | running the emitted nodes in creation order leaves the value of the expression in the result node and the world as evaluation leaves it |
| CodegenMeaning.RestMeans | src/cas/SymIRCodegen.cpp:48-67 | the loop over the remaining summands or factors computes the left-associated sum or product |
| CodegenMeaning.FuncMeans | src/cas/SymIRCodegen.cpp:72-79 | lookup, arguments and call happen in source order, each in the world the previous one left |
| SymbolicCompiler.EmittedShape | src/cas/SymIRCodegen.cpp:103-140 | every emitted node owns the register of its position and uses only earlier nodes |
| SymbolicCompiler.ParamMapLast | src/cas/SymIRCodegen.cpp:25-31 | a name is bound exactly when it is a parameter, and then to the last parameter of that name |
| SymbolicCompiler.ScheduleBody | src/compiler/RegisterAllocator.cpp:81-109 | the scheduler keeps straight-line nodes in creation order |
| SymbolicCompiler.LiveInEmpty | src/compiler/RegisterAllocator.cpp:286-319 | in a compiled expression nothing is live on entry and nothing jumps back to it |
| SymbolicCompiler.Compile | src/cas/SymIRCodegen.cpp:25-95 | compilation succeeds exactly when all variables are parameters, and then gives the scheduled program with a faithful allocation |
| SymbolicCompiler.CompiledComputes | src/cas/SymIRCodegen.cpp:25-95 | running the allocated function with the arguments in their slots, whatever the other registers hold, the return sees the value of the expression in the world that evaluation leaves |
| OptimizerGraph.MarkAll | src/compiler/IROptimizer.cpp:547-557 | the worklist marks exactly what the roots reach along the edges |
| OptimizerGraph.LiveClosed | src/compiler/IROptimizer.cpp:559-622 | the kept nodes contain every reachable side effect, and with a node its control input and its inputs along reachable edges |
| OptimizerGraph.SweepTwice | src/compiler/IROptimizer.cpp:517-637 | sweeping a swept graph changes nothing |
| Optimizer.IRGraph.ReplaceNode | src/compiler/IROptimizer.cpp:23-36 | every use of the old node goes to the new one, the old one is cleared, and replacing a node by itself does nothing |
| Optimizer.IRGraph.FoldConstants | src/compiler/IROptimizer.cpp:203-357 | the new graph comes from the old one by steps that each turn a node on uncaptured constants into the constant that evaluation gives; a reported change made some node lighter; otherwise nothing can be folded |
| Optimizer.IRGraph.FoldControlFlow | src/compiler/IROptimizer.cpp:359-411 | each step keeps the side of a decided branch that its condition selects and clears the other one; at the end of a pass without change no branch is decided |
| Optimizer.IRGraph.FindSole | src/compiler/IROptimizer.cpp:440-454 | the scan finds an input exactly when all inputs that count are the same node, with its first position |
| Optimizer.IRGraph.SimplifyPhis | src/compiler/IROptimizer.cpp:413-515 | each step sends an uncaptured Phi to its only input that counts, or a merge to the first position that counts with its Phis to what they get there; after a pass without change none is left |
| Optimizer.IRGraph.DeduplicateConstants | src/compiler/IROptimizer.cpp:159-201 | each step sends an uncaptured constant to an earlier one with the same value; after a pass without change no two are the same |
| Optimizer.IRGraph.EliminateCommonSubexpressions | src/compiler/IROptimizer.cpp:103-157 | each step sends a pure expression to an earlier one with the same operator, payload, inputs and control; after a pass without change none is repeated |
| OptimizerMeaning.FoldMeans | src/compiler/IROptimizer.cpp:236-357 | values that fit the graph with the folded constant fitted it before, and every remaining node sees the same operand values |
| OptimizerMeaning.ForwardMeans | src/compiler/IROptimizer.cpp:23-36 | when a node goes to one that stands for it, values that fit afterwards fit before, the removed node having the value of its substitute, and every remaining node, returns, stores and calls included, sees the same operand values |
| PassMeaning.PassMeans | src/compiler/IROptimizer.cpp:103-357 | over whole passes of folding, sharing constants, sharing expressions and forwarding Phis, every assignment of values that fits the result comes from one that fits the original, with the same values and the same operand values for all remaining nodes |
| ExpressionSharing.MergeExactly | src/compiler/IROptimizer.cpp:103-157 | merging an expression into an equal one admits the same values for what is left if and only if the removed one is not captured, and the kept one is not captured or nothing reads the removed one |
| ExpressionSharing.StagesExactly | src/compiler/IROptimizer.cpp:103-157 | along a whole pass every step keeps the meaning if and only if every step meets that condition |
| ExpressionSharing.CapturedComparison | src/compiler/IROptimizer.cpp:140-155 | two comparisons of the same parameters, one of them a captured variable: the pass may merge them, and the merged graph admits a return that is not the comparison |
| Optimizer.IRGraph.EliminateDeadCode | src/compiler/IROptimizer.cpp:517-637 | exactly the live nodes keep their contents, and a change is reported exactly when a node was cleared |
| Optimizer.LighterMeasure | src/compiler/IROptimizer.cpp:10-21 | two per node plus one per constant never grows in a pass and falls whenever a pass changes something |
| Optimizer.IRGraph.Optimize | src/compiler/IROptimizer.cpp:10-21 | the pass loop terminates on every graph, the result comes from the given graph by whole rounds of the six passes in their order, each a sequence of justified steps or a sweep of exactly what is not live, and at the end none of the passes finds anything to do |
| ControlTracks.SideUses | src/compiler/IROptimizer.cpp:393-405 | when a branch is decided, what the taken side controlled goes to what controlled the branch, and what the other side controlled is left on a cleared node |
| ControlTracks.DropUses | src/compiler/IROptimizer.cpp:455-480 | when a merge is dropped, every reader of one of its Phis reads what the Phi got along the way that is left, and what the merge controlled goes to the node in front of it |
| ControlTracks.FoldKeepsExactly | src/compiler/IROptimizer.cpp:222-236 | after a string op is folded, control moves as before past it if and only if it enters no join from it |
| FoldedArm.ArmIsCutOff | src/compiler/IROptimizer.cpp:222-306 | an arm that ends with a string of a constant: with a true condition the original returns the string, the fold is justified, and in the folded graph every run that returns has a false condition and returns the other value |
| OptimizerTracks.OptimizedTracks | src/compiler/IROptimizer.cpp:10-21 | through all rounds control moves along what is left of its way, with the times and the inputs of joins it had; every side effect on the way stays unless it was folded |
| OptimizerTracks.ReachableStays | src/compiler/IROptimizer.cpp:10-21 | every side effect that control can reach without the sides that were not taken is in the result, and reachable there, unless it was folded |
| OptimizerTracks.OptimizedOperands | src/compiler/IROptimizer.cpp:10-36 | in every result, loops or not, each node that is left reads what stands for its operands after justified replacements, and a node is what it was, a constant, or gone |
| OptimizedRuns.OptimizedRun | src/compiler/IROptimizer.cpp:10-637 | for every run of the original there is a run of the result that passes what is left of its steps at their times, where every step sees the operand values it saw in the original, branch conditions and Phis included; only folded operators, merges and decided branches are missing, and no run was on a side not taken |
| Trampolines.ResolveLoop | src/compiler/Emitter.cpp:182-190 | the bounded loop follows the redirections to their end, or gives up |
| Trampolines.GivesUpExactlyOnCycles | src/compiler/Emitter.cpp:182-190 | the bound is large enough: giving up means that the redirections run in a cycle |
| Trampolines.Forward | src/compiler/Emitter.cpp:192-207 | whatever the old graph does from a block, the new one does from the block that stands for it: same code-emitting blocks, same branch outcomes |
| Trampolines.Backward | src/compiler/Emitter.cpp:192-207 | the new graph does nothing that the old one could not do |
| Trampolines.RoundKeepsPhis | src/compiler/Emitter.cpp:149-178 | the edges into blocks with a Phi, their order and their sources stay |
| Trampolines.BlockGraph.FindRedirects | src/compiler/Emitter.cpp:169-179 | exactly the bypassable blocks other than the entry are redirected to their successor |
| Trampolines.BlockGraph.SimplifyEmptyBlocks | src/compiler/Emitter.cpp:156-209 | the loop terminates, every run is preserved in both directions, blocks keep their order and the entry its place, no edge leads to a removed block, and only cycles of empty blocks are left to bypass |
| InstructionEncoding.BuildABC | src/compiler/Emitter.cpp:39-52 | the words are the packed fields followed by the extra words in the order A, B, C |
| InstructionEncoding.UnpackABC | src/compiler/Emitter.cpp:25-52 | packing fails exactly for operands of more than 24 bits; otherwise the machine reads back the same operands, constants told from registers, and stops behind the last extra word, if and only if no operand is negative |
| InstructionEncoding.BuildABx | src/compiler/Emitter.cpp:62-75 | the words are the packed fields followed by the extra words for A and for the escape of Bx, failing as the specification does |
| InstructionEncoding.UnpackABx | src/compiler/Emitter.cpp:62-75 | packing fails exactly for operands of more than 24 bits; otherwise the machine reads back both operands, the escape included, if and only if neither is negative |
| InstructionEncoding.BuildAsBx | src/compiler/Emitter.cpp:77-88 | the words carry the displacement in excess form, failing outside sixteen bits |
| InstructionEncoding.JumpLands | src/compiler/Emitter.cpp:77-89 | a packed conditional jump lands at its displacement behind its own words, extra word included |
| InstructionEncoding.LongJump | src/vm/Bytecode.h:324-348 | the displacement of a long jump survives packing exactly in its 24-bit range |
| MonomialOrder.LessTrichotomy | src/cas/Groebner.cpp:49-58 | the lexicographic order is total and strict |
| MonomialOrder.LessTimes | src/cas/Groebner.cpp:49-58 | multiplying both sides by a monomial does not change the order |
| MonomialOrder.AllAccessible | src/cas/Groebner.cpp:49-58 | the order is well-founded for any number of variables |
| SparseMonomial.Multiply | src/cas/Groebner.cpp:68-92 | the merge loop adds exponents, and fails exactly when the two monomials use more than eight variables together |
| SparseMonomial.LeastCommonMultiple | src/cas/Groebner.cpp:130-154 | the merge loop takes the greater exponents, with the same failure condition |
| SparseMonomial.Divide | src/cas/Groebner.cpp:108-128 | the loop subtracts exponents, drops what reaches zero, and its capacity check never fires |
| SparseMonomial.DividesInto | src/cas/Groebner.cpp:94-106 | the loop decides divisibility of the exponent vectors |
| SparseMonomial.LessThan | src/cas/Groebner.cpp:49-58 | the loop decides the lexicographic order of the exponent vectors |
| MultiPoly.CleanAndSort | src/cas/Groebner.cpp:233-248 | the result is strictly descending without zero coefficients and has the same coefficient at every monomial |
| MultiPoly.Subtract | src/cas/Groebner.cpp:305-329 | the merge of canonical polynomials is canonical and subtracts every coefficient |
| MultiPoly.TimesTerm | src/cas/Groebner.cpp:331-338 | multiplying by a term shifts and scales every coefficient |
| MultiPoly.CanonicalUnique | src/cas/Groebner.cpp:233-248 | canonical polynomials with the same coefficients are the same list of terms |
| PolyDivision.StepFalls | src/cas/Groebner.cpp:430-436 | a division step cancels the leading term and everything left is smaller |
| PolyDivision.StepKeepsResidue | src/cas/Groebner.cpp:430-459 | a step, with its rescaling by content, keeps c * f - p - r in the ideal |
| PolyDivision.Divide | src/cas/Groebner.cpp:420-476 | division terminates; a nonzero multiple of f less the remainder is a combination of the generators whose terms never exceed the leading monomial of f, no term of the remainder is divisible by a leading monomial, and an irreducible leading monomial stays |
| PolyExactDivision.ExactDivide | src/cas/Groebner.cpp:350-383 | a returned quotient times the divisor is the dividend and descends strictly; if any quotient of at most 10000 terms exists, exactly that one is returned |
| PolyExactDivision.NextTerm | src/cas/Groebner.cpp:367-381 | while something is left over, the next term of every quotient is the one the loop computes |
| Buchberger.SPolynomial | src/cas/Groebner.cpp:406-418 | the S-polynomial lies in every ideal that holds both polynomials and below the common multiple of the leading monomials |
| Buchberger.RelativelyPrime | src/cas/Groebner.cpp:534-554 | the first criterion holds exactly when no variable occurs in both leading monomials |
| Buchberger.CoveredByThird | src/cas/Groebner.cpp:556-569 | the second criterion holds exactly when a third generator's leading monomial divides the common multiple and its pairs are done |
| Buchberger.QueuePairs | src/cas/Groebner.cpp:500-512 | all pairs with a new generator are queued and marked |
| BuchbergerCriterion.Criterion | src/cas/Groebner.cpp:528-580 | if every S-polynomial is a combination of the generators with all terms below the pair's common multiple, the generators are a Groebner basis |
| BuchbergerCriterion.Chain | src/cas/Groebner.cpp:556-569 | the second criterion is sound: a pair is settled when a third leading monomial divides its common multiple and both pairs with the third are settled |
| BuchbergerCriterion.CoprimeResolved | src/cas/Groebner.cpp:536-554 | the first criterion is sound: pairs with coprime leading monomials are settled |
| Buchberger.Saturate | src/cas/Groebner.cpp:478-581 | in every run the ideal stays the same, each appended remainder has a leading monomial that no earlier one divides, and the table marks exactly the queued pairs; either the worklist runs empty, and then the generators are a Groebner basis, or exactly the pairs beyond the first 1000 are still queued |
| BasisReduction.ReducedBasis | src/cas/Groebner.cpp:584-610 | exactly the non-redundant generators survive with their leading monomials, no term of one is divisible by another's leading monomial, and all lie in the ideal |
| BasisReduction.Generates | src/cas/Groebner.cpp:584-610 | if the leading monomials of a list reach every element of a larger ideal, the list generates it |
| BasisReduction.CoveredExactly | src/cas/Groebner.cpp:585-595 | every leading monomial is still divisible by a survivor's exactly when no minimal one is repeated |
| BasisReduction.ReducedExactly | src/cas/Groebner.cpp:584-610 | reducing a Groebner basis gives a Groebner basis of the same ideal if and only if no minimal leading monomial is repeated |
| BasisReduction.EqualLeadsLost | src/cas/Groebner.cpp:589-592 | of two generators with the same leading monomial none survives, and the ideal is lost |
| BasisReduction.ComputeGroebnerBasis | src/cas/Groebner.cpp:478-610 | the result is reduced and inside the ideal in every run; the worklist runs empty unless the saturated list has more than 1000 pairs, and then the result is a Groebner basis of the ideal if and only if no minimal leading monomial of the saturated list is repeated, which holds for all generators with distinct leading monomials |
| IntPoly.ConvAssociative | src/cas/Factorization.cpp:656-671 | polynomial multiplication is associative |
| GaussLemma.GaussPrimitive | src/cas/Factorization.cpp:1262-1266 | the product of primitive polynomials is primitive |
| FactorReconstruction.MonicTransform | src/cas/Factorization.cpp:1097-1107 | the loop computes the monic transform |
| FactorReconstruction.MonicUndone | src/cas/Factorization.cpp:1097-1107 | substituting a_n * x into the transform gives a_n^(n-1) times the polynomial |
| FactorReconstruction.BackSubstitute | src/cas/Factorization.cpp:1238-1257 | the restored factor is primitive and differs from the substituted one by a positive constant |
| FactorReconstruction.ReconstructionExact | src/cas/Factorization.cpp:1238-1272 | if the factors of the transform multiply to it exactly, the restored ones multiply to the polynomial up to the lost sign, and to the polynomial itself exactly when that sign is positive |
| ModularPoly.InverseMod | src/cas/Factorization.cpp:619-637 | the loop returns the inverse in [0, p) exactly when there is one |
| ModularPoly.Subtract | src/cas/Factorization.cpp:643-654 | the result is the canonical difference modulo p |
| ModularPoly.Multiply | src/cas/Factorization.cpp:656-671 | the double loop gives the canonical product modulo p |
| ModularPoly.Divide | src/cas/Factorization.cpp:673-693 | quotient and remainder are canonical, the remainder is shorter than the divisor, and dividend = quotient * divisor + remainder modulo p |
| ModularPoly.DivisionUnique | src/cas/Factorization.cpp:673-693 | there is only one such quotient and remainder |
| ModularPoly.PolyGcd | src/cas/Factorization.cpp:695-709 | the result is the monic polynomial whose divisors modulo p are exactly the common divisors |
| ModularPoly.PowerMod | src/cas/Factorization.cpp:711-723 | square and multiply gives a canonical remainder congruent to the power |
| SquareFreeTest.IsSquareFree | src/cas/Factorization.cpp:1149-1156 | the derivative test never accepts a monic polynomial with a square factor modulo p, and for primes above the degree it decides |
| Irreducibility.EuclidsLemma | src/cas/Factorization.cpp:767-771 | modulo p an irreducible polynomial that divides a product divides a factor |
| FiniteField.Fermat | src/cas/Factorization.cpp:786-789 | modulo an irreducible polynomial of degree d every polynomial is its own p^d-th power, which is what the distinct-degree step relies on |
| DistinctDegrees.NextDegree | src/cas/Factorization.cpp:786-797 | dividing the gcd with h - x out of a square-free cofactor without factors of degree below d leaves none of degree up to d |
| DistinctDegrees.EnoughFactors | src/cas/Factorization.cpp:756 | the test that ends the equal-degree loop is right: that many factors of a polynomial without factors of degree below d are all irreducible |
| SeparatingDraws.DrawSeparates | src/cas/Factorization.cpp:754-771 | a drawn polynomial whose power (p^d - 1) / 2 is one modulo one irreducible factor of degree d and not modulo another puts the two into different parts of the gcd split |
| MachineWord.InverseMod64 | src/cas/Factorization.cpp:810-827 | the contract of the big-integer version, with every intermediate value in 64 bits |
| MachineWord.Subtract64 | src/cas/Factorization.cpp:833-844 | the same for differences |
| MachineWord.Multiply64 | src/cas/Factorization.cpp:846-861 | the same for products |
| MachineWord.Divide64 | src/cas/Factorization.cpp:863-883 | the same for division |
| MachineWord.PolyGcd64 | src/cas/Factorization.cpp:885-899 | the same for the gcd |
| MachineWord.PowerMod64 | src/cas/Factorization.cpp:901-913 | the same for powers |
| MachineWord.InverseUnique | src/cas/Factorization.cpp:810-827 | the contracts determine the inverse, so both paths agree |
| MachineWord.GcdUnique | src/cas/Factorization.cpp:885-899 | the contracts determine the gcd, so both paths agree |
| MachineWord.PowerUnique | src/cas/Factorization.cpp:901-913 | the contracts determine the power, so both paths agree |
| CantorZassenhaus.SplitOff | src/cas/Factorization.cpp:767-771 | dividing a monic polynomial by a monic divisor leaves no remainder and a monic cofactor |
| CantorZassenhaus.EqualDegree | src/cas/Factorization.cpp:736-778 | whatever polynomials are drawn, the factors are monic of positive degree and multiply to the input modulo p; when the loop ends by its own test and the input has no factor of degree below d, all are irreducible; otherwise no returned factor holds two irreducible factors of degree d that a draw separates, the one that its power makes one being simple |
| CantorZassenhaus.FrobeniusStep | src/cas/Factorization.cpp:786-787 | h stays congruent to x^(p^d) modulo the remaining cofactor |
| CantorZassenhaus.PartDivides | src/cas/Factorization.cpp:787-789 | a distinct-degree part divides x^(p^d) - x |
| CantorZassenhaus.Factor | src/cas/Factorization.cpp:780-803 | the factors are monic of positive degree and multiply to the input modulo p, and for a square-free input all are irreducible when the equal-degree loops ended by their own test; the parts have rising degrees, divide x^(p^d) - x, and multiply with the rest to the input; the factors come in groups, one for each part, and within a group no draw separates what is left together |
| TrialDivision.TryDivide | src/cas/Factorization.cpp:1183-1205 | the integer division loop succeeds exactly when the candidate divides, and then with the quotient |
| SubsetSearch.PreviousIsNext | src/cas/Factorization.cpp:1168-1219 | no subset of the same size lies between a mask and the one tried after it |
| SubsetSearch.FirstIsGreatest | src/cas/Factorization.cpp:1168-1169 | the search starts at the first subset of its size |
| Recombination.Search | src/cas/Factorization.cpp:1171-1219 | a found subset gives an exact divisor; otherwise every subset of this size has been tried and failed |
| Recombination.LeftMultiply | src/cas/Factorization.cpp:1207-1218 | after a factor is taken out the remaining modular factors multiply to the quotient modulo p |
| Recombination.FailsStill | src/cas/Factorization.cpp:1166-1224 | a size that failed need not be tried again after a factor is taken out |
| Recombination.Partition | src/cas/Factorization.cpp:1171-1205 | every monic divisor modulo p is the product of a subset of the irreducible factors, and its cofactor of the rest: the subsets miss nothing |
| Recombination.FoundIrreducible | src/cas/Factorization.cpp:1171-1219 | a divisor found at size d, when all smaller subsets have failed and the prime is large enough, is irreducible over the integers |
| Recombination.LastIrreducible | src/cas/Factorization.cpp:1226-1228 | what is left when all subsets of at most half of the factors have failed is irreducible |
| Recombination.Recombine | src/cas/Factorization.cpp:1161-1228 | the search terminates, the true factors multiply to the input exactly over the integers, no subset of at most half of the remaining modular factors divides what is left, and with irreducible modular factors and a prime above twice every coefficient of every monic factor all true factors are irreducible |
| RestoredFactors.RestoredIndecomposable | src/cas/Factorization.cpp:1238-1257 | undoing the monic substitution on an irreducible factor gives a polynomial that is no product of shorter ones |
| BombieriInequality.Expansion | src/cas/Factorization.cpp:1109-1116 | the inner product of two products of forms is the sum of their contractions, the reason behind the bound |
| BombieriInequality.NormOfProduct | src/cas/Factorization.cpp:1109-1116 | Bombieri's inequality: the norm of a product is at least the product of the norms |
| FactorBound.CoefficientBound | src/cas/Factorization.cpp:1109-1116 | no coefficient of an integer factor exceeds 2^n times the sum of the magnitudes of the coefficients, n the degree |
| FactorBound.Mignotte | src/cas/Factorization.cpp:1109-1116 | the loops compute a bound such that every number above twice it is above twice every coefficient of every monic factor |
| PolynomialFactoring.ChoosePrime | src/cas/Factorization.cpp:1144-1157 | the first prime modulo which the transform passes the test is taken, and it has no square factor modulo that prime; if none passes, the transform has a square factor modulo every candidate above its degree |
| PolynomialFactoring.FactorPart | src/cas/Factorization.cpp:1089-1274 | the returned factors are primitive, the leading factor is plus or minus the content, and leading factor times factors is exactly the polynomial; the modular factors are those that the draws separate; with enough random polynomials no returned factor, nor a polynomial that is left alone, can be split, because the prime is above twice the Mignotte bound |
| PolynomialFactoring.SignIsNeeded | src/cas/Factorization.cpp:1262-1272 | for 1 - x^2 the factors of the monic transform restore to polynomials whose product is its negative, and the sign that the code puts back repairs exactly that |
| ExactRoot.IntegerRoot | src/cas/Factorization.cpp:1420-1436 | the search finds the root of a positive perfect power and fails exactly when there is none |
| ExactRoot.ExpressionRoot | src/cas/Factorization.cpp:1439-1478 | a root is found exactly for perfect powers, for powers with an exponent that k divides, and for fractions and products of such; what is returned is a k-th root of the expression for all values of its symbols |
| RationalPoly.SameEqual | src/cas/Symbolic.cpp:4857-4875 | polynomials without leading zeros that take the same values are the same |
| RationalDivision.DivCoeffs | src/cas/Symbolic.cpp:4890-4913 | the loop divides with a remainder shorter than the divisor |
| RationalRing.ExactQuotient | src/cas/Symbolic.cpp:4890-4913 | division of a multiple finds the cofactor and leaves nothing |
| RationalDivision.PseudoRemainder | src/cas/Symbolic.cpp:4915-4954 | a nonzero multiple of the dividend is a multiple of the divisor plus the result, which is shorter |
| RationalDivision.PolyGcd | src/cas/Symbolic.cpp:5082-5158 | the subresultant sequence ends with a monic polynomial that divides both arguments and combines them |
| RationalDivision.PolyEgcd | src/cas/Symbolic.cpp:5233-5278 | the returned coefficients combine the arguments to a monic common divisor |
| SquareFree.QuotientNoSquare | src/cas/Symbolic.cpp:5188-5201 | the quotient of a polynomial by the gcd with its derivative is coprime to its own derivative |
| SquareFree.NoSquareExactly | src/cas/Symbolic.cpp:5187-5192 | coprime to the derivative means that no square of positive degree divides |
| SquareFree.YunStep | src/cas/Symbolic.cpp:5208-5219 | what the round leaves is the gcd of the rest with its derivative, so the rounds peel off one multiplicity after the other |
| SquareFree.Decompose | src/cas/Symbolic.cpp:5160-5231 | the parts, each as often as it says, multiply to the polynomial exactly; repeated parts are not constant, come in order of multiplicity and their product has no square; the deadlock check never fires |
| HermiteReduction.StepAt | src/cas/Integration.cpp:838-861 | at every point where it is defined the current fraction is the derivative of the split-off quotient plus the next fraction |
| HermiteReduction.ReduceOnce | src/cas/Integration.cpp:838-861 | one pass computes such a split, and the next fraction is proper |
| RepeatedParts.FactorCoprime | src/cas/Integration.cpp:838-845 | the rest of the denominator times the derivative of a part is coprime to the part, so the gcd that the pass divides by is one |
| RepeatedParts.ReducedExactly | src/cas/Integration.cpp:831-866 | taking all but one copy of one repeated part away leaves a square-free denominator exactly when no other part is repeated |
| RepeatedParts.OnePowerExactly | src/cas/Integration.cpp:831-866 | every square-free decomposition of a polynomial has at most one repeated part if and only if the polynomial is one power times a rest, base and rest square-free and coprime |
| HermiteReduction.Reduce | src/cas/Integration.cpp:806-869 | fails exactly for denominator zero; wherever the integrand is defined it equals the derivative of the rational part plus the polynomial part plus a proper fraction; all quotients split off are proper, and the given denominator is that of the fraction times v^(m-1), v the part of the greatest multiplicity m; it is square-free exactly when the given one in lowest terms is one power times such a rest |
| HermiteReduction.TwoRepeatedParts | src/cas/Integration.cpp:832-834 | x^2 * (x+1)^3 is not of that form, and every decomposition of it has two repeated parts |
| HermiteReduction.SquareStays | src/cas/Integration.cpp:831-866 | reducing 1 / (x^2 * (x+1)^3) ends with a denominator that a square divides |
| ExponentialIntegral.PowerSum | src/cas/Integration.cpp:3230-3242 | the telescoping sum for one power: its derivative plus c times itself is that power |
| ExponentialIntegral.Integrate | src/cas/Integration.cpp:3223-3247 | the derivative of the result times e^w is the polynomial times e^w |
| Determinant.DetLinear | src/cas/SymMatrix.cpp:330-334 | the determinant is linear in every row |
| Determinant.SwapRows | src/cas/SymMatrix.cpp:357-360 | swapping two rows negates the determinant |
| Bareiss.Sylvester | src/cas/SymMatrix.cpp:362-369 | the identity of Sylvester between leading minors and their borders |
| Bareiss.StepEntry | src/cas/SymMatrix.cpp:362-368 | each cross difference is the previous pivot times a larger minor, so the division is exact |
| Bareiss.CrossMinor | src/cas/SymMatrix.cpp:362-368 | the same identity for the minors of any table, which the inverse needs for its augmented one |
| Bareiss.NoPivot | src/cas/SymMatrix.cpp:351-355 | a column without a pivot means determinant zero |
| Bareiss.Step | src/cas/SymMatrix.cpp:362-369 | after a step every entry is the minor it stands for |
| Bareiss.Compute | src/cas/SymMatrix.cpp:330-375 | fraction-free elimination with row swaps computes the determinant |
| MatrixInverse.GaussJordan | src/cas/SymMatrix.cpp:434-458 | elimination keeps the solutions of the augmented system, or finds a column without a pivot |
| MatrixInverse.Invert | src/cas/SymMatrix.cpp:404-469 | the result is a left and right inverse, and the matrix is reported singular exactly when it maps a nonzero vector to zero |
| ExactInverse.StepExact | src/cas/SymMatrix.cpp:450-456 | in Gauss-Jordan elimination without fractions each cross difference is the previous pivot times an entry's minor, above the pivot row too, so the division never fails |
| ExactInverse.InvertExactly | src/cas/SymMatrix.cpp:424-468 | over the integers the elimination stops exactly for determinant zero; otherwise it ends with plus or minus the determinant and numerators that are an inverse from both sides |
| MatrixProduct.ProductAssociative | src/cas/SymMatrix.cpp:117-155 | matrix multiplication is associative |
| MatrixPower.Multiply | src/cas/SymMatrix.cpp:117-155 | the loop that skips zeros computes the product |
| MatrixPower.Raise | src/cas/SymMatrix.cpp:471-484 | repeated squaring computes the power |
| MatrixPower.RaiseSigned | src/cas/SymMatrix.cpp:471-484 | for a negative exponent the result is the two-sided inverse of the positive power; it fails exactly for a singular matrix |
| LuFactors.Factorise | src/cas/SymMatrix.cpp:752-769 | returns unit lower and regular upper triangular factors, the only ones, and fails exactly when there are none |
| Permanent.Ryser | src/cas/SymMatrix.cpp:676-702 | the signed sum over subsets of columns is the sum over all permutations |
| Permanent.MasksAreSubsets | src/cas/SymMatrix.cpp:677-683 | counting bit masks visits every subset once |
| Permanent.Compute | src/cas/SymMatrix.cpp:670-703 | the loop computes the permanent up to 30 columns, and returns zero for 31 because the subset count overflows |
| Permanent.RightExactly | src/cas/SymMatrix.cpp:677 | every matrix of a size gets its permanent if and only if the size is at most 30 |
| Permanent.IdentityPermanent | src/cas/SymMatrix.cpp:677 | the identity matrix of every size has permanent one |

## Left out

- AllocationMeaning.AllocationPreservesMeaning: handlers must be sheltered and try blocks nest, as the graph builder makes them, which is read off its code and not proved; the entry block has no predecessors; Parameter nodes that stand in a block stand at the start of the entry block. An instruction writes its own register only, so assignments to captured variables in place (src/compiler/Emitter.cpp:355-363) are part of the world.
- PhiDestruction.LoweredIsParallel: the sources of a block's moves have registers; a source without one is a throw, and its moves stand behind it and never run.
- PhiMoves.SequentialIsParallel: moves whose destinations form a cycle are not ordered correctly by the code; the exact condition is PhiMoves.ExactlyWithoutCycle.
- SymbolicCompiler.Compile: the optimiser pass between emission and allocation is not part of the composition.
- SymbolicCompiler.CompiledComputes: the optimiser pass between emission and allocation is not part of the composition, and neither is the encoding of instructions.
- Optimizer.IRGraph.Optimize: evaluation at compile time is a parameter; several payload fields of a node are one number.
- PassMeaning.PassMeans: removing merges and branches is not part of the assignments of values; OptimizedRuns.OptimizedRun has runs for that.
- OptimizedRuns.OptimizedRun: a run passes each control node at most once, so of a loop it follows the first way through; for later ones there are OptimizerTracks.OptimizedOperands and PassMeaning.PassMeans. What captured variables hold is left open, folded strings must feed no join, shared expressions must be mergeable, and several ways into a dropped merge from the same node must agree.
- Optimizer.IRGraph.EliminateCommonSubexpressions: the table of seen expressions is searched by current contents; the source hashes contents that later rewrites may change.
- Trampolines.BlockGraph.SimplifyEmptyBlocks: null successors and the predecessor lists are not modelled.
- Permanent.Compute: more than 31 columns, where the shift itself is undefined, are not covered.
- Buchberger.Saturate: sorting is an insertion sort by the same key.
- PolyDivision.Divide: dividing by the common content and making primitive are multiplications by arbitrary nonzero numbers.
- MultiPoly.TimesTerm: polynomials use exponent vectors of any length; the failure of a product that needs more than eight variables is stated for single monomials in SparseMonomial.Multiply.
- PolyExactDivision.ExactDivide: what the symbolic fallback returns is not modelled.
- Bareiss.Compute: the entries are integers where the source has polynomials; the identities hold in any integral domain, and the integers are the one they are proved for.
- MatrixInverse.Invert: the entries are real numbers standing for the fraction field, where no division fails; ExactInverse shows over the integers that the division by the previous pivot is exact.
- MatrixInverse.GaussJordan: likewise.
- ExactInverse.InvertExactly: the entries are integers where the source has polynomials, and the special cases for one and two rows are those of MatrixInverse.Invert.
- CantorZassenhaus.EqualDegree: the random generator is a parameter and the loop also ends when it runs out (`complete` is false then); that random choices end the loop soon is not claimed.
- PolynomialFactoring.FactorPart: the primes above a bound are a finite list, so the search for one that keeps the polynomial square-free may also run out (`NoPrime`); square-free decomposition in front of it is SquareFree; it runs the big-integer path.
- MachineWord.Multiply64: the remaining twins (derivative, equal- and distinct-degree loops) only combine the routines shown; the exponent of a power is a big integer in both paths.
- BlockSchedule.BuildBlocks: a node's control input is taken to be created before it; predecessor lists and the labels of edges are left out.
- Instruction scheduling hints, release of registers after their last use, scratch registers for spilled operands and the layout of try regions in the emitted code.
- Branch relaxation and the remaining parts of the emitter.
- RationalDivision.PolyGcd: coefficients are numbers; the caps on iterations and on the size of expressions are not modelled, and division by a number is multiplication by its inverse.
- HermiteReduction.Reduce: expressions are polynomials in the variable of integration with numbers as coefficients.
- ExactRoot.ExpressionRoot: sums are not factored and powers of roots are not combined, as in the source; simplification of the returned product is left out.
- LuFactors.Factorise: the zero test of symbolic entries is equality of numbers.
- The rest of symbolic integration, simplification, equation solving, and the null space.
- The parser, the resolver, the virtual machine, the command line and all input and output.
