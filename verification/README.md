# A verified model of the QBE back end and of the BASIC runtime's arrays

The compiler turns BASIC into QBE intermediate language, which the C code in `qbe_basic_integrated/qbe_source`
optimises and lowers. This project models the passes whose correctness is a property of a whole graph or of whole
runs, and proves those properties; one runtime algorithm, REDIM PRESERVE, is included. `dafny verify dfyconfig.toml`
checks everything.

## What is modelled

* **Control flow** (`Cfg`, `Dominators`, `Frontiers`): reverse postorder, the iterative dominator computation and the
  dominance frontiers. Dominance is defined by paths from the start block; the computed trees are proved against that.
* **SSA construction** (`Ir`, `Liveness`, `Exemption`, `PhiPlacement`, `LocalRenaming`, `Renaming`, `Ssa`,
  `SsaMeaning`, `SsaConstruction`, `SsaInvariant`): liveness by paths, the phi worklist, renaming with lazily popped
  name stacks, and the theorem that a function and its SSA form run in lock step.
* **Rewrites that preserve meaning**: `JumpThreading` (removal of empty blocks), `IfConversion` and
  `IfConversionRounds` (hammocks to selects), `BranchInference` (values known from dominating branches, and the jumps
  collapsed with their help), `ConstantFolding` (integer folding and re-association), `WidthAnalysis` (how many bits a
  value has), `GlobalCodeMotion` (the block of every instruction), with the loop depths of `LoopDepth`.
* **Allocation and lowering**: `ParallelMoves` (moves to copies and swaps), `SpillSlots`, `SlotFusion`,
  `BlitExpansion`.
* **Runtime**: `BasicArrays` (strides, element offsets, REDIM PRESERVE).
* `Words` and `Wrappers` hold shared arithmetic and the option type.

Blocks are named by their number (the reverse-postorder number once there is one) and the fields of a block, temporary
or instruction are arrays or sequences indexed by that number. Passes that update such fields are methods over arrays
or over objects with those fields; what a pass must achieve is stated by predicates over the values before and after.
Executions are sequences of steps of an arbitrary machine: the theorems quantify over every meaning of the operations.

## Where the code needs a condition

* `DedupJmp`: a branch on a 64-bit constant whose low 32 bits are zero but which is not zero is collapsed the wrong
  way; on every other argument executions are preserved (`CutConstantExact`).
* `DefWidthLeSound`: a word shifted by the constant 32 is taken for zero (`ShiftBy32Exact`), and the visit bit of a phi
  ignores the width (`NarrowedPhiExact`). The condition is on the run of defwidthle: no such shift decides, and no phi
  in progress is met again at a smaller width; `TameIsRight` has a condition on the function that implies it.
  `ShiftBy32GoesWrong` and `NarrowedPhiGoesWrong` are the smallest inputs with a wrong answer.
* `SsaCheckExact`: the invariant holds unless the program reads a variable that is exempted, or never assigned in a way
  that lasts to the end of a block, before its first assignment.
* `Redim`: with preserve and two or more dimensions the boxes must overlap in every dimension (`FirstIndexIsCommon`,
  `DisjointGoesWrong`); the sizes and the number of elements fit in 32 bits, and the upper bounds leave room for the
  last increment (`IncrementsFit`).
* `SimplJmp`: the successor fields of a block are the targets of its jump, as the parser leaves them (parse.c:649-697) and
  every pass that rewrites a jump keeps them (gvn.c:422, ifopt.c:87).
* `Gen`: destinations are distinct, and all moves of one call belong to one register bank per connected group.
* `Gcm`: a legal placement must exist, which SSA form gives; value numbering may leave definitions that do not dominate
  their uses, and then the placement is one that the values still allow.
* `IfConvert`: a block with a single predecessor has no phis; simplcfg turns such phis into copies (cfg.c:491).
* `assoccon` never re-associates multiplication: the operation table does not mark it associative, and the model
  follows the table.

## Model

| member | source | states |
|---|---|---|
| `ParallelMoves.MoveGen.Add` | qbe_basic_integrated/qbe_source/rega.c:190-199 | A move is appended to the table, up to the number of registers. |
| `ParallelMoves.MoveGen.Rec` | qbe_basic_integrated/qbe_source/rega.c:203-247 | One call settles the move, every move that waits for it and at most one cycle; the answer names the start of an open cycle, the emitted code performs exactly the moves it finished, and each instruction carries out one of the moves in the register bank of that move. |
| `ParallelMoves.MoveGen.Gen` | qbe_basic_integrated/qbe_source/rega.c:249-260 | Every run of the emitted code gives each destination the initial value of its source, changes no other location, and has at most one instruction per move that is not a self-move. Each instruction carries out one of the moves, with its source, destination and register bank, and is 64 bits wide only if a move of that bank is. |
| `ParallelMoves.BankFits` | qbe_basic_integrated/qbe_source/rega.c:215-224 | An instruction that reads or writes the destination of a move belongs to the register bank of that move, which is what the assertion on KBASE is for. |
| `ParallelMoves.RunExists` | qbe_basic_integrated/qbe_source/rega.c:203-260 | Every emitted program has a run, so that the statement about all runs is not empty. |
| `ParallelMoves.CycleClosed` | qbe_basic_integrated/qbe_source/rega.c:227-235 | The swaps of a cycle, unwound from its last member, rotate the values all the way round. |
| `ParallelMoves.CopyFirst` | qbe_basic_integrated/qbe_source/rega.c:237-240 | A copy may be put in front of code that no longer reads its destination. |
| `Cfg.PoRec` | qbe_basic_integrated/qbe_source/cfg.c:63-80 | The depth-first walk numbers exactly the reachable blocks, each but the root has a predecessor that is numbered after it, and an edge to a block that was not numbered before closes a cycle. |
| `Cfg.FillRpo` | qbe_basic_integrated/qbe_source/cfg.c:82-102 | The numbers are a bijection onto the reachable blocks, the others keep -1, every block but the start has a predecessor with a smaller number, and an edge to a block whose number is not larger closes a cycle. |
| `Cfg.BackEdgesClose` | qbe_basic_integrated/qbe_source/cfg.c:244-248 | Hence what fillloop takes for a loop header lies on a cycle: the block reaches the predecessor whose number is not smaller. |
| `Cfg.FillPreds` | qbe_basic_integrated/qbe_source/cfg.c:48-61 | The predecessors of each block, each once even if both successors of a block agree. |
| `Dominators.Inter` | qbe_basic_integrated/qbe_source/cfg.c:117-135 | Two chains of links meet at their deepest common member. |
| `Dominators.Meet` | qbe_basic_integrated/qbe_source/cfg.c:154-158 | Folding inter over the predecessors gives the meet of those that have a link. |
| `Dominators.VisitBelowMeetsAt` | qbe_basic_integrated/qbe_source/cfg.c:150-164 | Linking a block to the meet of its predecessors never moves any meet down: links only move up from pass to pass. |
| `Dominators.VisitCoversAt` | qbe_basic_integrated/qbe_source/cfg.c:150-164 | No visit removes a true dominator from a chain. |
| `Dominators.WeightUpdate` | qbe_basic_integrated/qbe_source/cfg.c:159-162 | Every changed link decreases the sum that bounds the number of passes. |
| `Dominators.FixpointIsDomTree` | qbe_basic_integrated/qbe_source/cfg.c:150-164 | When a pass changes nothing, the chain of each block is the set of blocks on every path to it. |
| `Dominators.FillDom` | qbe_basic_integrated/qbe_source/cfg.c:138-164 | filldom terminates, and the idom chain of each block is exactly the set of blocks that lie on every path from the start, for reducible and irreducible graphs alike. |
| `Dominators.Sdom` | qbe_basic_integrated/qbe_source/cfg.c:173-182 | sdom decides strict dominance by paths. |
| `Dominators.Dom` | qbe_basic_integrated/qbe_source/cfg.c:184-188 | dom decides dominance by paths. |
| `Dominators.FillKids` | qbe_basic_integrated/qbe_source/cfg.c:165-170 | The dom and dlink fields list the children of each block in the dominator tree. |
| `Frontiers.AddFron` | qbe_basic_integrated/qbe_source/cfg.c:190-203 | A block joins a frontier once. |
| `Frontiers.FillBlock` | qbe_basic_integrated/qbe_source/cfg.c:211-221 | The two walks from a block reach exactly its dominators that do not strictly dominate the successor. |
| `Frontiers.FillFron` | qbe_basic_integrated/qbe_source/cfg.c:205-221 | Each frontier is exactly the set of blocks with a dominated predecessor that are not strictly dominated, without duplicates. |
| `Frontiers.FrontierByTree` | qbe_basic_integrated/qbe_source/cfg.c:205-221 | Membership in a frontier by paths is what the walk up the tree finds. |
| `Liveness.SolutionCovers` | qbe_basic_integrated/qbe_source/live.c:38-148 | Every solution of the flow equations contains each variable with a path to a use that is not redefined on it. |
| `Liveness.LeastSolution` | qbe_basic_integrated/qbe_source/live.c:38-148 | A solution in which every member is justified by such a path is the least one. |
| `Liveness.LiveOn` | qbe_basic_integrated/qbe_source/live.c:3-20 | What a block passes on along one edge: the live-in set without the results of the phis, and the phi arguments of that edge. |
| `Liveness.ScanBlock` | qbe_basic_integrated/qbe_source/live.c:70-143 | The backward walk over a block yields its live-in set and, for each register bank, the largest number of variables live at once: no point of the block has more, and some point has as many. |
| `Liveness.PeakStep` | qbe_basic_integrated/qbe_source/live.c:140-142 | One instruction further up, the largest number is the old one or the number of variables live in front of it. |
| `Liveness.FillLive` | qbe_basic_integrated/qbe_source/live.c:38-148 | The iteration terminates; a variable is in the live-out set exactly when a path from the end of the block reaches a use with no redefinition, phi uses belonging to the edge; and nlive is the least bound, for each register bank, on the number of variables live at any point of the block. |
| `PhiPlacement.Worklist.Push` | qbe_basic_integrated/qbe_source/ssa.c:192-196 | A block that is not queued is queued; the list of one entry per block cannot overflow. |
| `PhiPlacement.Worklist.Pop` | qbe_basic_integrated/qbe_source/ssa.c:177-180 | The last block queued is removed. |
| `PhiPlacement.WorkStep` | qbe_basic_integrated/qbe_source/ssa.c:177-199 | One frontier edge keeps the worklist invariant: placed blocks are reached from the definitions and unprocessed ones are queued. |
| `PhiPlacement.WorkDone` | qbe_basic_integrated/qbe_source/ssa.c:176-200 | An empty worklist leaves exactly the least set closed under the frontier of definitions and placed phis, within the live-in blocks. |
| `PhiPlacement.Builder.RenameBlock` | qbe_basic_integrated/qbe_source/ssa.c:149-175 | Uses of a variable that is defined above in the same block get the name of that definition. |
| `PhiPlacement.Builder.PhiInsTemp` | qbe_basic_integrated/qbe_source/ssa.c:131-200 | For one variable: block-local names, and phis in exactly the blocks the least set asks for. |
| `PhiPlacement.Builder.PhiIns` | qbe_basic_integrated/qbe_source/ssa.c:115-202 | For all variables that are not exempt: a phi for t stands exactly in the least set of blocks closed under "in the dominance frontier of a live-out definition or placed phi of t, with t live-in". |
| `LocalRenaming.LocalStep` | qbe_basic_integrated/qbe_source/ssa.c:149-175 | Renaming one variable locally keeps every other local name right. |
| `Renaming.GetStk` | qbe_basic_integrated/qbe_source/ssa.c:254-271 | Names of blocks that do not dominate the current one are dropped; the top that remains is the name from the nearest dominating block. |
| `Renaming.PeekChild` | qbe_basic_integrated/qbe_source/ssa.c:254-271 | A dropped name is never needed again: in the children of a block the stack gives what it gave in the block. |
| `Renaming.Renamer.RenDef` | qbe_basic_integrated/qbe_source/ssa.c:239-252 | A definition gets a new name, which is pushed for its block. |
| `Renaming.Renamer.RenUse` | qbe_basic_integrated/qbe_source/ssa.c:283-289 | A use gets the last name given above it in its block, or else the one of the nearest dominating block. |
| `Renaming.Renamer.RenSuccs` | qbe_basic_integrated/qbe_source/ssa.c:296-309 | Each phi of a successor gets, for this edge, the name valid at the end of the block. |
| `Renaming.Renamer.RenBlock` | qbe_basic_integrated/qbe_source/ssa.c:273-307 | Phis, instructions and jump of one block are renamed and its successors' phis are filled, and nothing already done changes. |
| `Renaming.Renamer.RenBlk` | qbe_basic_integrated/qbe_source/ssa.c:273-312 | The walk of a dominator subtree renames all of it, and leaves the stacks fit for the siblings. |
| `Renaming.ProgressStep` | qbe_basic_integrated/qbe_source/ssa.c:273-312 | A finished block stays finished. |
| `Ssa.Conversion.NameAcrossEdge` | qbe_basic_integrated/qbe_source/ssa.c:115-202 | Along an edge to a block without a phi for a live-in variable, the name at the end of the predecessor is the name on entry: the theorem behind phi placement. |
| `Ssa.Conversion.NameUpTo` | qbe_basic_integrated/qbe_source/ssa.c:254-271 | Between a block and its immediate dominator the name of a variable does not change unless a phi does it. |
| `Ssa.Conversion.UsesAreDominated` | qbe_basic_integrated/qbe_source/ssa.c:355-423 | Every use of a new name is dominated by its definition. |
| `SsaMeaning.SsaPreservesMeaning` | qbe_basic_integrated/qbe_source/ssa.c:314-353 | For every meaning of the operations, every memory and every number of steps, the function and its SSA form are at the same block with the same memory, and return the same value. |
| `SsaConstruction.Analyse` | qbe_basic_integrated/qbe_source/ssa.c:314-339 | The analyses that ssa runs produce the dominator tree, the frontiers and the liveness that placement and renaming rely on. |
| `Exemption.Exempted` | qbe_basic_integrated/qbe_source/ssa.c:133-145 | Exactly the variables with one definition are exempted whose uses all lie in the block of the definition, or that are defined in the start block. |
| `SsaConstruction.Construct` | qbe_basic_integrated/qbe_source/ssa.c:314-353 | ssa as a whole: its result is a correct conversion, with the exempted variables of phiins, and a single definition of every new name. |
| `SsaConstruction.EachDefinedOnce` | qbe_basic_integrated/qbe_source/ssa.c:314-353 | As the exempted variables have one definition, every temporary of the result has one. |
| `SsaInvariant.SsaCheckExact` | qbe_basic_integrated/qbe_source/ssa.c:355-423 | Every use in the result, exempted variables and phi arguments included, is dominated by a definition, if and only if no execution reads a variable that is not renamed before assigning it. |
| `JumpThreading.Find` | qbe_basic_integrated/qbe_source/cfg.c:313-323 | uffind returns the representative of a block; path compression keeps the forest acyclic and its representatives. |
| `JumpThreading.TightLinked` | qbe_basic_integrated/qbe_source/cfg.c:343-348 | Linking an empty block leaves unlinked only those empty blocks that loop through empty blocks. |
| `JumpThreading.Fn.Sweep` | qbe_basic_integrated/qbe_source/cfg.c:337-349 | One round of the first loop: plain returns become jumps to the new block, and an empty jump block is linked to where it leads. |
| `JumpThreading.Fn.Redirect` | qbe_basic_integrated/qbe_source/cfg.c:350-359 | One round of the second loop: successors become representatives, equal ones collapse to a jump, and the successor fields of the block are then exactly the targets of its jump. |
| `JumpThreading.Fn.SimplJmp` | qbe_basic_integrated/qbe_source/cfg.c:325-362 | The jumps of the result go straight to the representatives of the original successors, and the successor fields of every block, the new one included, are exactly the targets of its jump. |
| `JumpThreading.EdgesAreMoves` | qbe_basic_integrated/qbe_source/cfg.c:350-359 | So the edges that later passes follow are exactly the moves of execution: a collapsed branch keeps no second successor. |
| `JumpThreading.NoJumpToEmptyBlock` | qbe_basic_integrated/qbe_source/cfg.c:325-362 | No jump leads to an empty block any more, unless that block jumps to itself. |
| `JumpThreading.SilentRun` | qbe_basic_integrated/qbe_source/cfg.c:343-348 | The original reaches a representative without executing anything, in as many steps as the links record. |
| `JumpThreading.ThreadingPreservesMeaning` | qbe_basic_integrated/qbe_source/cfg.c:325-362 | The sequence of executed blocks, the state, the way of leaving and divergence are preserved in both directions, cycles of empty blocks included. |
| `BranchInference.ReachRec` | qbe_basic_integrated/qbe_source/cfg.c:364-379 | The search answers yes only with a path that avoids the marked blocks before its target, and no only with a closed set of marks. |
| `BranchInference.ReachesNotVia` | qbe_basic_integrated/qbe_source/cfg.c:381-401 | The answer is yes exactly when a path exists that does not pass through the excluded block on its way; the marks are cleared. |
| `BranchInference.BranchDom` | qbe_basic_integrated/qbe_source/gvn.c:293-304 | branchdom computes dominance by one side and unreachability from the other. |
| `BranchInference.BranchDomExact` | qbe_basic_integrated/qbe_source/gvn.c:293-304 | For a branch that dominates the block, a side is accepted if and only if every path leaves its last visit to the branch by that side. |
| `BranchInference.NotSince` | qbe_basic_integrated/qbe_source/gvn.c:321-345 | A block that dominates the branch is not visited again between the last visit to the branch and the block: the tested value is not recomputed. |
| `BranchInference.CmpStillHolds` | qbe_basic_integrated/qbe_source/gvn.c:274-291 | An equality comparison made above a block still fits its operands there. |
| `BranchInference.CmpOutcome` | qbe_basic_integrated/qbe_source/gvn.c:282-288 | Wherever ceqw, cnew, ceql or cnel with zero is right, its result is zero exactly when "the operand is zero, in 32 bits for the word comparisons and in 64 for the others" differs from eqval. |
| `BranchInference.CmpEqz` | qbe_basic_integrated/qbe_source/gvn.c:274-291 | cmpeqz answers exactly for the equality comparisons of words and longs with the constant zero, and then with an operand, class and eqval that tell from the result whether the operand is zero; the operand is available where the comparison is made. |
| `BranchInference.DomZero` | qbe_basic_integrated/qbe_source/gvn.c:306-318 | domzero finds a side exactly when branchdom accepts one. |
| `BranchInference.ZeroVal` | qbe_basic_integrated/qbe_source/gvn.c:320-345 | An answer is right in every execution that reaches the block, and there is one exactly when some strict dominator's branch settles the question. |
| `BranchInference.UseCls` | qbe_basic_integrated/qbe_source/gvn.c:347-371 | usecls gives the widest class with which the use reads the temporary, or the class asked about if it does not read it. |
| `BranchInference.PropJnz0` | qbe_basic_integrated/qbe_source/gvn.c:373-392 | Where a use is replaced by zero, it reads zero in every execution, with the class of the use, a phi at the end of the predecessor; and it is replaced exactly when the zero side has the branch as its only predecessor, the widest class of the use is the one tested, and branchdom accepts. |
| `BranchInference.DedupJmp` | qbe_basic_integrated/qbe_source/gvn.c:414-425 | A branch becomes a jump to one of its successors exactly when they are equal, its argument is a constant or a dominating branch settles it; this changes no execution, unless the argument is a constant whose low 32 bits alone are zero. |
| `BranchInference.CutConstantGoesWrong` | qbe_basic_integrated/qbe_source/gvn.c:417-425 | On such a constant every execution that passes the branch is lost: jnz takes the second successor and the collapsed jump the first. |
| `BranchInference.CutConstantExact` | qbe_basic_integrated/qbe_source/gvn.c:414-425 | Where an execution passes a branch on a constant, the collapse keeps all executions if and only if the constant is zero or not zero in its low 32 bits. |
| `BranchInference.CutConstantExample` | qbe_basic_integrated/qbe_source/gvn.c:417-425 | The smallest function on which executions are lost. |
| `LoopDepth.LoopMark` | qbe_basic_integrated/qbe_source/cfg.c:223-234 | From a block of the loop, loopmark marks blocks of the loop only and leaves no unmarked predecessor in it; each new mark multiplies the depth once. |
| `LoopDepth.FillLoop` | qbe_basic_integrated/qbe_source/cfg.c:303-311 | The depth of a block is ten to the number of headers that it can reach without passing a smaller block number. |
| `LoopDepth.StartIsShallow` | qbe_basic_integrated/qbe_source/cfg.c:303-311 | As nothing jumps to the start block, its depth is one, which is least. |
| `GlobalCodeMotion.FillDepth` | qbe_basic_integrated/qbe_source/cfg.c:252-275 | Every block gets its depth in the dominator tree. |
| `GlobalCodeMotion.Lca` | qbe_basic_integrated/qbe_source/cfg.c:277-294 | lca is the nearest block above both. |
| `GlobalCodeMotion.Motion.SchedEarly` | qbe_basic_integrated/qbe_source/gcm.c:34-58 | gcmbid becomes the highest block where the value can be computed, and all operands are marked. |
| `GlobalCodeMotion.Motion.EarlyIns` | qbe_basic_integrated/qbe_source/gcm.c:60-74 | The deeper of the operands' early blocks; the dominance assertion holds. |
| `GlobalCodeMotion.EarlyAboveHome` | qbe_basic_integrated/qbe_source/gcm.c:34-74 | Every legal placement puts an instruction at or below its early block. |
| `GlobalCodeMotion.Motion.BestBid` | qbe_basic_integrated/qbe_source/gcm.c:112-132 | Among the blocks from the late up to the early one, the lowest of least loop depth. |
| `GlobalCodeMotion.Motion.SchedLate` | qbe_basic_integrated/qbe_source/gcm.c:139-194 | All users are settled first, then the temporary gets its final block. |
| `GlobalCodeMotion.Motion.LateIns` | qbe_basic_integrated/qbe_source/gcm.c:196-214 | The block of a user, or none if the user can be eliminated. |
| `GlobalCodeMotion.Motion.LatePhi` | qbe_basic_integrated/qbe_source/gcm.c:216-232 | A phi uses its argument at the end of the predecessors: their nearest common dominator. |
| `GlobalCodeMotion.EarlyAboveUse` | qbe_basic_integrated/qbe_source/gcm.c:112-132 | The early block dominates every use, so that the dominance assertion of bestbid holds. |
| `GlobalCodeMotion.EndIsLegal` | qbe_basic_integrated/qbe_source/gcm.c:34-232 | Once all is settled, the block of each operand dominates every instruction, phi argument and jump that remains. |
| `GlobalCodeMotion.Reached` | qbe_basic_integrated/qbe_source/gcm.c:139-263 | The late pass reaches every needed instruction, except those computed from constants alone. |
| `GlobalCodeMotion.GroundedEarly` | qbe_basic_integrated/qbe_source/gcm.c:34-74 | What is computed from constants alone has the start block as its early block. |
| `GlobalCodeMotion.FinalIsLeast` | qbe_basic_integrated/qbe_source/gcm.c:112-132 | Either way, no block from the late up to the early one has a smaller loop depth than the block chosen. |
| `GlobalCodeMotion.Motion.Gcm` | qbe_basic_integrated/qbe_source/gcm.c:433-452 | The motion is legal whenever a legal placement exists at all. Every instruction that can move stands in the lowest block of least loop depth between its early block and the nearest block above the uses that stay, or in the start block if it is computed from constants alone; without a use that stays the former are dropped. |
| `GlobalCodeMotion.GcmOf` | qbe_basic_integrated/qbe_source/gcm.c:433-452 | The same with the depths that filldepth and fillloop compute: every kept instruction that can move stands at least loop depth. |
| `GlobalCodeMotion.AboveIsDominance` | qbe_basic_integrated/qbe_source/gcm.c:112-132 | The order in the tree is dominance by paths. |
| `IfConversion.IfGraph` | qbe_basic_integrated/qbe_source/cfg.c:403-446 | ifgraph recognises exactly the hammocks of reverse-postorder graphs: if-then, if-else, if-then-else. |
| `IfConversion.OkBranch` | qbe_basic_integrated/qbe_source/ifopt.c:8-22 | An arm fits if nothing in it is pinned but debug locations and it has at most two real instructions. |
| `IfConversion.OkJoin` | qbe_basic_integrated/qbe_source/ifopt.c:25-38 | A join fits if it has at most two phis, all of integer classes. |
| `IfConversion.OkGraph` | qbe_basic_integrated/qbe_source/ifopt.c:40-51 | Both tests on both arms. |
| `IfConversion.Convert` | qbe_basic_integrated/qbe_source/ifopt.c:53-92 | The code of the arms and one select for each phi are appended to the branch block, which then jumps to the join as its only predecessor. |
| `IfConversion.AroundArm` | qbe_basic_integrated/qbe_source/cfg.c:403-446 | An arm dominates nothing but itself. |
| `IfConversion.JoinNotAbove` | qbe_basic_integrated/qbe_source/cfg.c:403-446 | The join does not dominate the branch or the arms. |
| `IfConversion.AfterArms` | qbe_basic_integrated/qbe_source/ifopt.c:53-92 | With both arms run, each side has left what it leaves when it runs alone. |
| `IfConversion.SelectsRun` | qbe_basic_integrated/qbe_source/ifopt.c:68-82 | The selects, run one after the other, assign the phis at once. |
| `IfConversion.ConversionPreservesMeaning` | qbe_basic_integrated/qbe_source/ifopt.c:53-92 | On every machine each state of either function shows the same world as some state of the other; returns and their values agree, divergence too. |
| `IfConversion.IfConvertAt` | qbe_basic_integrated/qbe_source/ifopt.c:98-115 | What one round converts is a hammock of an SSA function that meets the limits and to which the theorem applies; if it converts nothing, there is no hammock that fits. |
| `IfConversionRounds.ResultIsSsa` | qbe_basic_integrated/qbe_source/ifopt.c:53-92 | The converted function is in SSA form again: single definitions, and every use dominated, with the definitions of the arms and of the join's phis moved to the branch block. |
| `IfConversionRounds.ReadyAgain` | qbe_basic_integrated/qbe_source/ifopt.c:98-115 | One round leaves what the next one expects: SSA form, right predecessor lists, and no branch in a block that can no longer be reached. |
| `IfConversionRounds.IfConvert` | qbe_basic_integrated/qbe_source/ifopt.c:98-115 | The whole loop asks every block once, in order: each round converts a hammock that fits, or leaves the function alone because none does; the result is in SSA form. |
| `IfConversionRounds.RoundsPreserveMeaning` | qbe_basic_integrated/qbe_source/ifopt.c:98-115 | So ifconvert as a whole preserves meaning: every state of either function shows the same world as some state of the other, with the same returned values. |
| `WidthAnalysis.BitWidthExact` | qbe_basic_integrated/qbe_source/copy.c:29-42 | bitwidth is the least number of bits: v fits in w bits if and only if bitwidth(v) <= w. |
| `WidthAnalysis.LocalSound` | qbe_basic_integrated/qbe_source/copy.c:116-194 | Each rule of defwidthle is right for one computed value. |
| `WidthAnalysis.SupportedHolds` | qbe_basic_integrated/qbe_source/copy.c:116-194 | Facts about widths that support each other, also in cycles, hold in every execution. |
| `WidthAnalysis.DefWidthLeSound` | qbe_basic_integrated/qbe_source/copy.c:116-194 | A positive answer at width w means that the low word is below 2^w in every execution, if the run met no phi in progress at a smaller width than the one it was asked about and did not judge a word by a shift by the constant 32. |
| `WidthAnalysis.TameIsRight` | qbe_basic_integrated/qbe_source/copy.c:116-194 | That can be read off the function: no word is shifted by the constant 32, and sign extensions on phi cycles do not narrow the queried width while no word is shifted by a constant. |
| `WidthAnalysis.AnswersYes` | qbe_basic_integrated/qbe_source/copy.c:116-194 | A positive answer must come: facts about widths that support each other, around phi cycles included, make defwidthle say yes to every query they cover, whatever phis are being visited. |
| `WidthAnalysis.DefWidthLeExact` | qbe_basic_integrated/qbe_source/copy.c:116-194 | On such functions defwidthle answers yes, at any width below 32, if and only if there are facts that support each other and bound the value. |
| `WidthAnalysis.ShiftBy32Exact` | qbe_basic_integrated/qbe_source/copy.c:158-170 | For every word shifted by the constant 32: a logical shift is accepted at every width, an arithmetic one if the operand has 31 bits, and the answer at width w is right if and only if it is right for the operand. |
| `WidthAnalysis.NarrowedPhiExact` | qbe_basic_integrated/qbe_source/copy.c:137-153 | Where a phi is met again at a smaller width because of sign extensions that phis and copies carry to the temporary asked about, the positive answer is right if and only if no execution gives the operand of one of them the sign bit. |
| `WidthAnalysis.LoopCarriedExtension` | qbe_basic_integrated/qbe_source/copy.c:341-343 | A byte below 128 that a loop sign-extends on every round is found to need no extension, rightly. |
| `WidthAnalysis.ShiftBy32GoesWrong` | qbe_basic_integrated/qbe_source/copy.c:158-170 | A word shifted by the constant 32 is accepted as zero, but is not. |
| `WidthAnalysis.NarrowedPhiGoesWrong` | qbe_basic_integrated/qbe_source/copy.c:137-153 | The visit bit ignores the width: a phi of 128 and its own sign extension is accepted at 8 bits, but grows wider. |
| `ConstantFolding.FoldMeaning` | qbe_basic_integrated/qbe_source/fold.c:68-88 | At word size the folded bits depend only on the low 32 bits of the operands, and are what a 32-bit machine computes; at long size likewise. |
| `ConstantFolding.FoldCompare` | qbe_basic_integrated/qbe_source/fold.c:101-118 | Comparisons of words through sign extension to 64 bits are right, the unsigned ones included. |
| `ConstantFolding.FoldIntTotal` | qbe_basic_integrated/qbe_source/fold.c:58-66 | On integers folding is refused exactly for division by zero and the overflowing quotient. |
| `ConstantFolding.FoldIntCorrect` | qbe_basic_integrated/qbe_source/fold.c:16-152 | A folded constant, symbolic addresses included, has the value the machine computes from the values of the operands. |
| `ConstantFolding.OpFoldExact` | qbe_basic_integrated/qbe_source/fold.c:205-221 | The constant that opfold registers for two integers is exactly the word or long that the machine computes, comparisons included. |
| `ConstantFolding.OpFoldCorrect` | qbe_basic_integrated/qbe_source/fold.c:205-221 | The registered constant, a symbol with an offset included, has in its low bits what the instruction computes from the values of the operands, wherever the symbols are. |
| `ConstantFolding.FoldSumTotal` | qbe_basic_integrated/qbe_source/fold.c:33-55 | Sums and differences are given up if and only if no constant has the right value wherever the symbols are. |
| `ConstantFolding.Truncation` | qbe_basic_integrated/qbe_source/fold.c:72-73 | Division rounds towards zero: the dividend is divisor times quotient plus remainder, and the remainder is smaller than the divisor and has the sign of the dividend. |
| `ConstantFolding.SignedIs` | qbe_basic_integrated/qbe_source/fold.c:72-80 | The signed reading of a pattern is the one number of the signed range with the same low bits. |
| `ConstantFolding.ExtendedIs` | qbe_basic_integrated/qbe_source/fold.c:83-88 | An extension is the one number of its range, signed or not, with the same low 8, 16 or 32 bits. |
| `ConstantFolding.BitOperations` | qbe_basic_integrated/qbe_source/fold.c:77-79 | And, or and xor act on each bit by itself. |
| `ConstantFolding.Comparisons` | qbe_basic_integrated/qbe_source/fold.c:101-119 | The outcome of each of the ten comparisons, the signed ones as unsigned ones after adding half the range. |
| `ConstantFolding.AssocConApplies` | qbe_basic_integrated/qbe_source/gvn.c:180-213 | On integer constants re-association applies exactly when the operations match, and the constant that is added is not negative, the one subtracted positive or the least of its width. |
| `ConstantFolding.AssocConSound` | qbe_basic_integrated/qbe_source/gvn.c:180-231 | For every operand the single new instruction yields what the two did, with mixed additions and subtractions and a wide inner under a word outer operation. |
| `BlitExpansion.ChunkMoves` | qbe_basic_integrated/qbe_source/simpl.c:20-29 | Four instructions move one chunk and touch no older temporary. |
| `BlitExpansion.Emitter.Blit` | qbe_basic_integrated/qbe_source/simpl.c:3-31 | For every size the emitted code is the chunks of 8, 4, 2 and 1 bytes, run upwards for a non-negative size and downwards for a negative one. |
| `BlitExpansion.ExpandCopies` | qbe_basic_integrated/qbe_source/simpl.c:3-31 | Together the chunks copy the block at once, whenever their order is safe. |
| `BlitExpansion.OrderMatters` | qbe_basic_integrated/qbe_source/simpl.c:3-31 | For every size and every pair of addresses, the code is a memmove on every memory if and only if the order is safe or there is a single chunk. |
| `BlitExpansion.FixOverlap` | qbe_basic_integrated/qbe_source/mem.c:449-465 | The sign is flipped exactly when the target lies above the source, and a copy onto itself is dropped: the order is safe whatever the overlap. |
| `BlitExpansion.FusedBlit` | qbe_basic_integrated/qbe_source/mem.c:449-465 | After fusion, repair and expansion together are a memmove inside the slot. |
| `SlotFusion.RovlapExact` | qbe_basic_integrated/qbe_source/mem.c:121-125 | Two ranges overlap if and only if they share an instruction. |
| `SlotFusion.RaddIsHull` | qbe_basic_integrated/qbe_source/mem.c:127-136 | radd gives the smallest range that contains both. |
| `SlotFusion.Conflicts` | qbe_basic_integrated/qbe_source/mem.c:400-403 | The slow test finds exactly the members of the group that overlap the slot. |
| `SlotFusion.Fuse` | qbe_basic_integrated/qbe_source/mem.c:384-410 | Slots that share a representative have disjoint ranges, the representative is as large as each of them, and no slot could have joined an earlier group. |
| `SlotFusion.AtMostOneLive` | qbe_basic_integrated/qbe_source/mem.c:384-410 | At every instruction at most one slot of a group is live. |
| `SpillSlots.GiveSlot` | qbe_basic_integrated/qbe_source/spill.c:130-153 | The units given to a temporary were free: slots stay disjoint, wide ones aligned, one hole at most, and the extent is two per wide slot and per pair of narrow ones. |
| `SpillSlots.Spiller.Slot` | qbe_basic_integrated/qbe_source/spill.c:124-156 | A request keeps the packing, whatever came before; a temporary keeps its slot. |
| `SpillSlots.Spiller.Finish` | qbe_basic_integrated/qbe_source/spill.c:517-520 | The spill area is rounded up to a multiple of 16 bytes, by less than that. |
| `BasicArrays.Layout` | qbe_basic_integrated/runtime/array_ops.c:88-106 | The strides are the row-major ones, and an empty dimension is refused. |
| `BasicArrays.OffsetOfPlace` | qbe_basic_integrated/runtime/array_ops.c:242-264 | Every position below the total is the offset of an index of the box. |
| `BasicArrays.PlaceOfOffset` | qbe_basic_integrated/runtime/array_ops.c:242-264 | Every index of the box is the one at its offset: the layout is a bijection. |
| `BasicArrays.CalculateOffset` | qbe_basic_integrated/runtime/array_ops.c:242-264 | An index in the box gives its offset, computed in 32-bit terms; any other is refused. |
| `BasicArrays.NextOffset` | qbe_basic_integrated/runtime/array_ops.c:610-619 | The odometer step leads to the index with the next offset, and stops at the last one. |
| `BasicArrays.Advance` | qbe_basic_integrated/runtime/array_ops.c:610-619 | The increment loop computes that step in place. |
| `BasicArrays.CopyBox` | qbe_basic_integrated/runtime/array_ops.c:587-623 | The odometer visits each common index exactly once, in order, and copies its element. |
| `BasicArrays.CopyLine` | qbe_basic_integrated/runtime/array_ops.c:528-554 | The loop for one dimension copies the common elements, if any. |
| `BasicArrays.FirstIndexIsCommon` | qbe_basic_integrated/runtime/array_ops.c:574-608 | The copying loop runs its body before any test; its first index lies in both boxes if and only if they overlap in every dimension. |
| `BasicArrays.DisjointGoesWrong` | qbe_basic_integrated/runtime/array_ops.c:587-608 | If the boxes do not overlap, every element must be zero; but the first round, if its offsets lie in the arrays, stores an old element. |
| `BasicArrays.DisjointExample` | qbe_basic_integrated/runtime/array_ops.c:574-596 | Moving a 2 by 2 array down by five rows, the first read is at offset 10 of four elements. |
| `BasicArrays.IncrementsFit` | qbe_basic_integrated/runtime/array_ops.c:610-619 | The increments of the odometer stay 32-bit integers if and only if every upper bound of the overlap is below the largest one. |
| `BasicArrays.BasicArray.Redim` | qbe_basic_integrated/runtime/array_ops.c:439-656 | REDIM PRESERVE in any number of dimensions: each index of the new box has its old element if it was in the old box, and zero otherwise. |
| `BasicArrays.BasicArray.Set` | qbe_basic_integrated/runtime/array_ops.c:292-301 | A store changes the element at its index and no other. |
| `BasicArrays.BasicArray.Get` | qbe_basic_integrated/runtime/array_ops.c:281-289 | A load reads the element at its index. |
| `BasicArrays.ArrayNew` | qbe_basic_integrated/runtime/array_ops.c:20-122 | A new array is all zero; a bad number of dimensions or an empty one is refused. |

## Left out

- ParallelMoves.MoveGen.Gen: does not bound the shared instruction buffer of `emit`; the buffer is a sequence filled at its head.
- PhiPlacement.Builder.PhiInsTemp: does not model classes (clsmerge).
- PhiPlacement.Builder.PhiIns: does not model classes, and takes the exempted variables, which `Exemption.Exempted` finds, as given.
- SsaConstruction.Construct: expects a function without phis, as the model starts from plain code; input phis, the exemption by phi classes, use lists and the error messages of ssacheck are not modelled.
- Liveness.LiveOn: does not model the gen set, which only the debug dump of live.c reads.
- Liveness.ScanBlock: does not model calls, physical registers, memory operands or the gen sets.
- Liveness.FillLive: does not model calls, physical registers, memory operands or the gen sets.
- Cfg.FillRpo: does not relink the block list or repair phis of removed blocks (fixphis).
- BranchInference.ZeroVal: takes the block that computes each temporary as given; hashing and deduplication of instructions (gvndup) are not modelled.
- BranchInference.DedupJmp: returns the changed function as a value instead of updating the block in place.
- GlobalCodeMotion.Motion.Gcm: chooses the blocks; the ordering inside a block (schedblk) and the sinking of cheap operations are not modelled.
- ConstantFolding.AssocConSound: is about the instruction that assoccon computes, as a value; the table of constants and the use lists are not modelled.
- ConstantFolding.FoldIntCorrect: does not cover conversions from floating point, casts and floating-point folding.
- WidthAnalysis.DefWidthLeSound: the transient visit bit is a set passed down the recursion; usewidthle and narrowpars are not modelled.
- WidthAnalysis.DefWidthLeExact: asks about widths below 32; every word has at most 32 bits.
- SlotFusion.Fuse: takes the slots sorted by size and their live ranges as given; the one-pass slot liveness is not modelled.
- BlitExpansion.Emitter.Blit: addresses do not wrap around.
- BasicArrays.BasicArray.Redim: elements have one abstract type; reference counts of strings and failing allocations are not modelled, and an error ends the program.
- simplcfg: its loop need not end on empty conditional blocks that jump to each other.
- Load optimisation (load.c), alias analysis, instruction selection, the ABI passes, the emitters and register assignment beyond parallel moves.
- The bitsets of util.c are sets here, the instruction buffers sequences.
- Division by powers of two (ulog2, ispow2 in simpl.c) would add only a table look-up and shifts.
- Floating point, the parser of the intermediate language, and memory pools.
