# Verified model of m2c's analyses and rewrites

m2c turns assembly into structured C. This project models the parts of it that are compiler work in the strict
sense, each with a specification that does not depend on how the code computes it, and proves that the code meets
the specification. Run `dafny verify dfyconfig.toml` to check everything.

| modules | what they model | proved against |
|---|---|---|
| `Digraph`, `Dominators`, `Loops`, `FlowGraphs` | dominators, postdominators, immediate-dominator trees, natural loops, infinite-loop termination, reducibility | paths in an arbitrary finite graph |
| `ReachingDefs` | reaching definitions by a walk over the dominator tree | last writers over all paths |
| `DelaySlots`, `BlockBuilding`, `GccLikely`, `BranchSimulation`, `LoweringProof`, `DuplicatedSlots`, `RefusedSlots`, `LabelNames` | lowering of delay slots and branch-likely instructions | a machine with delay slots |
| `Conditions`, `ChainShapes`, `IfBodies` | recovery of `&&`/`||` conditions and of nested ifs | short-circuit evaluation with side effects; confluence of the collapses |
| `ArmPredication` | conditionally executed instructions to branches, with code motion | predicated execution |
| `TypeStore`, `TypeUnify`, `TypeExample` | type unification by union-find on mutable objects | a partial order of what is known about each class of types |
| `Demangle`, `Demangler`, `Decimals` | the CodeWarrior name parser | the encoding it inverts |
| `StructLayout`, `StructRecords`, `StructSpace`, `StructErrors`, `StructParser` | struct layout with bitfields, packing and anonymous members | disjoint leaves at every depth, no wasted room, alignment; exactly what is recorded and refused |
| `Expressions`, `MulChains`, `Rotates` | multiplication folding, `rlwinm` and `rlwimi` | values modulo 2^32, bit by bit |
| `CompareIdioms`, `PowerIdioms` | branchless PowerPC comparisons; MIPS division and remainder by powers of two | comparison of two's-complement numbers; truncating division |

`Bits`, `PowersOfTwo`, `Words` and `Wrappers` hold what these share. Code that works by updating objects is written as
classes whose methods are proved equal to, or correct for, a specification function on values; the code of
`evaluate.py` and of the idioms is expressions, and so are its functions here.

## Conventions

Nodes of a graph are named by their position in the node list, entry first and terminal last. Types, data, signatures
and parameters of the type checker carry a number that stands for the identity of the object; the ghost `Universe`
keeps a value for each of them, and `Valid()` says that the objects hold these values. An instruction is described by
the locations it reads, writes and clobbers and by its effects; what it computes is an arbitrary function of what it
reads, so each theorem about instructions holds for every meaning they may have.

## Where the code does not do what it says

* The reaching-definitions walk starts the entry node from the caller's registers alone, also if branches lead back to
  the entry. The sources it records are exact for paths that do not come back to the entry. At a use they are exact
  over all paths if and only if one of three holds: some path that does not come back leaves the location unset; none of
  these paths leaves it alone; or each node that touches it and leads back to the entry without a further touch ends in
  a write that is a source of this use anyway (`ReachingDefs.ExactOverAllPathsIff`). In a loop whose head is the entry and
  that counts a register up, the instruction that counts is not recorded as a source of its own input
  (`ReachingDefs.LoopCounterWrong`). The starting sources themselves are exact over all paths if and only if no node on a
  way back to the entry touches a register (`ReachingDefs.EntryExactIffQuiet`).
* An instruction in a delay slot under a label is emitted twice if it does not read what it outputs; what it clobbers is
  not looked at (m2c/flow_graph.py:542-550). Patterns are simplified before, and a replacement clobbers all registers
  that the replaced instructions wrote (m2c/asm_pattern.py:290-299), so `div.fictive` of `Div2S32Pattern2` both reads and
  clobbers its input. Such an instruction does not do the same twice as once, and a branch with it as slot is lowered to
  code that ends differently (`DuplicatedSlots.HalvedTwice`); this is so for exactly the instructions that read what they
  clobber (`DelaySlots.RepeatableIsIdempotent`, `DuplicatedSlots.DuplicationIsExact`).
* Two separate types of kind float and 128 bits never unify, not even when they hold the same data, because only 32
  and 64 bits are accepted for floats (`TypeStore.CopiesUnify`).
* The bitfields of an anonymous member are not recorded in the struct around it: what is recorded are the named bitfields
  of positive width that the struct itself declares (`StructRecords.BitfieldsExact`). Those of an anonymous member of a
  struct are all recorded if and only if it has none (`StructRecords.AnonymousBitfieldsRecorded`), and
  `struct { struct { int a : 3; }; }` does not even count as having bitfields (`StructRecords.BitfieldMissing`).
* A bitfield of width zero changes nothing but the alignment, whereas section 6.7.2.1 of ISO/IEC 9899:1999 lets no more
  bitfields into the unit begun. The next bitfield is in a new unit if and only if the next free bit starts one, or it
  moves to its own type's next unit anyway and that starts one (`StructRecords.AfterZeroWidth`). In
  `struct { int a : 3; int : 0; int b : 3; }` it is not (`StructRecords.ZeroWidthIgnored`).
* `#pragma pack(n)` is meant as a limit on alignment, but every member of a struct that is not packed by attribute is
  put at a multiple of `n`, whatever its type. For a member it works as a limit if and only if the type needs at least
  `n`, or the first free byte that suits the type is a multiple of `n` anyway (`StructSpace.PragmaIsLimit`). The second of
  two characters is at offset `n` (`StructSpace.PragmaSpreads`).
* `DivP2Pattern1` matches when the result register is the input register, although its comment says otherwise. The
  replacement is then wrong for every shift but zero (`PowerIdioms.DivP2Pattern1IsExact`).
* `ModP2Pattern2` matches when `$at` is the input or the result (`PowerIdioms.ModP2Pattern2IsExact`), and the
  `Div2S32` patterns match when the register for the sign bit is `$zero` (`PowerIdioms.Div2S32IsExact`).
* `Div2S16Pattern` matches when the result register is the input register, and is then wrong. In every case it leaves
  the input register shifted where the sequence leaves a sign bit, and does not mark it as clobbered, since the
  replacement writes it as well (`PowerIdioms.Div2S16ResultIsExact`, `PowerIdioms.Div2S16LosesInput`).

## Model

| member | source | states |
|---|---|---|
| Dominators.Fixpoint | m2c/flow_graph.py:1258-1279 | bit `d` of a node's word is set if and only if every path from the entry contains `d` (every `d` for unreachable nodes); the loop ends and its subset assertion always holds |
| Dominators.SettledBitsDominate | m2c/flow_graph.py:1266-1279 | a fixpoint above the dominators has no bit too many, along every path |
| Dominators.Decode | m2c/flow_graph.py:1281-1288 | taking lowest bits one by one yields exactly the set that the word represents |
| Dominators.ImmediateDominators | m2c/flow_graph.py:1291-1305 | the chosen node has the largest key, and the two relations are inverse to each other |
| Dominators.NoTie | m2c/flow_graph.py:1298-1301 | two strict dominators of a reachable node never have equally many dominators, so the index never decides, in irreducible graphs either |
| Dominators.ComputeDominators | m2c/flow_graph.py:1241-1305 | exact dominator sets, and each reachable node but the entry gets the one strict dominator that all others dominate |
| Dominators.BelowSomeChild | m2c/flow_graph.py:1736-1749 | every node strictly below another lies below one of the nodes that one immediately dominates |
| Dominators.BelowOneChild | m2c/flow_graph.py:1736-1749 | it lies below only one of them |
| Digraph.DominatorsLinear | m2c/flow_graph.py:1295-1301 | the dominators of a reachable node are totally ordered in any graph |
| FlowGraphs.PostdominatorsExact | m2c/flow_graph.py:1325-1334 | the run over reversed edges gives exactly the nodes on every path to the terminal |
| Loops.InvReachableWithout | m2c/flow_graph.py:1104-1116 | exactly the nodes with a path to `end` that avoids `without` |
| Loops.InvReachable | m2c/flow_graph.py:1356-1362 | exactly the nodes with a path to `end`, whichever node is popped |
| Loops.CollectLoops | m2c/flow_graph.py:1336-1347 | each head's record is exactly the head, its backedge tails, and the nodes that reach a tail without the head |
| Loops.LoopDominatedByHead | m2c/flow_graph.py:1336-1347 | a reachable member of a natural loop is dominated by the head |
| FlowGraphs.ComputeParents | m2c/flow_graph.py:1231-1236 | the parent lists are the reversed edges |
| FlowGraphs.FlowGraph.ComputeRelations | m2c/flow_graph.py:1224-1347 | afterwards the edges are exactly those that the fields of the nodes say, each once, and every relation is what its name says of them |
| FlowGraphs.EdgesDrawn | m2c/flow_graph.py:756-845 | a basic node goes to its successor and fake successor, a conditional one to both edges, a return to its terminal, a switch to its cases, the terminal nowhere; no edge is listed twice |
| FlowGraphs.FlowGraph.DominatedThroughEdge | m2c/flow_graph.py:1241-1305 | what dominates a node that another goes to is that node itself or dominates the other |
| FlowGraphs.IfWithoutElse | m2c/flow_graph.py:773-781 | in an if without else, the body does not dominate what comes after it |
| FlowGraphs.LoopsSurvive | m2c/flow_graph.py:1374-1377 | an added edge into the childless terminal changes no natural loop of another node |
| FlowGraphs.DominatorsSurvive | m2c/flow_graph.py:1374-1377 | nor the dominators of another node |
| FlowGraphs.FlowGraph.AddFakeEdge | m2c/flow_graph.py:1374-1377 | one dead end is linked, strictly fewer basic nodes are unterminated, dominators and loops of all but the terminal stay |
| FlowGraphs.FlowGraph.TerminateInfiniteLoops | m2c/flow_graph.py:1350-1377 | terminates; every basic node reaches the terminal, only fake edges were added, and dominators and loops of all but the terminal stay |
| FlowGraphs.TopologicalSort | m2c/flow_graph.py:1519-1534 | for any pop order, everything is seen if and only if the forward edges are acyclic and all nodes reachable; no edge is removed twice |
| FlowGraphs.CheckReducible | m2c/flow_graph.py:1536-1556 | true if and only if the graph without backedges is acyclic, every node is reachable and every node reaches the terminal |
| FlowGraphs.FlowGraph.IsReducible | m2c/flow_graph.py:1492-1556 | the same for the flow graph with the relations it has stored |
| ReachingDefs.StepInstruction | m2c/flow_graph.py:1718-1725 | clobbered locations lose their sources, written ones have the instruction as their only source, others keep theirs |
| ReachingDefs.StepExact | m2c/flow_graph.py:1718-1725 | a step takes the last writers over all paths before the instruction to those after it |
| ReachingDefs.PhiLocSources | m2c/flow_graph.py:1621-1662 | the sources that the search back to the dominator meets; none if it meets a clobber or the dominator has none |
| ReachingDefs.PhiExact | m2c/flow_graph.py:1621-1662 | that search, cut off at a strict dominator, gives the last writers over all paths, or none if some path leaves the location unset |
| ReachingDefs.LocsClobberedUntilDominator | m2c/flow_graph.py:1665-1680 | exactly the locations that some instruction between the dominator and the node writes or clobbers |
| ReachingDefs.UnchangedExact | m2c/flow_graph.py:1736-1747 | any other location has at the node the exact sources it had after the dominator |
| ReachingDefs.ChildSources | m2c/flow_graph.py:1736-1747 | a dominated child starts from exact sources of every location |
| ReachingDefs.NoSourcesMeansUnset | m2c/flow_graph.py:1704-1716 | an exact empty source set at a reachable point means that some path leaves the location unset |
| ReachingDefs.UseGraph.ProcessNode | m2c/flow_graph.py:1692-1749 | records exact inputs and uses for the nodes below a node and no others, each visited once, after its immediate dominator |
| ReachingDefs.SubtreesApart | m2c/flow_graph.py:1736-1749 | the subtrees that the recursion enters are disjoint |
| ReachingDefs.BelowIsChildren | m2c/flow_graph.py:1736-1749 | together with the node they are everything below it |
| ReachingDefs.UseGraph.ComputeInputsUses | m2c/flow_graph.py:1683-1760 | an input's recorded sources are exactly its last writers over all paths that do not come back to the entry, and over all paths if and only if what comes back to the entry is harmless to that input; uses mirror inputs; the missing registers are exactly the unset ones read |
| ReachingDefs.ExactOverAllPathsIff | m2c/flow_graph.py:1751-1758 | exact sources over paths that do not come back to the entry are exact over all paths if and only if the location may be unset, no such path leaves it alone, or all that comes back is a source already |
| ReachingDefs.LoopCounterWrong | m2c/flow_graph.py:1751-1758 | a loop at the entry that counts a register up reads the caller's value or its own, and only the caller's is recorded |
| ReachingDefs.QuietEntryIsExact | m2c/flow_graph.py:1751-1758 | with an entry that no register change leads back to, these are the last writers over all paths |
| ReachingDefs.EntryExactIffQuiet | m2c/flow_graph.py:1751-1758 | the starting sources are exact over all paths if and only if nothing that leads back to the entry touches a register |
| DelaySlots.InvertedBranch | m2c/flow_graph.py:198-211 | the inverse of a branch is taken exactly when it is not, and inverting is its own inverse |
| DelaySlots.RepeatableIsIdempotent | m2c/flow_graph.py:542-550 | an instruction that passes the test for duplication does the same twice as once, whatever it computes, if and only if it does not read what it clobbers |
| DuplicatedSlots.DuplicationIsExact | m2c/flow_graph.py:542-550 | a branch over such an instruction under a label is lowered faithfully, for every meaning and from every state, if and only if the instruction does not read what it clobbers |
| DuplicatedSlots.HalvedTwice | m2c/flow_graph.py:542-550 | a division that clobbers its input passes the test, and machine and code end with different values |
| DelaySlots.MachineNeverStuck | m2c/flow_graph.py:501-636 | no accepted program gets stuck on the machine with delay slots |
| BranchSimulation.SimulateBranch | m2c/flow_graph.py:627-633 | a branch and its slot in source order do what the machine does |
| BranchSimulation.SimulateLikely | m2c/flow_graph.py:590-613 | the inverted branch around the slot annuls it exactly when the machine does |
| BranchSimulation.SimulateSkip | m2c/flow_graph.py:551-583 | the skip blocks for a slot with a label run the slot once, whether the branch is taken, not taken or the label entered |
| BranchSimulation.SimulateCall | m2c/flow_graph.py:614-626 | the slot before the call gives the call the arguments and the source it would have had |
| BranchSimulation.RunMatches | m2c/flow_graph.py:472-707 | if each step is matched, runs of any length are: they have ended alike, or are in the same state at related places |
| BranchSimulation.RunsEmitAlike | m2c/flow_graph.py:472-707 | and, whether they end or not, all memory events that one has emitted at any time the other emits too, in the same order, and no others |
| LoweringProof.LabelIsMarked | m2c/flow_graph.py:502-506 | every label of the program is found in the emitted code |
| LoweringProof.UserMarksKnown | m2c/flow_graph.py:556-581 | no generated label is taken for one of the program |
| LoweringProof.StandingIsKept | m2c/flow_graph.py:501-636 | one machine step is one or more steps of the emitted code, from every reachable place |
| LoweringProof.LoweringSimulates | m2c/flow_graph.py:472-707 | the emitted blocks end exactly when, and in the state, exit and memory events in which, the machine with delay slots ends; runs that never end emit the same memory events |
| LoweringProof.LoweringFollows | m2c/flow_graph.py:472-707 | wherever a run of the machine has got to, the code gets to a place that stands for it, in the same state |
| LoweringProof.NoLikelyLeft | m2c/flow_graph.py:590-613 | no branch-likely is left |
| LabelNames.NamesNeverCollide | m2c/flow_graph.py:214-216 | different generated labels, and labels of the program without the reserved prefix, have different names |
| GccLikely.NormalizeGccLikelyBranches | m2c/flow_graph.py:219-258 | the loop computes the normalized program item by item |
| GccLikely.NoCrossingLeft | m2c/flow_graph.py:219-258 | no branch-likely that crosses just one instruction is left |
| GccLikely.NormalizedWf | m2c/flow_graph.py:219-258 | normalizing keeps what the lowering asks of a program |
| GccLikely.NormalizingSimulates | m2c/flow_graph.py:219-258 | normalizing changes no run of the machine with delay slots, neither its end nor, if it never ends, its memory events |
| BlockBuilding.BlockBuilder.NewBlock | m2c/flow_graph.py:151-169 | closes the current block with its label, and does nothing when it is empty |
| BlockBuilding.ProcessDelaySlots | m2c/flow_graph.py:501-636 | one call emits what the specification emits for one item and its slot, failures included |
| BlockBuilding.ProcessAll | m2c/flow_graph.py:674-696 | the builder holds the whole lowered program and the safeguard return, or fails when the specification does |
| BlockBuilding.BuildBlocks | m2c/flow_graph.py:472-707 | fails exactly if an item is refused, for the reason of the first one; for every meaning of the instructions, the numbered nonempty blocks behave as the assembly on a machine with delay slots, in runs that end and in runs that do not, if no duplicated slot reads what it clobbers |
| RefusedSlots.LoweringRefused | m2c/flow_graph.py:501-636 | lowering fails exactly if a branch-likely or call has a label in its slot, a call's slot writes its source, or a jump table or return has a label in a slot that must not run twice; the first such item gives the reason |
| RefusedSlots.ProgramRefused | m2c/flow_graph.py:219-636 | the same for the program before branch-likelies are normalized |
| Conditions.NegatedEval | m2c/if_statements.py:722-733 | negating a condition flips its outcome and runs the same statements |
| Conditions.ComputeNodeParents | m2c/if_statements.py:695-705 | a child's list has one entry for each edge into it, twice for a node with both |
| Conditions.CollapseSimulated | m2c/if_statements.py:722-739 | each of the four collapses keeps the successor and the statements run, in order, of every walk |
| Conditions.CollapseOne | m2c/if_statements.py:708-743 | one collapse of some reducible pair, and none exactly if no node outside the exits has one edge into it alone, from a node whose other edge goes where one of its own does |
| Conditions.CombineIsComplete | m2c/if_statements.py:711-739 | the four shapes are exactly the pairs in which the parent's other edge goes where one of the child's does |
| ChainShapes.Confluent | m2c/if_statements.py:694-743 | what is left in the end, and the number of collapses, do not depend on the pairs picked |
| Conditions.Reduce | m2c/if_statements.py:694-743 | terminates with nothing left to collapse; the result simulates the chain, and some node has exactly the exits of the last chain node, whichever pairs were picked |
| Conditions.TranslatedWalk | m2c/if_statements.py:657-679 | the dictionary of conditions and edges walks as the chain does, first node's statements left out |
| Conditions.TryMakeIfCondition | m2c/if_statements.py:629-766 | succeeds if and only if all edges point forward and some sequence of collapses leaves the first node alone with the exits; then it runs the same statements in the same order, selects the same successor, and leaves out the branch that is the end; a chain of one always succeeds; the edge assertion never fails |
| Conditions.SharedExitJoins | m2c/if_statements.py:629-766 | a chain of any length whose nodes all have an edge to one exit becomes one condition |
| Conditions.TwoNodesJoin | m2c/if_statements.py:719-739 | so does every chain of two nodes with an exit in common |
| Conditions.LongestCondition | m2c/if_statements.py:1036-1047 | shortening ends before the chain is empty, with a condition for what is left, and no longer beginning of the chain can become one condition |
| IfBodies.EndsInJumpNeverFalls | m2c/if_statements.py:300-313 | a body for which the test is true never falls through |
| IfBodies.EndsInJumpIs | m2c/if_statements.py:300-313 | the test is true if and only if the last statement that is written is a jump |
| IfBodies.SplitAtComma | m2c/if_statements.py:379-401 | moving a comma condition and what follows it into an inner if keeps the effect |
| IfBodies.LiftElse | m2c/if_statements.py:275-286 | after an if body that always jumps, the else body may follow the if |
| IfBodies.RewriteIfAnds | m2c/if_statements.py:352-403 | same statements, state and exit as the original if, and no comma condition is left on the right of an outer `&&`; without one there, nothing changes |
| IfBodies.Body.AddIfElse | m2c/if_statements.py:274-289 | the body does what it would do with the if-else appended unchanged; the else body follows the if exactly if the if body ends in a jump, and else the if-else stays as it is |
| ArmPredication.NegatedHolds | m2c/arch_arm.py:317-353 | a negated condition code holds exactly when the code does not, and reads the same flags |
| ArmPredication.InstructionEffects.Add | m2c/arch_arm.py:571-577 | the summary covers one more instruction |
| ArmPredication.InstructionEffects.Separates | m2c/arch_arm.py:559-569 | what may move before the summary is exactly what is independent of every instruction summarized |
| ArmPredication.MovePast | m2c/arch_arm.py:606-620 | an independent instruction may be moved before a stretch of instructions |
| ArmPredication.RunBranchForm | m2c/arch_arm.py:668-693 | the branches and labels of the replacement run the if part or the else part, then the instructions after it |
| ArmPredication.ReplacedMeans | m2c/arch_arm.py:664-693 | the replacement means the instructions before, the predicated run and the instructions after |
| ArmPredication.CommittedMeans | m2c/arch_arm.py:642-666 | giving back the trailing moved instructions leaves a replacement of exactly the consumed input |
| ArmPredication.Match | m2c/arch_arm.py:583-693 | matches exactly at a conditional instruction that is no plain branch; the replacement has the state, effect order and jump outcome of the predicated input, with flag re-checks, a trailing jump and moved instructions; no condition is left in it, and it takes in every run of the condition and its inverse that leaves the flag alone, with what can move to the front of it |
| TypeStore.CompressKeepsRoot | m2c/types.py:171-184 | pointing an object at its root keeps the links acyclic and every root |
| TypeStore.LinkRoots | m2c/types.py:293-294 | putting one root under another merges these two classes and nothing else |
| TypeStore.MergedIsSharper | m2c/types.py:227-293 | what a union knows is consistent, and at least what either type knew: kinds, signs and likely kinds shrink, a size stays |
| TypeStore.Combine | m2c/types.py:227-283 | the checks of the code succeed exactly for compatible types, and leave the merged data |
| TypeStore.KindAssertions | m2c/types.py:256-272 | the assertions on sign, enum and array length never fail |
| TypeStore.OrderIsIrrelevant | m2c/types.py:204-295 | which of two types is unified with which does not matter to whether it succeeds or to what is known |
| TypeStore.CopiesUnify | m2c/types.py:227-253 | a type unifies with a copy of itself if and only if one of its kinds fits its size |
| TypeStore.SizesOfKinds | m2c/types.py:243-250 | floats come in 32 or 64 bits, pointers in 32, void in none, functions in no known size, all others in any |
| TypeStore.SameKindUnifies | m2c/types.py:227-253 | for each kind and size, whether two types of which no more is known unify |
| TypeStore.CompatibleIs | m2c/types.py:220-280 | the checks succeed exactly if some kind is left that comes in the known size, some sign is left, and sizes, structs, enums and array lengths do not contradict each other, and neither is being added to the other |
| TypeStore.OutcomeIs | m2c/types.py:204-295 | what a merged type knows, item by item: kinds, likely kinds, signs, size, pointee, signature, array length, struct, enum |
| TypeStore.UnifiedForGood | m2c/types.py:204-212 | types once equal stay equal |
| TypeStore.ConcreteForGood | m2c/types.py:193-199 | a single kind and a known size are final |
| TypeStore.LinkedAdvances | m2c/types.py:284-294 | the final update refines one class and changes no other |
| TypeStore.CompletedAgree | m2c/types.py:1247-1258 | parameter lists completed from each other agree type by type |
| TypeUnify.TypeData.GetRepresentative | m2c/types.py:171-184 | returns the root; afterwards this object points straight at it, and all representatives are what they were |
| TypeUnify.Type.Data | m2c/types.py:297-301 | the representative, remembered, with no change to any class |
| TypeUnify.TypeData.UnifyParts | m2c/types.py:260-265 | success means that what both point to, and both signatures, agree; failure loses no earlier union, and both roots stay as they were |
| TypeUnify.TypeData.Settle | m2c/types.py:266-295 | both roots are still roots when linked, and they are linked exactly if their data is compatible |
| TypeUnify.TypeData.UnifyData | m2c/types.py:227-295 | the same for a whole call on two unseen roots, in recursion that ends because `seen` grows |
| TypeUnify.Type.UnifySeen | m2c/types.py:213-295 | inside the recursion, classes only merge and refine, also when it fails, and roots in `seen` are untouched |
| TypeUnify.Type.Unify | m2c/types.py:204-295 | success makes both one class that knows exactly what both knew together, and completes their signatures from each other if no other type has these; failure leaves both as they were; without parts in common, success is decided by whether they contradict each other |
| TypeUnify.FunctionSignature.UnifyParams | m2c/types.py:1242-1245 | success means that the parameters agree pair by pair, also where lists grew meanwhile |
| TypeUnify.FunctionSignature.UnifyTypes | m2c/types.py:1239-1245 | success means that return types and parameters agree |
| TypeUnify.FunctionSignature.Reconcile | m2c/types.py:1247-1267 | a side that was known stays; one that was not takes the other's further parameters, is known if the other was and variadic if either was; they still agree |
| TypeUnify.FunctionSignature.FillNames | m2c/types.py:1260-1265 | a missing name is taken from the other side, a present one stays |
| TypeUnify.FunctionSignature.Unify | m2c/types.py:1232-1267 | success means agreement; a known side keeps parameters and flags, and both are known if either was; if only types already met have the two signatures, an unknown side gets exactly the other's further parameters, is known if and only if the other was, and variadic if and only if either was |
| TypeExample.UnifyWords | m2c/types.py:883-956 | an instance: a word, a signed number and a pointer to the word, with word and number unified and one linked under the other |
| Decimals.DecimalInjective | m2c/demangle_codewarrior.py:131-138 | different numbers have different decimal texts |
| Demangle.RoundTrip | m2c/demangle_codewarrior.py:386-395 | parsing the encoding of a well-formed type returns the type and consumes exactly that text, whatever follows |
| Demangle.LettersOfKinds | m2c/demangle_codewarrior.py:178-215 | every kind of one letter has its letter, and no other letter is one |
| Demangle.DocumentedExample | m2c/demangle_codewarrior.py:7-8 | the type in the example that the source gives has the encoding given there |
| Demangle.ReferenceExample | m2c/demangle_codewarrior.py:7-8 | `Bar &` is `R3Bar` |
| Demangle.TemplateExample | m2c/demangle_codewarrior.py:117-175 | `Bar<char, 5>` is `8Bar<c,5>` |
| Demangle.QualifiedExample | m2c/demangle_codewarrior.py:178-370 | `Foo::Bar<char, 5>` is `Q23Foo8Bar<c,5>` |
| Demangle.ArrayExample | m2c/demangle_codewarrior.py:178-370 | an array of ten functions from `void *` starts with `A10_FPv_` |
| Demangle.NameRoundTrip | m2c/demangle_codewarrior.py:129-169 | the same for names, with literals and nested template parameters |
| Demangle.FunctionRoundTrip | m2c/demangle_codewarrior.py:293-305 | the same for function types |
| Demangle.DimRoundTrip | m2c/demangle_codewarrior.py:307-314 | the same for array dimensions |
| Demangle.EncodingInjective | m2c/demangle_codewarrior.py:386-395 | different types have different encodings |
| Demangle.ParseType | m2c/demangle_codewarrior.py:386-395 | never returns more text than it was given, and less unless a separator is ahead, so every parse ends |
| Demangler.Stream.ReadExact | m2c/demangle_codewarrior.py:82-87 | the next characters, or failure with the stream used up |
| Demangler.Stream.ReadNumber | m2c/demangle_codewarrior.py:131-133 | the longest run of number characters ahead |
| Demangler.Stream.ParseName | m2c/demangle_codewarrior.py:129-169 | on the shared stream, result, failure and rest are those of the specification |
| Demangler.Stream.ParseTerm | m2c/demangle_codewarrior.py:279-322 | likewise for terms |
| Demangler.Stream.ParseFunction | m2c/demangle_codewarrior.py:293-305 | likewise for function types |
| Demangler.Stream.ParseType | m2c/demangle_codewarrior.py:386-395 | likewise for types |
| StructLayout.AlignUpIs | m2c/c_types.py:590-590 | rounding up with a mask gives the next multiple of a power of two |
| StructLayout.NextUnitIs | m2c/c_types.py:634-635 | skipping with a mask gives the first multiple after the offset |
| StructLayout.BitfieldInUnit | m2c/c_types.py:630-635 | an unpacked bitfield lies in one aligned unit of its type |
| StructLayout.LaidGood | m2c/c_types.py:560-666 | between any two declarations, ranges so far are increasing and disjoint and end before the next free bit; in a union all start at zero and the offset stays zero |
| StructLayout.StructIsSound | m2c/c_types.py:540-687 | the size is a multiple of the power-of-two alignment, and all ranges lie inside the struct, disjoint, or from zero in a union |
| StructLayout.MemberRecorded | m2c/c_types.py:646-666 | a member is recorded at the offset of its range, which has its size |
| StructLayout.AnonymousRecorded | m2c/c_types.py:586-598 | every field of an anonymous member is recorded, shifted by the offset of its range |
| StructLayout.BitfieldRecorded | m2c/c_types.py:636-643 | a named bitfield is recorded at the start of its range, which has its width |
| StructLayout.EntriesInside | m2c/c_types.py:540-687 | every recorded field and bitfield, nested ones included, lies inside the struct |
| StructRecords.FieldsExact | m2c/c_types.py:540-687 | a field is recorded at an offset if and only if it is a member placed there, or a field of an anonymous member shifted by the offset of this one |
| StructRecords.BitfieldsExact | m2c/c_types.py:605-643 | a bitfield is recorded at a bit if and only if the struct itself declares it, with a name and positive width, and it was placed there |
| StructRecords.CountsBitfields | m2c/c_types.py:605-615 | a struct counts as having bitfields exactly if it declares one itself |
| StructRecords.AnonymousBitfieldLost | m2c/c_types.py:586-598 | a bitfield of an anonymous member is not recorded where it lies, unless a union happens to declare the same one at its start |
| StructRecords.AnonymousBitfieldsRecorded | m2c/c_types.py:586-598 | the bitfields of an anonymous member of a struct are all recorded if and only if it has none |
| StructRecords.BitfieldMissing | m2c/c_types.py:586-598 | a struct around an anonymous struct with a bitfield records none and does not count as having any |
| StructRecords.AfterZeroWidth | m2c/c_types.py:625-635 | after a bitfield of width zero, the next one starts in a new unit if and only if the next free bit starts one, or it straddles its own unit and the next such unit starts one |
| StructRecords.AfterZeroWidthOfSameType | m2c/c_types.py:625-635 | for one type without packing: if and only if the bits taken fill a unit, or it does not fit into the rest |
| StructRecords.ZeroWidthIgnored | m2c/c_types.py:625-626 | two bitfields with one of width zero between them share a unit |
| StructLayout.NaturalDivides | m2c/c_types.py:506-537 | without packing, alignment and size of a type are multiples of what its parts need |
| StructLayout.TypeAligned | m2c/c_types.py:506-537 | without packing, every part of every array element and nested struct of a value at an aligned address is aligned |
| StructLayout.StructIsAligned | m2c/c_types.py:540-687 | the same for the members of a struct, anonymous ones included |
| StructSpace.LeavesOrderly | m2c/c_types.py:506-537 | all scalars of a value, in every array element and nested struct, lie in its bytes, in order and without overlap |
| StructSpace.StructOrderly | m2c/c_types.py:540-687 | the same for the members and bitfields of a struct, anonymous ones included |
| StructSpace.SizesAreFull | m2c/c_types.py:506-537 | scalars fill their bytes, and an array ends exactly where its last element does |
| StructSpace.TypeAlignIs | m2c/c_types.py:506-537 | a type is aligned as its typedef asks, or else as its size, its elements or its struct |
| StructSpace.NoGapAtEnd | m2c/c_types.py:560-666 | the free bits begin where the last range ends |
| StructSpace.MemberStarts | m2c/c_types.py:646-666 | a member starts at the first free byte that is aligned as wanted |
| StructSpace.UnpackedStarts | m2c/c_types.py:646-666 | without packing, at the first free byte that suits both its type and its own request |
| StructSpace.PackedStarts | m2c/c_types.py:566-573 | with the attribute `packed` and no other request, at the first free byte |
| StructSpace.UnpackedAnonymousStarts | m2c/c_types.py:578-590 | an anonymous member starts at the first free byte that suits its own request, or else its struct |
| StructSpace.PackedAnonymousStarts | m2c/c_types.py:566-590 | packed and without a request, at the first free byte |
| StructSpace.PragmaStarts | m2c/c_types.py:572-573 | under `#pragma pack(n)`, a member starts at the first free multiple of `n`, whatever its type |
| StructSpace.PragmaIsLimit | m2c/c_types.py:572-573 | that obeys `n` as a limit if and only if the type needs at least `n`, or the first byte that suits it is a multiple of `n` |
| StructSpace.PragmaSpreads | m2c/c_types.py:572-573 | the second of two characters is at offset `n` |
| StructSpace.StructEnds | m2c/c_types.py:668-680 | a struct ends at the first free byte that is aligned as the struct is |
| StructSpace.LargestAlign | m2c/c_types.py:550-655 | the alignment of a struct is the largest that it or one of its members asks for |
| StructSpace.UnionEnds | m2c/c_types.py:596-664 | a union is as large as its largest member, rounded up to its alignment |
| StructErrors.StructFails | m2c/c_types.py:506-687 | a struct is refused exactly if it has, at any depth, a void member or a bitfield whose type is no scalar of natural alignment, that is aligned, or that is wider than its type |
| StructParser.ParseStructMember | m2c/c_types.py:506-537 | computes the size and alignment, or the error, that the layout properties are about |
| StructParser.Placer.FlushBitfields | m2c/c_types.py:554-558 | moves to the next byte after bits, and does nothing in a union |
| StructParser.ProcessDecl | m2c/c_types.py:560-666 | one declaration updates offset, bits, alignment, union size and the records as specified |
| StructParser.DoParseStruct | m2c/c_types.py:540-687 | the loop computes the struct, or the error, that the layout properties are about |
| Expressions.EarlyUnwrap | m2c/translate.py:3074-3087 | an expression of the same value that is no larger and no temporary that may be looked through |
| MulChains.FoldKeepsValue | m2c/evaluate.py:1029-1064 | base times factor is the value of the expression modulo 2^32, at every level of the recursion |
| MulChains.FoldingKeepsValue | m2c/evaluate.py:1021-1073 | folding keeps the value of every integer expression modulo 2^32, with and without shift chains |
| MulChains.ShiftAndAddFolds | m2c/evaluate.py:1021-1073 | `(x << n) + x` and `(x << n) - x` become one multiplication, unless the factor is one |
| MulChains.ShiftsFold | m2c/evaluate.py:1034-1042 | a shift of a shift is one factor only where shift chains are allowed |
| PowersOfTwo.OneBit | m2c/evaluate.py:1071-1072 | `n & (n - 1) == 0` means that `n` is the power of two that its bit length says |
| Rotates.MaskIsExact | m2c/evaluate.py:1403-1415 | the mask has exactly the bits of MASK(MB, ME), with wrap-around, and none beyond the word |
| Rotates.RlwinmIsExact | m2c/evaluate.py:1418-1483 | with `simplify=False`, each bit of the value is the rotated source bit under the mask, and zero elsewhere |
| Rotates.RlwimiIsExact | m2c/evaluate.py:1486-1512 | each bit of the value is the rotated source bit under the mask, and the base bit elsewhere |
| CompareIdioms.Unshared | m2c/arch_ppc.py:359-377 | the bits that two numbers do not share make up their exclusive disjunction and their difference, which the idioms halve |
| CompareIdioms.LeftmostDifference | m2c/arch_ppc.py:400-407 | the leftmost bit in which two numbers differ tells which is smaller |
| CompareIdioms.Nez1IsExact | m2c/arch_ppc.py:291-299 | for all words, 1 if the word is not zero and 0 otherwise |
| CompareIdioms.Nez2IsExact | m2c/arch_ppc.py:302-308 | the same by sign bits |
| CompareIdioms.LezIsExact | m2c/arch_ppc.py:311-317 | for all words, the signed comparison `<= 0` |
| CompareIdioms.GtzIsExact | m2c/arch_ppc.py:320-326 | for all words, the signed comparison `> 0` |
| CompareIdioms.NeIsExact | m2c/arch_ppc.py:329-336 | for all words, inequality |
| CompareIdioms.LeIsExact | m2c/arch_ppc.py:339-346 | for all words, the signed comparison `<=`, through the carry |
| CompareIdioms.Lt1IsExact | m2c/arch_ppc.py:349-357 | for all words, the signed comparison `<`, through the carry |
| CompareIdioms.Lt2IsExact | m2c/arch_ppc.py:360-368 | for all words, the signed comparison `<`, by half the difference |
| CompareIdioms.Leu1IsExact | m2c/arch_ppc.py:371-379 | for all words, the unsigned comparison `<=`, by half the difference |
| CompareIdioms.Leu2IsExact | m2c/arch_ppc.py:382-388 | for all words, the unsigned comparison `<=`, through the carry |
| CompareIdioms.Ltu1IsExact | m2c/arch_ppc.py:391-397 | for all words, the unsigned comparison `<`, through the carry |
| CompareIdioms.Ltu2IsExact | m2c/arch_ppc.py:400-407 | for all words, the unsigned comparison `<`, by the leftmost difference |
| PowerIdioms.QuotientIs | m2c/arch_mips.py:256-270 | truncating division by any divisor is flooring division of the number, or of the number plus divisor minus one if it is negative |
| PowerIdioms.RemainderIs | m2c/arch_mips.py:207-224 | the remainder that goes with it, from the flooring one |
| PowerIdioms.PowerTest | m2c/arch_mips.py:221-222 | the test on `val` succeeds exactly for powers of two |
| PowerIdioms.ModP2Pattern1IsExact | m2c/arch_mips.py:207-224 | a replacement exists exactly for powers of two and leaves the C remainder, for all registers and words |
| PowerIdioms.ModP2Pattern2IsExact | m2c/arch_mips.py:227-252 | a replacement exists exactly for powers of two, and leaves the C remainder if and only if the operands do not collide with `$at` |
| PowerIdioms.DivP2Pattern1IsExact | m2c/arch_mips.py:255-270 | the replacement leaves the C quotient for all words if and only if the result does not overwrite the input, or the shift is zero |
| PowerIdioms.DivP2Pattern2IsExact | m2c/arch_mips.py:273-314 | in each of the three forms the replacement leaves the C quotient, for all registers and words |
| PowerIdioms.Div2S16ResultIsExact | m2c/arch_mips.py:317-329 | the result is the halved 16-bit number if and only if it does not overwrite the input; then only the input register may differ |
| PowerIdioms.Div2S16LosesInput | m2c/arch_mips.py:317-329 | with the input register counted, the replacement is never exact, except for the register that is always zero |
| PowerIdioms.Div2S32IsExact | m2c/arch_mips.py:332-359 | both forms leave the C quotient by two if and only if the sign bit is not put into the zero register, or the result is dropped |

## Left out

- Reading, printing, command line, caching, the website and output formatting: plumbing without an invariant to prove.
- The C parser: struct layout starts from declarations whose typedefs, dimensions, widths and alignment attributes are evaluated.
- `normalize_ido_likely_branches`: its correctness depends on assumptions about whole functions; the delay-slot model starts after it.
- SH2 delay slots: the check that a slot does not clobber a call's source is written for the two-argument MIPS form.
- Fragments, conditional returns and the block flag `is_safeguard` in `build_blocks`: they add blocks after those modelled.
- `CxxSymbol.parse`: a documented heuristic; the model reports a reference to a symbol as an error of its own.
- `try_build_irregular_switch`, `fold_divmod` and `handle_rlwinm` with `simplify=True`: heuristics that do not always preserve meaning.
- Floating-point instructions, instruction tables, calling conventions and argument guessing.
- The sort of `immediately_dominates` by block index: nodes are named by list position, so the lists are in that order when they are built.
- Labels that control enters from outside an if body in `IfBodies`, and loops and switches inside it, which are opaque statements there.
- `ErrorExpr.negated`: a condition that could not be translated has no value to flip.
- Sharing of one `RefSet` between dictionaries: sets of references are values here, and no recorded set is updated after it was shared.
- The condition code `AL`: it is turned into no condition before the pattern runs.
- Labels that a matched pattern contains and the replacement drops: nothing else is assumed to jump to them.
- BlockBuilding.BuildBlocks: asks that no branch is in a delay slot, because that is undefined, and that labels are unique, not adjacent, and without the reserved prefix; its blocks behave as the assembly if slots that may run twice do not read what they clobber, which is necessary (`DuplicatedSlots.DuplicationIsExact`).
- LoweringProof.LoweringSimulates: asks the same, also that duplicated slots do not read what they clobber.
- What a call writes is written after its slot here, whereas `jal` writes `$ra` before the slot runs; a slot that reads `$ra` is described otherwise than it runs.
- ReachingDefs.UseGraph.ComputeInputsUses: states exactness over paths that do not come back to the entry, because over all paths it is false for some inputs; it says exactly for which it is true.
- ReachingDefs.PhiExact: asks that all nodes are reachable, because the dominators of unreachable nodes are all nodes.
- Rotates.RlwinmIsExact: asks that a literal source is a word, because the code masks it only after shifting it right.
- PowerIdioms.ModP2Pattern1IsExact: asks that the immediates are encodable; larger ones have no instruction.
- PowerIdioms.DivP2Pattern1IsExact: asks that the shift amount fits its five bits.
- Demangle.RoundTrip: asks that names do not start with a digit or `-`, that at most nine qualifiers are used, and that nested function types carry a return type, because the encoding is ambiguous otherwise.
- TypeUnify.FunctionSignature.Unify: states exactly what an unknown side becomes only if no type outside `seen` has one of the two signatures, because otherwise the same signature may be completed from a third one while the parameter types are unified.
- TypeUnify.FunctionSignature.FillNames: states the names for lists without a parameter object in common; a shared object keeps its own name.
