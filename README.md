# A verified model of the PrematureOptimization Decaf compiler core

PrematureOptimization is a compiler for Decaf, the small imperative language used in MIT's
compiler course. It is written in Java and comes with a Python 2 script that compiles each
Decaf program under `programs/` and checks the program's exit status. This project models,
in Dafny, the parts of the compiler whose behaviour can be stated over sets, maps and
sequences:

- the dataflow machinery: the generic set operators, the available-expressions transfer and
  confluence functions, the worklist fixed point, and the construction of its IN sets;
- the flow-graph structures: the `BasicFlowGraph` builder and its branch invariants, the
  undirected `MutableGraph`, depth-first reachability and graph inversion, the live-range
  conflict graph, and the source counter for flow-graph nodes;
- the optimizer decisions: constant propagation, dead-code elimination, and the
  peephole optimizer's reflexive-move and target tests;
- the semantic checks: non-positive array lengths, 64-bit int-literal bounds,
  `break`/`continue` placement, duplicate declarations, a missing `main`, expression-type
  lookup, scope lookup and `BaseType.isA`;
- the small value types: `Variable`, `Label`, `UniqueIdentifier`, `VariableOrdering`,
  `TernaryOperation` replacement and equality, and DOT escaping;
- the test runner: reading the `// Returns:` annotation, judging one program, and
  aggregating the verdict and exit code over a directory.

Each modelled Java or Python source file becomes a Dafny module named after it, sometimes pluralised or shortened (`NonPositiveArrayLength`, `DataflowValues`); a few helper modules (`wrappers.dfy`, `multimaps.dfy`, `reachability.dfy`) hold shared definitions. Where the source
updates an object in place (a flow-graph builder, a mutable graph, a scope, a semantic check
that accumulates errors, an id table, a worklist calculator), the model is a `class` whose
methods state the new state. Where the source computes values, the model uses datatypes and
functions. Most methods are proved against a specification function, and lemmas state what
the source promises about that function; a few, such as `MissingMain.MissingMainSemanticCheck.DoCheck`
and `SemanticUtils.Check`, state their effect directly in their `ensures`. Java exceptions become the `Err` side of a
`Result` or the `Failed` side of a `Status` (`wrappers.dfy`), named after the exception
(`IllegalArgument`, `IllegalState`, `NullPointer`, `Assertion`, `ValueError`). Guava's `HashMultimap`
is a `map<K, set<V>>` (`multimaps.dfy`). A graph `Node` is a class, so node equality is object
identity, as in Java. `Reachable(succ, starts, n)` in `reachability.dfy` is the common notion
of reachability used by the DFS, the in-set construction and the source counter.

## Model

| member | source | states |
|---|---|---|
| Runner.WithoutPrefix | tests/codegen-own/runner.py:18-21 | succeeds exactly when the string starts with the prefix, and then prefix + result is the string; otherwise an AssertionError |
| Runner.WithoutPrefixRoundTrip | tests/codegen-own/runner.py:18-21 | chopping a prefix off prefix + rest gives rest back |
| Runner.PyInt | tests/codegen-own/runner.py:38-39 | Python's `int()` on text: every failure is a ValueError |
| Runner.PyIntAccepts | tests/codegen-own/runner.py:38-39 | `int()` accepts a text exactly when, with surrounding whitespace stripped, it is an optional sign followed by one or more digits |
| Runner.DecimalLiteralOfText | tests/codegen-own/runner.py:38-39 | the decimal text of any integer reads back as that integer |
| Runner.PyIntRoundTrip | tests/codegen-own/runner.py:38-39 | `int()` of the decimal text of n, surrounded by whitespace, is n |
| Runner.FirstWithPrefix | tests/codegen-own/runner.py:31-37 | the index of the first line with the prefix; None exactly when no line has it |
| Runner.ExpectedReturnValue | tests/codegen-own/runner.py:24-39 | the loop with break finds the first `// Returns:` line; no such line raises an AssertionError; the value is `int()` of the text after the prefix |
| Runner.LaterLinesIgnored | tests/codegen-own/runner.py:31-34 | lines after the first annotation do not change the expected value |
| Runner.CommentClaimsValue | tests/codegen-own/runner.py:24-39 | a file whose first annotation is `// Returns: n` claims n |
| Runner.CheckReturnValueJudges | tests/codegen-own/runner.py:52-80 | a program is judged only when its claim parses and the compiler and gcc succeed; it passes exactly when its exit status equals the claim, and the printed line says PASS or FAIL accordingly |
| Runner.SortNames | tests/codegen-own/runner.py:87-89 | the result is sorted and is a permutation of the listing |
| Runner.SortedIsUnique | tests/codegen-own/runner.py:87-89 | two sorted permutations of the same names are equal, so the order checked does not depend on the listing |
| Runner.LessEqTotal | tests/codegen-own/runner.py:87-89 | string order is total |
| Runner.LessEqAntisymmetric | tests/codegen-own/runner.py:87-89 | string order is antisymmetric |
| Runner.LessEqTransitive | tests/codegen-own/runner.py:87-89 | string order is transitive |
| Runner.DecafNames | tests/codegen-own/runner.py:87-89 | a name is kept exactly when it ends in `.dcf`; the result is sorted |
| Runner.DecafNamesCount | tests/codegen-own/runner.py:87-89 | each `.dcf` name occurs as often as in the listing, every other name not at all |
| Runner.ListingOrderIrrelevant | tests/codegen-own/runner.py:87-89 | two listings with the same names give the same files in the same order |
| Runner.CheckProgramsInDirectory | tests/codegen-own/runner.py:82-96 | the verdict and printed lines are those of checking every `.dcf` file in sorted order |
| Runner.CheckFiles | tests/codegen-own/runner.py:91-96 | the loop checks each file, clears all_passed on a failure, and stops at the first exception |
| Runner.RunStops | tests/codegen-own/runner.py:91-96 | once a file raises, later files change neither the error nor the printed lines |
| Runner.ErrIffSomeFileRaises | tests/codegen-own/runner.py:91-96 | the run raises exactly when some file's check raises |
| Runner.AllPassedIffEveryFilePasses | tests/codegen-own/runner.py:91-96 | without an exception every file is checked, one line is printed per file, and the verdict is true exactly when every file passed (so an empty directory passes) |
| Runner.RunMain | tests/codegen-own/runner.py:98-104 | main gives 0 or 1; the script's exit status is 0 exactly when every Decaf program passed, and it raises exactly when some check raises |
| SetOperators.Intersection | src/edu/mit/compilers/common/SetOperators.java:14-21 | the loop of retainAll calls yields the intersection of the family, empty for an empty family |
| SetOperators.IntersectionIsGreatestLowerBound | src/edu/mit/compilers/common/SetOperators.java:14-21 | the intersection is a subset of every input; x is in it exactly when the family is nonempty and every set holds x; an empty family gives the empty set |
| SetOperators.Union | src/edu/mit/compilers/common/SetOperators.java:27-34 | the loop of addAll calls yields the union of the family |
| SetOperators.UnionIsExact | src/edu/mit/compilers/common/SetOperators.java:27-34 | x is in the union exactly when some input holds x |
| SetOperators.Difference | src/edu/mit/compilers/common/SetOperators.java:41-45 | x is in the difference exactly when x is in the first set and not in the second |
| AvailabilitySpec.ContainsMethodCallIffCallSubterm | src/edu/mit/compilers/optimization/AvailabilitySpec.java:133-148 | an expression contains a method call exactly when some subterm is a method call |
| AvailabilitySpec.ContainsMethodCallOfChildren | src/edu/mit/compilers/optimization/AvailabilitySpec.java:133-148 | a non-call expression contains a call exactly when one of its children does |
| AvailabilitySpec.GetInSetFromPredecessors | src/edu/mit/compilers/optimization/AvailabilitySpec.java:86-95 | x is in the IN set exactly when it is in the seed and in the OUT set of every predecessor; with no predecessors the IN set is the seed |
| AvailabilitySpec.GetOutSetFromInSet | src/edu/mit/compilers/optimization/AvailabilitySpec.java:101-109 | x is in the OUT set exactly when it is generated or in the IN set, and not killed (kill overrides gen) |
| AvailabilitySpec.FilterNodes | src/edu/mit/compilers/optimization/AvailabilitySpec.java:113-127 | keeps exactly the nodes that have a value with an expression |
| AvailabilitySpec.GetGenSets | src/edu/mit/compilers/optimization/AvailabilitySpec.java:30-49 | the nodes with a gen set are exactly the nodes whose expression is free of method calls; each generates its expression filed under its general scope; the call fails exactly when building one of those scoped expressions fails |
| AvailabilitySpec.GetInfinum | src/edu/mit/compilers/optimization/AvailabilitySpec.java:71-80 | the result is exactly the scoped expressions of all the nodes, calls included, and fails exactly when building one of them fails |
| AvailabilitySpec.GetGlobals | src/edu/mit/compilers/optimization/AvailabilitySpec.java:193-205 | exactly the global variables some node reads; fails exactly when some node's variables do not resolve |
| AvailabilitySpec.GetPotentiallyChangedVariables | src/edu/mit/compilers/optimization/AvailabilitySpec.java:154-172 | a node may change the target of its assignment, and every global when its expression has a call; nodes changing nothing are absent; fails exactly when a node's variables or an assignment target do not resolve |
| AvailabilitySpec.GetExpressionsContaining | src/edu/mit/compilers/optimization/AvailabilitySpec.java:177-187 | each variable some node reads maps to exactly the scoped expressions of the nodes reading it; fails exactly when a node's variables or scoped expression fail |
| AvailabilitySpec.AddContaining | src/edu/mit/compilers/optimization/AvailabilitySpec.java:181-184 | files the expression under each given variable and leaves every other entry as it was |
| AvailabilitySpec.GetKillSets | src/edu/mit/compilers/optimization/AvailabilitySpec.java:51-68 | fails exactly when some node's variables, scoped expression or assignment target fail; otherwise each node maps to its KILL set, and nodes killing nothing are absent |
| AvailabilitySpec.CollectKills | src/edu/mit/compilers/optimization/AvailabilitySpec.java:58-65 | each node maps to the expressions filed under its victims, and nodes killing nothing are absent |
| AvailabilitySpec.KillsOf | src/edu/mit/compilers/optimization/AvailabilitySpec.java:59-64 | an expression is collected exactly when it is filed under one of the victims |
| AvailabilitySpec.KillsViaIsKillSet | src/edu/mit/compilers/optimization/AvailabilitySpec.java:51-68 | over the maps the two helpers build, the expressions filed under a node's victims are its KILL set |
| AvailabilitySpec.AssignmentKillsReaders | src/edu/mit/compilers/optimization/AvailabilitySpec.java:58-65 | an assignment kills the expression of every node that reads its target |
| AvailabilitySpec.CallKillsGlobalReaders | src/edu/mit/compilers/optimization/AvailabilitySpec.java:154-168 | a node whose expression has a call kills the expression of every node that reads a global |
| AvailabilitySpec.KilledOnlyThroughChangedVariables | src/edu/mit/compilers/optimization/AvailabilitySpec.java:58-65 | nothing else is killed: each killed expression belongs to a node reading the assignment's target, or a global when the node has a call |
| AvailabilitySpec.SelfKillingAssignment | src/edu/mit/compilers/optimization/AvailabilitySpec.java:97-109 | `a = a + 1` kills the expression it generates, so with kill applied after gen that expression is not in its OUT set |
| AvailabilitySpec.ContainsMethodCall | src/edu/mit/compilers/optimization/AvailabilitySpec.java:133-148 | the recursive call check; ContainsMethodCallIffCallSubterm states what it computes |
| AvailabilityCalculator.MeetOfPredecessors | src/edu/mit/compilers/optimization/AvailabilityCalculator.java:73-78 | the meet lies within all subexpressions and within the OUT set of every predecessor |
| AvailabilityCalculator.MeetOnlyReadsPredecessors | src/edu/mit/compilers/optimization/AvailabilityCalculator.java:73-78 | the meet depends only on the predecessors' OUT sets |
| AvailabilityCalculator.Transfer | src/edu/mit/compilers/optimization/AvailabilityCalculator.java:80-83 | GEN is always in the new OUT, nothing outside IN and GEN is, and an element of IN that is not generated survives exactly when it is not killed |
| AvailabilityCalculator.Calculator.MeetPredecessors | src/edu/mit/compilers/optimization/AvailabilityCalculator.java:73-78 | the loop computes the meet, and fails with a null dereference exactly when a predecessor has no OUT set |
| AvailabilityCalculator.Calculator.RunWorklist | src/edu/mit/compilers/optimization/AvailabilityCalculator.java:36-96 | the result is an IllegalState error exactly when the entry has no IN set, and any other error is a null dereference; a run that empties the changed set leaves every non-entry block solved (IN is the meet, OUT the transfer) and the entry solved or at GEN |
| AvailabilityCalculator.Calculator.constructor | src/edu/mit/compilers/optimization/AvailabilityCalculator.java:16-20 | before `calculateAvailability` runs, the calculator has no IN sets |
| AvailabilityCalculator.Calculator.New | src/edu/mit/compilers/optimization/AvailabilityCalculator.java:18-20 | construction propagates the null dereference of `calculateAvailability` and yields no calculator; otherwise, with the corrected in-set construction (see ## Findings), every block reachable from the entry has an IN set, and a converged run solves the dataflow equations |
| AvailabilityCalculator.Calculator.CalculateAvailability | src/edu/mit/compilers/optimization/AvailabilityCalculator.java:27-97 | with the corrected in-set construction, every block reachable from the entry gets an IN set, and a converged run is a solution of the dataflow equations |
| AvailabilityCalculator.Calculator.AvailableAt | src/edu/mit/compilers/optimization/AvailabilityCalculator.java:153-155 | the available subexpressions of a block are its IN set, or none when it has none |
| AvailabilityCalculator.Calculator.CreateInSetsAsWritten | src/edu/mit/compilers/optimization/AvailabilityCalculator.java:103-121 | as written, the IN sets are exactly those of the entry's direct successors, all empty |
| AvailabilityCalculator.AsWrittenInSetsMissBlocks | src/edu/mit/compilers/optimization/AvailabilityCalculator.java:103-121 | on the chain 0 → 1 → 2, the entry 0 and the reachable block 2 get no IN set |
| AvailabilityCalculator.Calculator.CreateInSets | src/edu/mit/compilers/optimization/AvailabilityCalculator.java:103-121 | corrected: a block has an IN set exactly when it is reachable from the entry, and every IN set is empty |
| AvailabilityCalculator.ExploreInSets | src/edu/mit/compilers/optimization/AvailabilityCalculator.java:103-121 | the corrected worklist records exactly the blocks reachable from the entry, each with an empty IN set |
| AvailabilityCalculator.VisitKeepsClosure | src/edu/mit/compilers/optimization/AvailabilityCalculator.java:108-118 | visiting a block keeps the successors of every visited block visited or queued |
| Graphs.Dfs | src/edu/mit/compilers/graph/Graphs.java:26-43 | a node is visited exactly when it is reachable from the starts (so every start is visited and the result is closed under successors) |
| Graphs.ClosedReachableSet | src/edu/mit/compilers/graph/Graphs.java:37-39 | a set that holds the starts and is closed under successors holds every reachable node |
| Graphs.Inverse | src/edu/mit/compilers/graph/Graphs.java:48-65 | the inverse has the same nodes, with successors and predecessors swapped |
| Graphs.InverseIsInvolution | src/edu/mit/compilers/graph/Graphs.java:48-65 | inverting twice gives the graph back |
| Graphs.InverseReversesEdges | src/edu/mit/compilers/graph/Graphs.java:48-65 | b is a successor of a exactly when a is a successor of b in the inverse |
| MutableGraphs.MutableGraph.constructor | src/edu/mit/compilers/graph/MutableGraph.java:15-17 | a new graph has no edges |
| MutableGraphs.MutableGraph.FromGraph | src/edu/mit/compilers/graph/MutableGraph.java:20-27 | copying a directed graph links every edge both ways |
| MutableGraphs.MutableGraph.Link | src/edu/mit/compilers/graph/MutableGraph.java:29-33 | adds a → b and b → a and nothing else, keeping the edges symmetric |
| MutableGraphs.MutableGraph.Unlink | src/edu/mit/compilers/graph/MutableGraph.java:35-41 | fails with IllegalState exactly when the edge is missing; otherwise removes both directions (a self-loop once) and nothing else |
| MutableGraphs.MutableGraph.Remove | src/edu/mit/compilers/graph/MutableGraph.java:43-50 | afterwards the node has no neighbours and no other node lists it; every other edge stays |
| MutableGraphs.MutableGraph.GetNodes | src/edu/mit/compilers/graph/MutableGraph.java:53-55 | the nodes are exactly those with a neighbour |
| MutableGraphs.MutableGraph.GetSuccessors | src/edu/mit/compilers/graph/MutableGraph.java:63-65 | the successors are the node's neighbours |
| MutableGraphs.MutableGraph.GetPredecessors | src/edu/mit/compilers/graph/MutableGraph.java:58-60 | the predecessors are the node's neighbours |
| MutableGraphs.NeighboursAreSymmetric | src/edu/mit/compilers/graph/MutableGraph.java:57-65 | in a symmetric graph b neighbours a exactly when a neighbours b, so successors and predecessors agree |
| MutableGraphs.LinkKeepsSymmetric | src/edu/mit/compilers/graph/MutableGraph.java:29-33 | linking keeps the edge set symmetric |
| MutableGraphs.UnlinkKeepsSymmetric | src/edu/mit/compilers/graph/MutableGraph.java:35-41 | unlinking keeps the edge set symmetric |
| MutableGraphs.RemovedEverywhere | src/edu/mit/compilers/graph/MutableGraph.java:43-50 | removing a node's edges from both ends leaves no edge touching it |
| BasicFlowGraphs.GetNodes | src/edu/mit/compilers/graph/BasicFlowGraph.java:43-49 | the nodes are start, end and every edge endpoint, and nothing else |
| BasicFlowGraphs.GetSuccessors | src/edu/mit/compilers/graph/BasicFlowGraph.java:52-54 | the successors are exactly the forward edges' targets |
| BasicFlowGraphs.GetJumpSuccessor | src/edu/mit/compilers/graph/BasicFlowGraph.java:79-82 | defined exactly at branch points (IllegalArgument elsewhere), and then a successor |
| BasicFlowGraphs.GetJumpType | src/edu/mit/compilers/graph/BasicFlowGraph.java:85-88 | defined exactly at branch points, IllegalArgument elsewhere |
| BasicFlowGraphs.GetNonJumpSuccessor | src/edu/mit/compilers/graph/BasicFlowGraph.java:67-76 | IllegalArgument exactly at non-branches; an assertion failure exactly when no other successor exists; otherwise a successor that is not the jump destination |
| BasicFlowGraphs.BranchHasOneOtherSuccessor | src/edu/mit/compilers/graph/BasicFlowGraph.java:139-155 | in a built graph a branch point has exactly one successor besides its jump destination |
| BasicFlowGraphs.NonBranchHasAtMostOneSuccessor | src/edu/mit/compilers/graph/BasicFlowGraph.java:139-155 | in a built graph a node that is not a branch has at most one successor |
| BasicFlowGraphs.Builder.constructor | src/edu/mit/compilers/graph/BasicFlowGraph.java:130-137 | a new builder has no edges and start == end, one fresh NOP node |
| BasicFlowGraphs.Builder.Link | src/edu/mit/compilers/graph/BasicFlowGraph.java:164-169 | fails exactly when the source already has an outgoing edge; otherwise adds exactly that edge |
| BasicFlowGraphs.Builder.LinkNonJumpBranch | src/edu/mit/compilers/graph/BasicFlowGraph.java:177-184 | fails exactly when the branch point already has a non-jump branch; otherwise adds that edge and records it |
| BasicFlowGraphs.Builder.LinkJumpBranch | src/edu/mit/compilers/graph/BasicFlowGraph.java:187-194 | fails exactly when the branch point already has a jump branch; otherwise adds that edge and its jump destination |
| BasicFlowGraphs.Builder.Append | src/edu/mit/compilers/graph/BasicFlowGraph.java:216-220 | links the old end to the node and makes it the new end; fails when the end already has a successor |
| BasicFlowGraphs.Builder.AppendValue | src/edu/mit/compilers/graph/BasicFlowGraph.java:222-224 | appends a fresh node holding the value |
| BasicFlowGraphs.Builder.AppendBuilder | src/edu/mit/compilers/graph/BasicFlowGraph.java:226-231 | copies the other builder's edges in, links the end to its start and takes its end |
| BasicFlowGraphs.Builder.AppendGraph | src/edu/mit/compilers/graph/BasicFlowGraph.java:233-238 | copies a built graph's edges in, links the end to its start and takes its end |
| BasicFlowGraphs.Builder.LinkNonJumpBranchTo | src/edu/mit/compilers/graph/BasicFlowGraph.java:196-204 | copies the other builder in and makes its start the branch point's non-jump branch |
| BasicFlowGraphs.Builder.LinkJumpBranchTo | src/edu/mit/compilers/graph/BasicFlowGraph.java:196-204 | copies the other builder in and makes its start the branch point's jump branch |
| BasicFlowGraphs.Builder.LinkNonJumpBranchToGraph | src/edu/mit/compilers/graph/BasicFlowGraph.java:206-214 | copies a built graph in and makes its start the branch point's non-jump branch |
| BasicFlowGraphs.Builder.LinkJumpBranchToGraph | src/edu/mit/compilers/graph/BasicFlowGraph.java:206-214 | copies a built graph in and makes its start the branch point's jump branch |
| BasicFlowGraphs.Builder.SetEndToSinkFor | src/edu/mit/compilers/graph/BasicFlowGraph.java:248-253 | links both nodes to a fresh NOP that becomes the end; fails exactly when either already has a successor or they are the same node |
| BasicFlowGraphs.Builder.CopyIn | src/edu/mit/compilers/graph/BasicFlowGraph.java:354-370 | adds every edge of the other builder and keeps its jump destinations |
| BasicFlowGraphs.Builder.CopyInGraph | src/edu/mit/compilers/graph/BasicFlowGraph.java:380-390 | adds exactly the edges of a well-formed graph, branch points through the branch links; an invalid link is an IllegalArgument |
| BasicFlowGraphs.Builder.Build | src/edu/mit/compilers/graph/BasicFlowGraph.java:139-155 | succeeds exactly when every branch point has both a jump and a non-jump branch and every other node at most one edge (IllegalState otherwise), and the graph is then well formed |
| ConstantPropagators.GetConstantScalarAssignment | src/edu/mit/compilers/optimization/ConstantPropagator.java:100-117 | a candidate statement assigns a scalar `=` a native literal, and the result is that literal |
| ConstantPropagators.SameConstant | src/edu/mit/compilers/optimization/ConstantPropagator.java:65-87 | Some(c) exactly when there are definitions and every one is a constant scalar assignment of c; absent for none, for a non-candidate, or for two different literals |
| ConstantPropagators.SameConstantPresence | src/edu/mit/compilers/optimization/ConstantPropagator.java:65-87 | sameConstant is present exactly when the definitions agree on one constant |
| ConstantPropagators.WithExpression | src/edu/mit/compilers/optimization/ConstantPropagator.java:55-60 | the rebuilt statement carries the new expression, and is unchanged when the expression is the same |
| ConstantPropagators.ConstantsPropagated | src/edu/mit/compilers/optimization/ConstantPropagator.java:43-63 | a node without a value or expression is copied unchanged; otherwise every variable with one reaching constant no longer occurs, and the scope is kept |
| ConstantPropagators.PropagateAll | src/edu/mit/compilers/optimization/ConstantPropagator.java:49-58 | after the loop no variable with one reaching constant occurs; with none, the expression is unchanged |
| ConstantPropagators.LeafStaysAbsent | src/edu/mit/compilers/optimization/ConstantPropagator.java:49-58 | replacing a subterm by a literal does not bring back a variable that was absent |
| DeadCodeEliminators.IsLive | src/edu/mit/compilers/optimization/DeadCodeEliminator.java:49-68 | non-assignments are live; for an assignment, an error exactly when its target's scope cannot be resolved |
| DeadCodeEliminators.DeadIsUnobservable | src/edu/mit/compilers/optimization/DeadCodeEliminator.java:56-67 | a dead statement is an assignment, without a method call, to a local variable that is not live |
| DeadCodeEliminators.LiveTargetIsLive | src/edu/mit/compilers/optimization/DeadCodeEliminator.java:56-67 | an assignment whose target is live is live |
| DeadCodeEliminators.LiveIsMonotone | src/edu/mit/compilers/optimization/DeadCodeEliminator.java:49-68 | more live variables never make a live statement dead |
| DeadCodeEliminators.DeadCodeEliminated | src/edu/mit/compilers/optimization/DeadCodeEliminator.java:24-38 | the nodes replaced by NOPs are exactly the valued nodes that are not live; NOPs are skipped; an error exactly when some valued node's liveness errs |
| PeepholeOptimizers.TargetsValue | src/edu/mit/compilers/optimization/PeepholeOptimizer.java:116-176 | calls, enter, leave and return target every value; jumps, push, pop, flag compares, moves to memory and NOPs target none; a move targets exactly its destination |
| PeepholeOptimizers.NeverTargets | src/edu/mit/compilers/optimization/PeepholeOptimizer.java:126-175 | the instructions that write no register target no value |
| PeepholeOptimizers.MoveTargetsItsDestination | src/edu/mit/compilers/optimization/PeepholeOptimizer.java:109-143 | a move targets v exactly when its destination is v, so a reflexive move targets its own source |
| NonPositiveArrayLength.NonPositiveIffSignedValue | src/edu/mit/compilers/semantics/NonPositiveArrayLengthSemanticCheck.java:62-68 | a literal within the long bounds and without a `+` sign is flagged exactly when its 64-bit two's-complement value is at most 0 |
| NonPositiveArrayLength.HexHigh | src/edu/mit/compilers/semantics/NonPositiveArrayLengthSemanticCheck.java:65 | a hex literal of at most 16 digits exceeds Long.MAX_VALUE exactly when it has 16 digits and the first is 8 to F |
| NonPositiveArrayLength.HexZeros | src/edu/mit/compilers/semantics/NonPositiveArrayLengthSemanticCheck.java:66-67 | a hex literal is zero exactly when all its digits are `0` |
| NonPositiveArrayLength.SignedValue | src/edu/mit/compilers/semantics/NonPositiveArrayLengthSemanticCheck.java:62-68 | the 64-bit signed value of a literal lies in the long range |
| NonPositiveArrayLength.ShortHexNotFlagged | src/edu/mit/compilers/semantics/NonPositiveArrayLengthSemanticCheck.java:65 | a hex literal with fewer than 16 digits that is not zero, such as `0x8`, is not flagged |
| NonPositiveArrayLength.FieldErrorsExactly | src/edu/mit/compilers/semantics/NonPositiveArrayLengthSemanticCheck.java:37-57 | an error is reported exactly for a non-void array field whose length is flagged |
| NonPositiveArrayLength.NonPositiveArrayLengthSemanticCheck.constructor | src/edu/mit/compilers/semantics/NonPositiveArrayLengthSemanticCheck.java:19-21 | a new check holds the program and no errors |
| NonPositiveArrayLength.NonPositiveArrayLengthSemanticCheck.DoCheck | src/edu/mit/compilers/semantics/NonPositiveArrayLengthSemanticCheck.java:28-35 | appends the errors of the globals, then of each method's parameters and body, in that order |
| NonPositiveArrayLength.NonPositiveArrayLengthSemanticCheck.CheckScope | src/edu/mit/compilers/semantics/NonPositiveArrayLengthSemanticCheck.java:37-57 | appends one error per flagged array field, in order |
| NonPositiveArrayLength.NonPositiveArrayLengthSemanticCheck.CheckMethods | src/edu/mit/compilers/semantics/NonPositiveArrayLengthSemanticCheck.java:70-77 | appends the errors of each method's parameters and body |
| NonPositiveArrayLength.NonPositiveArrayLengthSemanticCheck.CheckBlock | src/edu/mit/compilers/semantics/NonPositiveArrayLengthSemanticCheck.java:79-94 | appends the errors of the block's fields and of every nested block |
| NonPositiveArrayLength.BlockErrorsAreFieldErrors | src/edu/mit/compilers/semantics/NonPositiveArrayLengthSemanticCheck.java:79-94 | walking a block reports the same errors as checking all of its fields |
| NonPositiveArrayLength.NestedFieldReported | src/edu/mit/compilers/semantics/NonPositiveArrayLengthSemanticCheck.java:79-94 | a flagged array field in any nested block is reported |
| SemanticUtils.Check | src/edu/mit/compilers/semantics/Utils.java:22-32 | appends exactly one formatted error when the condition is false, and nothing otherwise |
| SemanticUtils.ParseLong | src/edu/mit/compilers/semantics/Utils.java:37-46 | a successful parse lies in the signed 64-bit range |
| SemanticUtils.ParseLongRoundTrip | src/edu/mit/compilers/semantics/Utils.java:37-46 | the decimal text of any long, with or without a minus sign, parses back to it |
| SemanticUtils.DecimalWithinBounds | src/edu/mit/compilers/semantics/Utils.java:37-46 | the decimal text of n is within bounds exactly when n is at most Long.MAX_VALUE |
| SemanticUtils.HexWithinBounds | src/edu/mit/compilers/semantics/Utils.java:52-64 | `0x` with hex digits is within bounds exactly when there are 1 to 16 digits |
| SemanticUtils.HexLiteralFits | src/edu/mit/compilers/semantics/Utils.java:52-54 | an accepted hex literal's value fits in 64 bits |
| BreakContinue.BreakContinueSemanticCheck.constructor | src/edu/mit/semantics/BreakContinueSemanticCheck.java:30-32 | a new check holds the program and no errors |
| BreakContinue.BreakContinueSemanticCheck.DoCheck | src/edu/mit/semantics/BreakContinueSemanticCheck.java:35-43 | appends the errors of every method body, each checked as not in a loop |
| BreakContinue.BreakContinueSemanticCheck.CheckBlock | src/edu/mit/semantics/BreakContinueSemanticCheck.java:49-93 | appends one error per break or continue outside a loop; for and while bodies are in a loop, if bodies inherit |
| BreakContinue.SilentInLoop | src/edu/mit/semantics/BreakContinueSemanticCheck.java:67-88 | a block checked as in a loop reports nothing |
| BreakContinue.ReportedIffStray | src/edu/mit/semantics/BreakContinueSemanticCheck.java:49-93 | an error is reported outside a loop exactly when the block holds a break or continue not enclosed by a for or while |
| BreakContinue.CleanIffNoStray | src/edu/mit/semantics/BreakContinueSemanticCheck.java:49-93 | a block outside a loop reports nothing exactly when it has no stray break or continue |
| BreakContinue.ProgramReportedIffStray | src/edu/mit/semantics/BreakContinueSemanticCheck.java:35-43 | the program's errors are exactly the stray jumps of its methods |
| DeclaredTwice.GroupedIsByName | src/edu/mit/semantics/DeclaredTwiceSemanticCheck.java:40-86 | grouping keeps, for each name, its locations in declaration order |
| DeclaredTwice.LocationsNamedRepeated | src/edu/mit/semantics/DeclaredTwiceSemanticCheck.java:198-208 | a name has two or more locations exactly when two declarations use it |
| DeclaredTwice.DuplicatesIff | src/edu/mit/semantics/DeclaredTwiceSemanticCheck.java:198-208 | the errors are exactly one per name declared at least twice, listing all its locations |
| DeclaredTwice.NoDuplicatesIffDistinct | src/edu/mit/semantics/DeclaredTwiceSemanticCheck.java:198-208 | no error exactly when all names are distinct, so a name declared once gives none |
| DeclaredTwice.FieldDeclarations | src/edu/mit/semantics/DeclaredTwiceSemanticCheck.java:161-188 | a block scope's declarations are its fields, by name and location |
| DeclaredTwice.DeclaredTwiceSemanticCheck.constructor | src/edu/mit/semantics/DeclaredTwiceSemanticCheck.java:24-26 | a new check holds the program and no errors |
| DeclaredTwice.DeclaredTwiceSemanticCheck.DoCheck | src/edu/mit/semantics/DeclaredTwiceSemanticCheck.java:28-34 | the errors added are exactly those of the shared callout/global/method namespace and of every method, with each method checked by the corrected `checkMethod` of the third Findings row, so duplicate parameters and top-level locals are reported |
| DeclaredTwice.DeclaredTwiceSemanticCheck.CheckCalloutsAndGlobals | src/edu/mit/semantics/DeclaredTwiceSemanticCheck.java:40-86 | methods, callouts and globals share one namespace, and each name declared twice there is reported |
| DeclaredTwice.DeclaredTwiceSemanticCheck.CheckMethods | src/edu/mit/semantics/DeclaredTwiceSemanticCheck.java:93-113 | adds the errors of every method, each checked by the corrected `checkMethod` of the third Findings row |
| DeclaredTwice.DeclaredTwiceSemanticCheck.CheckMethodAsWritten | src/edu/mit/semantics/DeclaredTwiceSemanticCheck.java:115-138 | as written: only nested blocks are checked, because the parameter map stays empty |
| DeclaredTwice.AsWrittenMissesParameters | src/edu/mit/semantics/DeclaredTwiceSemanticCheck.java:115-125 | a method with two parameters named `x` and no body gets no error as written |
| DeclaredTwice.DeclaredTwiceSemanticCheck.CheckMethod | src/edu/mit/semantics/DeclaredTwiceSemanticCheck.java:115-138 | corrected: parameters and the body's own fields form one scope, checked for duplicates, then nested blocks |
| DeclaredTwice.MethodScopeIff | src/edu/mit/semantics/DeclaredTwiceSemanticCheck.java:115-138 | corrected: a method scope is reported exactly when two of its parameters or top-level locals share a name |
| DeclaredTwice.DeclaredTwiceSemanticCheck.CheckBlock | src/edu/mit/semantics/DeclaredTwiceSemanticCheck.java:140-155 | checks the block's scope and every nested block's scope |
| DeclaredTwice.DeclaredTwiceSemanticCheck.CheckScope | src/edu/mit/semantics/DeclaredTwiceSemanticCheck.java:161-188 | adds exactly the duplicate errors among one scope's fields |
| DeclaredTwice.DeclaredTwiceSemanticCheck.GenerateDuplicateErrors | src/edu/mit/semantics/DeclaredTwiceSemanticCheck.java:198-208 | adds one error for each name with two or more locations, and no other |
| DeclaredTwice.NestedScopeChecked | src/edu/mit/semantics/DeclaredTwiceSemanticCheck.java:140-155 | the duplicates of every nested block's scope are among the errors |
| MissingMain.MissingMainSemanticCheck.constructor | src/edu/mit/semantics/MissingMainSemanticCheck.java:19-21 | a new check holds the program and no errors |
| MissingMain.MissingMainSemanticCheck.DoCheck | src/edu/mit/semantics/MissingMainSemanticCheck.java:24-46 | adds nothing when some method named `main` has no parameters (a `main` with parameters does not count), and exactly one error otherwise |
| EvaluateCheck.EvaluatesTo | src/edu/mit/compilers/ir/EvaluateCheck.java:16-91 | logical, equality and relational operators and NOT give BOOLEAN; arithmetic, NEGATIVE and array length give INTEGER; a scalar has a type exactly when it is declared; an array only when declared with a length |
| EvaluateCheck.ScalarHasInnermostType | src/edu/mit/compilers/ir/EvaluateCheck.java:79-84 | a scalar's type is that of its innermost declaration |
| EvaluateCheck.ArrayNeedsArrayField | src/edu/mit/compilers/ir/EvaluateCheck.java:86-91 | an array location has a type exactly when its innermost declaration has a length |
| EvaluateCheck.InnerDeclarationHides | src/edu/mit/compilers/ir/EvaluateCheck.java:79-91 | a declaration in an inner scope hides an outer one of the same name |
| EvaluateCheck.ScopeMattersOnlyForLocations | src/edu/mit/compilers/ir/EvaluateCheck.java:16-77 | operators and literals get the same type in any scope |
| EvaluateCheck.EvaluatesToIn | src/edu/mit/compilers/ir/EvaluateCheck.java:79-91 | a lookup through a scope object agrees with the type over its visible declarations |
| BaseTypes.IsA | src/edu/mit/compilers/ast/BaseType.java:12-27 | asking about WILDCARD is an IllegalArgument; otherwise true exactly when the types are equal or the type is WILDCARD and the other not VOID |
| BaseTypes.ConcreteTypesAreOnlyThemselves | src/edu/mit/compilers/ast/BaseType.java:16-21 | INTEGER, BOOLEAN and VOID are each only themselves |
| BaseTypes.WildcardIsBooleanOrInteger | src/edu/mit/compilers/ast/BaseType.java:22-23 | WILDCARD is BOOLEAN and INTEGER but not VOID |
| Scopes.Scope.constructor | src/edu/mit/compilers/ast/Scope.java:13-16 | a new scope has its declarations and no parent |
| Scopes.Scope.WithParent | src/edu/mit/compilers/ast/Scope.java:18-21 | a new scope has its declarations and the given parent |
| Scopes.Scope.SetParent | src/edu/mit/compilers/ast/Scope.java:23-25 | the parent becomes the given scope; when that closes no cycle, the visible declarations are the own ones followed by the parent's |
| Scopes.Scope.IsInScope | src/edu/mit/compilers/ast/Scope.java:33-39 | true exactly when this scope or an ancestor declares the name |
| Scopes.Scope.GetFromScope | src/edu/mit/compilers/ast/Scope.java:48-58 | the innermost declaration of the name, present exactly when isInScope holds, and named by the identifier |
| Scopes.LocalDeclarationShadows | src/edu/mit/compilers/ast/Scope.java:50-53 | a local declaration is found before any outer one |
| Scopes.UndeclaredNameIsInherited | src/edu/mit/compilers/ast/Scope.java:54-57 | a name not declared locally is looked up in the parent |
| TernaryOperations.TernaryEquals | src/edu/mit/compilers/ast/TernaryOperation.java:79-112 | two ternaries are equal exactly when their three children are, whatever their locations |
| TernaryOperations.Erase | src/edu/mit/compilers/ast/TernaryOperation.java:79-112 | erasing locations, which equality ignores, keeps the node kind and the number of children |
| TernaryOperations.WithReplacements | src/edu/mit/compilers/ast/TernaryOperation.java:115-125 | a node equal to the target becomes the replacement; otherwise every child is rewritten the same way and a ternary keeps its location |
| TernaryOperations.NoOccurrenceNoChange | src/edu/mit/compilers/ast/TernaryOperation.java:115-125 | without an occurrence of the target the expression is unchanged |
| TernaryOperations.ReplacementsRemoveLeaf | src/edu/mit/compilers/ast/TernaryOperation.java:115-125 | replacing a leaf by an expression without it removes every occurrence |
| TernaryOperations.ReplaceFirst | src/edu/mit/compilers/ast/TernaryOperation.java:127-150 | replaces only the first matching child, in the order condition, true branch, false branch; with no match the node is unchanged |
| TernaryOperations.ReplaceFirstReplacesFirstMatch | src/edu/mit/compilers/ast/TernaryOperation.java:127-146 | the first matching child is replaced and the children before it are kept |
| TernaryOperations.ReplaceFirstKeepsLaterCopies | src/edu/mit/compilers/ast/TernaryOperation.java:127-146 | a later child equal to the target is left alone |
| LiveRanges.ConflictIffSharedNode | src/edu/mit/compilers/regalloc/LiveRange.java:59-61 | two ranges conflict exactly when some node is live in both |
| LiveRanges.ConflictIsSymmetric | src/edu/mit/compilers/regalloc/LiveRange.java:59-61 | conflict is symmetric |
| LiveRanges.SelfConflict | src/edu/mit/compilers/regalloc/LiveRange.java:48-53 | a range live anywhere conflicts with itself |
| LiveRanges.ConflictGraph | src/edu/mit/compilers/regalloc/LiveRange.java:38-56 | one fresh node per range; two nodes are linked exactly when their ranges conflict |
| LiveRanges.ConflictGraphShape | src/edu/mit/compilers/regalloc/LiveRange.java:38-56 | a node has a self-loop exactly when its range is live somewhere, and every edge goes both ways |
| SourceCounters.SourceCounter.constructor | src/edu/mit/compilers/codegen/SourceCounter.java:9-10 | a new counter has no counts |
| SourceCounters.SourceCounter.GetMultiSourceNodes | src/edu/mit/compilers/codegen/SourceCounter.java:13-26 | counts restart on every call; a node is counted exactly when it is reachable; its count is its number of arriving edges, plus one for the start; the result is exactly the nodes counted more than once |
| SourceCounters.SourceCounter.CountFrom | src/edu/mit/compilers/codegen/SourceCounter.java:28-38 | a revisit adds one; a first visit counts the node once and expands its sinks; each node first met in the call adds each of its sink positions exactly once, so no node is expanded twice |
| SourceCounters.FirstVisit | src/edu/mit/compilers/codegen/SourceCounter.java:32-33 | a node met for the first time is counted 1, and its loop starts with none of its sinks counted or met |
| UniqueIdentifiers.UniqueIdentifier.constructor | src/edu/mit/compilers/common/UniqueIdentifier.java:15-16 | a new table has no ids and counter 0 |
| UniqueIdentifiers.UniqueIdentifier.GetId | src/edu/mit/compilers/common/UniqueIdentifier.java:18-24 | a known item keeps its id; a new item gets the counter, which grows by one |
| UniqueIdentifiers.IdsIdentifyItems | src/edu/mit/compilers/common/UniqueIdentifier.java:11 | two items have the same id exactly when they are equal, and every id is below the counter |
| UniqueIdentifiers.IdsAreDense | src/edu/mit/compilers/common/UniqueIdentifier.java:15-21 | every number below the counter is the id of some item, so ids are issued 0, 1, 2 … without gaps |
| VariableOrderings.VariableOrdering.constructor | src/edu/mit/compilers/common/variableordering/VariableOrdering.java:52-60 | a new ordering has no variables and no numbers |
| VariableOrderings.BasicOrderingOf | src/edu/mit/compilers/common/variableordering/VariableOrdering.java:62-69 | the copy holds the same variables, in any order, and (with the corrected walk) numbers exactly them |
| VariableOrderings.VariableOrdering.AddVariable | src/edu/mit/compilers/common/variableordering/VariableOrdering.java:71-77 | the variable becomes the new tail, linked to the old one |
| VariableOrderings.VariableOrdering.AddToOrdering | src/edu/mit/compilers/common/variableordering/VariableOrdering.java:91-102 | the first variable gets 0 and each later one the tail's number plus one; an unnumbered tail is a null dereference |
| VariableOrderings.AddToOrderingKeepsInsertions | src/edu/mit/compilers/common/variableordering/VariableOrdering.java:91-102 | numbering in insertion order gives each variable the position of its last insertion |
| VariableOrderings.VariableOrdering.Compare | src/edu/mit/compilers/common/variableordering/VariableOrdering.java:104-110 | 0 exactly for the same variable; −1 when x's number is smaller, else 1; a null dereference when either is unnumbered |
| VariableOrderings.CompareIn | src/edu/mit/compilers/common/variableordering/VariableOrdering.java:104-110 | compare is 0 exactly when x == y, and fails exactly when one is unnumbered |
| VariableOrderings.CompareFollowsInsertion | src/edu/mit/compilers/common/variableordering/VariableOrdering.java:91-110 | in an ordering built by addToOrdering, x compares below y exactly when x was added before y |
| VariableOrderings.CompareTransitive | src/edu/mit/compilers/common/variableordering/VariableOrdering.java:104-110 | compare is transitive |
| VariableOrderings.VariableOrdering.BuildOrderingAsWritten | src/edu/mit/compilers/common/variableordering/VariableOrdering.java:79-85 | as written: an empty ordering is a null dereference; otherwise it walks from the tail, numbering every variable except the head |
| VariableOrderings.CopyAsWrittenLosesHead | src/edu/mit/compilers/common/variableordering/VariableOrdering.java:79-110 | copying the ordering of `x` then `y`: as written only `y` is numbered, so `compare(x, y)` fails; the corrected walk numbers `y` 0 and `x` 1, so `compare(x, y)` is 1 |
| VariableOrderings.VariableOrdering.BuildOrdering | src/edu/mit/compilers/common/variableordering/VariableOrdering.java:79-85 | corrected: every variable of the chain gets a number, newest first |
| VariableOrderings.CorrectedCopyNumbersNewestFirst | src/edu/mit/compilers/common/variableordering/VariableOrdering.java:62-85 | corrected copy: with distinct variables, the i-th of n variables added gets number n − 1 − i, so every one is numbered |
| Variables.VariableEquals | src/edu/mit/compilers/common/Variable.java:56-74 | two variables are equal exactly when their creator and name are |
| Variables.UserAndCompilerDiffer | src/edu/mit/compilers/common/Variable.java:26-38 | forUser(n) never equals forCompiler(n) |
| Variables.TextsIdentifyVariables | src/edu/mit/compilers/common/Variable.java:40-87 | for names without `$`, equal asText or equal generateName means equal variables |
| Variables.AsTextClashWithDollar | src/edu/mit/compilers/common/Variable.java:40-44 | a user name `C$x` has the same text as the compiler variable `x` |
| Variables.VariableTextIdentifies | src/edu/mit/compilers/common/Variable.java:77-79 | equal `toString` texts mean equal variables |
| Labels.InAttSyntax | src/edu/mit/compilers/codegen/asm/Label.java:41-46 | only STRING labels get a leading `$`; the rest is the label text |
| Labels.PrefixesDiffer | src/edu/mit/compilers/codegen/asm/Label.java:6-16 | the prefixes of two different non-method label types (`.g_`, `.e_`, `.cf_`, `.s_`) both start with `.` and differ in their second character |
| Labels.LabelTextIdentifies | src/edu/mit/compilers/codegen/asm/Label.java:48-50 | equal label texts mean equal labels, as long as no method name starts with `.` |
| Labels.VariableLabelsIdentify | src/edu/mit/compilers/codegen/asm/Label.java:37-50 | a variable label uses generateName, so for names without `$` equal texts mean equal variables |
| Dot.TwoPassesAreOne | src/edu/mit/compilers/tools/Dot.java:11-12 | the two replace passes amount to one pass that puts a backslash before every backslash and every quote |
| Dot.UnescapeEscape | src/edu/mit/compilers/tools/Dot.java:11-12 | escaping backslashes, then quotes, can be undone |
| Dot.PlainLabelUnchanged | src/edu/mit/compilers/tools/Dot.java:11-13 | a label without backslash or quote is emitted unchanged |
| Dot.NodeRoundTrip | src/edu/mit/compilers/tools/Dot.java:7-14 | `id[label="escaped"];` reads back as the id and the label |
| Dot.EdgeRoundTrip | src/edu/mit/compilers/tools/Dot.java:16-18 | `src -> dst;` reads back as the two ids |
| DataflowValues.ResolvedVariablesExactly | src/edu/mit/compilers/optimization/ScopedVariable.java:65-76 | resolving the variables of an expression fails exactly when one is declared in no frame; otherwise each variable is paired with the innermost frame declaring it |
| DataflowValues.FirstDeclaringIsInnermost | src/edu/mit/compilers/optimization/ScopedExpression.java:39-56 | the search stops at the innermost frame declaring one of the variables, and fails with an AssertionError exactly when no frame does |
| DataflowValues.GeneralScopeIsInnermostDeclaring | src/edu/mit/compilers/optimization/ScopedExpression.java:32-57 | the general scope is the global frame for an expression without variables, otherwise the innermost frame declaring one of them; none is an AssertionError, and a missing scope a null dereference |
| DataflowValues.NewScopedExpression | src/edu/mit/compilers/optimization/ScopedExpression.java:23-27 | the scoped expression keeps the expression and is filed under its general scope, failing exactly when that fails |
| DataflowValues.SiblingFramesShareScopedExpression | src/edu/mit/compilers/optimization/ScopedExpression.java:8-14 | an expression over variables declared further out gets the same scoped expression in two sibling blocks |
| DataflowValues.ImmediateDeclarationKeepsScope | src/edu/mit/compilers/optimization/ScopedExpression.java:39-42 | an expression reading a variable of its own frame is filed under that frame |
| DataflowValues.ScopeOf | src/edu/mit/compilers/optimization/ScopedVariable.java:51-62 | the scope that declares a name is the innermost one in the chain that does; none when no scope does |
| Dot.Node | src/edu/mit/compilers/tools/Dot.java:7-14 | the node line; NodeRoundTrip reads it back as its id and label |
| Dot.Edge | src/edu/mit/compilers/tools/Dot.java:16-18 | the edge line; EdgeRoundTrip reads it back as its ids |
| Labels.Prefix | src/edu/mit/compilers/codegen/asm/Label.java:8-26 | the prefix of each label kind; PrefixesDiffer shows no prefix starts another |
| Labels.ForVariable | src/edu/mit/compilers/codegen/asm/Label.java:37-39 | a label named by the variable's generated name; VariableLabelsIdentify shows these labels identify variables |
| Labels.LabelText | src/edu/mit/compilers/codegen/asm/Label.java:48-50 | prefix then name; LabelTextIdentifies shows the text identifies the label |
| Variables.ForUser | src/edu/mit/compilers/common/Variable.java:26-28 | a user variable; UserAndCompilerDiffer shows it never equals the compiler one of the same name |
| Variables.ForCompiler | src/edu/mit/compilers/common/Variable.java:36-38 | a compiler variable; see UserAndCompilerDiffer |
| Variables.AsText | src/edu/mit/compilers/common/Variable.java:40-44 | the name, `C$`-marked for compiler variables; TextsIdentifyVariables and AsTextClashWithDollar state when it identifies variables |
| Variables.GenerateName | src/edu/mit/compilers/common/Variable.java:81-87 | the name, `COMPILER$`-marked for compiler variables; TextsIdentifyVariables states when it identifies variables |
| Variables.VariableText | src/edu/mit/compilers/common/Variable.java:77-79 | the `toString` text; VariableTextIdentifies shows it identifies variables |
| PeepholeOptimizers.IsReflexiveMove | src/edu/mit/compilers/optimization/PeepholeOptimizer.java:109-114 | a move whose source equals its destination |
| NonPositiveArrayLength.IsNonPositiveIntLiteral | src/edu/mit/compilers/semantics/NonPositiveArrayLengthSemanticCheck.java:62-68 | the four textual tests; NonPositiveIffSignedValue shows they flag exactly the literals whose 64-bit value is at most 0 |
| SemanticUtils.IsDecimal | src/edu/mit/compilers/semantics/Utils.java:37-46 | `Long.parseLong` succeeds; DecimalWithinBounds states its bound |
| SemanticUtils.IsHex | src/edu/mit/compilers/semantics/Utils.java:52-54 | `0x` and one to sixteen hex digits; HexWithinBounds and HexLiteralFits state its bound |
| SemanticUtils.IsWithinBounds | src/edu/mit/compilers/semantics/Utils.java:62-64 | decimal or hex in bounds |
| LiveRanges.Conflict | src/edu/mit/compilers/regalloc/LiveRange.java:59-61 | the live-node sets intersect; ConflictIffSharedNode states it |
| MissingMain.IsMain | src/edu/mit/semantics/MissingMainSemanticCheck.java:31-33 | a method named `main` with no parameters |
| Runner.CheckReturnValue | tests/codegen-own/runner.py:52-80 | judging one program; CheckReturnValueJudges states the verdict |
| Runner.Run | tests/codegen-own/runner.py:91-96 | the loop over the outcomes; RunStops, ErrIffSomeFileRaises and AllPassedIffEveryFilePasses state its verdict |

## Left out

- The runner's process plumbing: `runner_path`'s git call, running the compiler, gcc and the binary, and reading files. Each program is a `Fixture`: its lines and an `Execution` of three return codes. The directory listing is a parameter. Printed lines are returned as strings, not written.
- Runner.PyInt: `int()` is modelled as stripping the C whitespace characters, then an optional sign and ASCII digits. CPython 2 leniencies beyond that, such as whitespace between the sign and the digits, are not modelled.
- AvailabilityCalculator `calculateGenSets`, `calculateKillSets` and `getAllSubexpressions` throw "unimplemented" in the source (lines 123-151), so GEN, KILL and the set of all subexpressions are parameters of the calculator. The AvailabilitySpec counterparts `getGenSets`, `getKillSets` and `getInfinum` are modelled.
- `ScopedLocation.java` is not part of this model. The variables of a scoped expression are taken to be the locations `ScopedVariable.getVariablesOf` collects from its expression (children only, so a bare location reads no variable), resolved the same way.
- A scope is represented by its chain of frames, innermost first, and the global scope by the outermost frame; an empty chain stands for a missing scope.
- AvailabilityCalculator.Calculator.RunWorklist: termination is not proved, since the entry's OUT starts below the others and no monotone measure holds in general; a `fuel` parameter bounds the loop, and `Ok(false)` means the fuel ran out.
- AvailabilityCalculator.Calculator.RunWorklist: the starting OUT sets (all subexpressions, GEN for the entry) appear in its body and loop invariant, not in its contract.
- Graphs.Dfs: states the visited set, not that each node is expanded at most once.
- BasicFlowGraph `replace`, `replaceEdge`, `replaceEdgeEnd`, `replaceEdgeStart`, `setStart`, `setEnd` and `builderOf`: graph surgery that the modelled passes do not reach. `replaceEdge` compares a `Node` with a `JumpDestination`, which is never equal in Java; this is not part of this model.
- PeepholeOptimizer `optimize` and `isPushPop`: `optimize` depends on `removeNops`, which is not part of this model.
- Instructions and values are compared structurally; Java's `equals` on the unseen instruction and value classes is taken to be structural.
- Literal equality in constant propagation is structural equality of the literal nodes.
- Locations, operations and scoped expressions are compared structurally. In the source, `BinaryOperation`, `UnaryOperation`, `ScalarLocation` and `ArrayLocation` leave `equals` unimplemented, so Java compares them by identity, and `ScopedExpression.equals` and `TernaryOperation.equals` inherit that. The model reads them as plain values, so textually equal expressions are one available expression (AvailabilitySpec.GetGenSets, AvailabilitySpec.GetKillSets, AvailabilitySpec.GetInfinum, DataflowValues.NewScopedExpression, DataflowValues.SiblingFramesShareScopedExpression), `TernaryOperations.TernaryEquals` compares children by value, and the fresh location built by constant propagation finds its map key (ConstantPropagators.PropagateAll). Under identity these would not merge.
- AvailabilitySpec.GetGenSets: two statements computing textually equal expressions in the same general scope give one GEN element, where Java's identity comparison gives two.
- AvailabilitySpec.GetKillSets: KILL sets hold scoped expressions compared by value, not by identity.
- AvailabilitySpec.GetInfinum: textually equal expressions in one general scope count once, not once per node.
- DataflowValues.NewScopedExpression: the scoped expression is a value, equal to any other with the same expression and scope.
- DataflowValues.SiblingFramesShareScopedExpression: the equality it proves is value equality; under Java's identity comparison the two expressions differ unless they are the same node.
- TernaryOperations.TernaryEquals: compares the three children by value, where Java's child `equals` is identity.
- ConstantPropagators.PropagateAll: the location rebuilt from a variable is found among the constants by value; under Java's identity the fresh `ScalarLocation` matches no key.
- Hash iteration order: the source iterates over `HashMap`s and `HashSet`s. The model picks an arbitrary element, and states errors and results as sets wherever the order would matter.
- Scopes are frames with parent pointers. A scope requires an acyclic parent chain; `setParent` on a scope that would close a cycle is not modelled.
- `ScopedVariable.getScopeOf` resolves a name against a chain of frames, not against the unseen `Scope` API of that class.
- SemanticUtils.ParseLong: `Long.parseLong` is modelled on ASCII digits with an optional sign. Java also accepts other Unicode decimal digits.
- `String.format` is not rendered. An error keeps its format string and arguments.
- Java `int` and `long` widths appear where they matter: the 64-bit bounds of int literals, the two's-complement reading of hex literals, and the 32-bit ids in DOT output.
- The `edu/mit/semantics` copy of NonPositiveArrayLengthSemanticCheck is superseded by the `edu/mit/compilers/semantics` one and is not modelled.
- The Main entry point, the command line, the ANTLR scanner and parser, and AST construction are not part of this model.
- Code emission and dataflow construction are not part of this model: the assembly writer and printers, the control linker, dataflow factories, and instruction text.
- Other passes are not part of this model: the common-subexpression eliminator, subexpression expander, dominator and loop analyses, reaching definitions and liveness specs, register allocation, def-use chains and webs, and expression orderings. They depend on classes that are not shown or that throw "unimplemented".
- Other semantic checks are not part of this model: types, used-before-declared, signature mismatch and incompatible arguments. They are stubs or rely on APIs that are not shown.
- Static node-id counters in the control-flow and dataflow nodes are global mutable state, so they are not modelled.

## Findings

| source | as written | input that shows it | evidently intended | confidence | as-written member | corrected member |
|---|---|---|---|---|---|---|
| src/edu/mit/compilers/optimization/AvailabilityCalculator.java:103-121 | `createInSets` records the successors of the block taken from `toBeVisited`, but never queues them, so only the entry's direct successors get an IN set | blocks 0 → 1 → 2 with entry 0: only block 1 gets an IN set, so `checkState` on the entry (lines 58-60) fails | every block reachable from the entry, the entry included, gets an empty IN set once | not executed | AvailabilityCalculator.AsWrittenInSetsMissBlocks | AvailabilityCalculator.ExploreInSets |
| src/edu/mit/compilers/common/variableordering/VariableOrdering.java:79-85 | `buildOrdering` walks from the tail while the current node has a previous one, so the head is never numbered | copying the ordering of `x` then `y`: only `y` gets a number, so `compare(x, y)` unboxes null, while the corrected walk numbers both and the comparison succeeds | every variable of the chain is numbered | not executed | VariableOrderings.CopyAsWrittenLosesHead | VariableOrderings.CorrectedCopyNumbersNewestFirst |
| src/edu/mit/semantics/DeclaredTwiceSemanticCheck.java:115-125 | `checkMethod` never fills the map of parameters and top-level locals, so their duplicates are never reported | a method with two parameters named `x` | parameters and the body's top-level locals form one scope, and a name declared twice there is reported | not executed | DeclaredTwice.AsWrittenMissesParameters | DeclaredTwice.MethodScopeIff |
