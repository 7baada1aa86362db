# Static-analysis core: a verified model

This project models the algorithms at the heart of the MISRA rule engine, and
three self-contained algorithms around it, and proves what each of them is for.

- **Control-flow graphs** (`Ast`, `Runs`, `CfgSpec`, `SwitchGroups`, `CfgEngine`, and the proofs in
  `CfgWellFormed`, `CfgNodes`, `CfgPaths`, `CfgWiring`, `Readings`, `Agreement`, `CfgTheorem`, `CfgPrune`, `CfgEdges`,
  `CfgTails`, `CfgContinues`, `CfgGotos`, `CfgLabels`, `CfgBranches`, `CfgForks`, `CfgDeviations`). The builder is a class that fills a mutable graph, block by block and edge by
  edge, and the pruning pass rewrites that graph in place. `Runs` gives statement trees a
  meaning in which every condition is a free choice: which nodes of the tree a run meets, a branching node standing for its
  test. The main theorem is that the node sequences of complete runs are exactly those met along paths from entry to exit,
  before and after pruning, `switch` and labels included. Jumps that a tree of statements gives no meaning are told by where they
  lead: `goto` to the last label of its name, which stands first in its block, and `continue` to the innermost loop or `switch`. The kinds of
  the edges are told by what the choices in the tree meet first.
- **Moments** (`Moments`). A `for` is one node of the graph but three parts in C: the init runs once, the step after the body,
  and `continue` leads to the step. `Moments` states runs in C part by part and proves that their tests and statements are
  exactly the runs of nodes above, so the path theorem is a theorem about C as well.
- **Dataflow** (`FlowModel`, `FlowTheory`, `EventPaths`, `ReachingDefs`, `Liveness`, `TaintChains`, `Taint`). The three
  round-robin fixpoint loops, and the reports built on them, are proved equal to statements about paths along the edges and the
  recorded references on them; taint to chains of assignments, each reading what the one before assigned, from a source to a sink.
- **From runs in C to reports** (`PrunedAnalyses`, `Sources`, `EndToEndReads`, `EndToEndStores`, `ForLoops`). Pruning changes
  none of the three analyses. The engine lists all references of a `for` header in its block, the step's before the body; these
  modules say when a read of an uninitialised local in a run in C is reported all the same, and when no run in C reads a
  reported dead store, and give loops in which each fails.
- **Points-to analysis** (`Alias`, `AliasVerdicts`, `AliasExact`, `AliasConfidence`, `AliasAnalysis`). The bounded number of
  passes always ends in a closed map although a copy changes confidences; the map holds exactly what
  copies can bring, with confidences told exactly; each verdict is told from the statements; it is known exactly which verdicts hold over all runs, where names from outside the function may
  hold anything at the start.
- **Recursion detection** (`Recursion`): Tarjan's algorithm with its index, lowlinks and stack.
- **Rule scheduling** (`Planner`, `PlanOrder`, `ExecutionPlanning`, `RuleEngine`, `Schedule`): tiers by memoised
  depth-first search over the declared order of categories and the dependencies, and waves of rules on a worker pool as a state machine over its steps.
- **Incremental reanalysis and rate limiting** (`Incremental`, `RateLimit`).

`Paths`, `SortedNames` and `Collections` hold the shared notions: walks, reachability, cycles, and Python's
string order.

`dafny verify dfyconfig.toml` checks the whole project.

## Choices a reader should know

- The order of dictionary keys is kept where it matters (the blocks of a graph) and is otherwise an
  arbitrary choice, so every result holds for every order. Loops over Python sets and dictionaries are
  loops that take an arbitrary remaining element.
- In the dataflow modules a block has an ordered list of events, as `_block_events` yields them. Everything
  is stated in that order, which is source position.
- A finding's fingerprint is an opaque string carried by the finding. A rule's detector is a function
  of the rule and the attempt number, so retries can change the result but schedules cannot.
- A call that yields a pointer is a fresh block named after its callee, as the analyzer assumes.

## Where the code departs from what one would expect

Each of these is modelled as the code does it.

- A bare compound statement is entered but its end leads nowhere (cfg_engine.py:294-303), and a `do`
  loop is entered at its test (cfg_engine.py:421-431). `Runs.Reading` names the two readings of a
  body: `InC`, what the language says, and `AsBuilt`, what the builder makes of it. For every body without
  `goto` and `continue` across a `switch`, the paths are exactly the `AsBuilt` runs (`CfgTheorem.RawGraphAsBuilt`).
  Whether they are also the runs in C is a check on the tree, `Runs.Faithful`: wherever a run can get, no `do` loop has a body,
  and no bare compound statement may be left at its end, except that empty braces may be a branch of an `if` whose other
  branch is empty or missing. When the nodes of the tree differ, that check decides it both ways
  (`CfgTheorem.FaithfulIsExact`, and `CfgPrune.PrunedFaithfulIsExact` for the graph that `build` returns). `CfgDeviations`
  has concrete bodies that fail it.
- The header of a `for` is listed with the references of its init, test and step together (dataflow_engine_v2.py:132-133), so the
  analyses see the step before the body and the init at every test. A read of an uninitialised local in a run in C is
  reported iff the step of no loop around the read writes the variable, when no other loop writes it in its step alone
  (`EndToEndReads.UninitializedReadReported`); `int x; for (; t; x = 1) use(x);` is missed (`ForLoops.FirstRoundIsMissed`). A
  reported dead store is never read in C when the headers are harmless for it: steps only read or update the variable,
  a test that overwrites it comes with a step that leaves it alone, and an init that overwrites it is not the init of a loop
  around the store (`EndToEndStores.DeadStoreIsNeverRead`). Otherwise stores that C reads are reported: those in step and body of
  every loop whose header overwrites the variable first, when nothing else reads it first (`ForLoops.OverwritersHideStores`), such as
  `for (c = get(); c != EOF; c = get()) n++;` (`ForLoops.StepStoreIsReadAndReported`) and
  `for (i = 0; i < n; i++) { i = j; }` (`ForLoops.BodyStoreIsReadAndReported`).
- The implicit return is decided before gotos are wired (cfg_engine.py:196-215). The end of any body reaches the
  exit, in the built graph and in the pruned one, iff an edge other than a goto's leads to it when the body is built
  (`CfgTails.TailReachesExit`, `CfgTails.PrunedTailReachesExit`). On the tree: go through the top-level statements; a jump or a bare
  compound statement opens a block that nothing leads to, a branch, loop or `switch` opens one that is entered, a label opens
  one, entered from the block before it, only if that holds statements; the end is entered iff the last block opened is
  (`CfgTails.EndReachesExit`). Each `goto` leads to the last label of its name in source order, forward or back, and to the exit when
  there is none (`CfgGotos.GotoGoes`). So a trailing label reached only by `goto` has no way to the exit.
- `continue` goes to the innermost loop or switch (cfg_engine.py:324-325, 451). In every body that is the header of
  the innermost loop iff no switch stands between (`CfgContinues.ContinueGoes`); inside a `switch` in a loop it is the
  block of the `switch`. The same holds in the graph that `build` returns (`CfgContinues.PrunedContinueGoes`).
- `_terminates` (cfg_engine.py:499-500) is asked only about the last block of a case group, which
  never has an outgoing edge at that moment; so the fall-through edge is always added. After a `break` that block is an empty
  one that nothing leads to.
- `may_alias` answers no, with confidence unknown, when either name is not in the map, even when the two
  pointers are equal (alias_analyzer.py:198-201); and the map knows nothing of what a global that the function assigns, or a
  name outside the map, held at the start, nor of stores through a dereference (`*pp = q`). A definite verdict holds over
  all runs iff no copies lead to either pointer from an assigned name from outside (`AliasVerdicts.DefiniteVerdictsIff`), and the
  verdict sees every meeting of two pointers iff it is yes, one of them can never be set, or neither may hold an
  arbitrary address by copies (`AliasVerdicts.MeetingsAreSeenIff`); both when no address is stored through a pointer. With such
  stores the verdicts hold for names that they cannot reach (`AliasVerdicts.AliasesAreSeen`, `AliasVerdicts.DefiniteVerdicts`), and
  `AliasVerdicts.GlobalDefeatsDefiniteNo` and `AliasVerdicts.StoreThroughDefeatsDefiniteNo` are programs with a wrong definite no.
- `build_file_index` never fills `include_edges` (incremental_index.py:30-41), so on an index it built the include
  graph has no edges and only units whose own file changed are selected. `SelectUnits` is proved for any edges.
- The taint findings' description says "on every path"; what the code computes, and the model proves, is
  "on some path" (dataflow_engine_v2.py:429-432). The description is right when no block on the way can be entered from two
  places (`Taint.TextIsRightOnOneWay`); and in every graph with a path to a block around another that also leads to it, some
  program has a reported argument that is untainted on another path (`Taint.TextIsWrongAround`).

## Model

| member | source | states |
|---|---|---|
| CfgEngine.CfgBuilder.BuildBlockSequence | rule-engine/src/misra_platform_rules/analyzers/cfg_engine.py:240-347 | building a statement list in place adds exactly the edges, placements, labels and pending gotos of the reference fragment for that list, in blocks of its own, and records its last block |
| CfgEngine.CfgBuilder.HandleIf | rule-engine/src/misra_platform_rules/analyzers/cfg_engine.py:352-386 | the new builder state is the old one plus the reference fragment of an `if`, and building goes on in the join block |
| CfgEngine.CfgBuilder.HandleLoop | rule-engine/src/misra_platform_rules/analyzers/cfg_engine.py:402-442 | the same for `while`, `for` and `do`, with the loop pushed on the stack for its body |
| CfgEngine.CfgBuilder.HandleSwitch | rule-engine/src/misra_platform_rules/analyzers/cfg_engine.py:444-497 | the same for `switch`, with or without a compound body |
| CfgEngine.CfgBuilder.GroupCases | rule-engine/src/misra_platform_rules/analyzers/cfg_engine.py:460-474 | the one-pass grouping loop cuts the children before each label: laid end to end the groups are the children from the first label on, only their heads are labels, and what precedes the first label is dropped |
| SwitchGroups.CaseGroupsLayOut | rule-engine/src/misra_platform_rules/analyzers/cfg_engine.py:460-474 | the groups of any list, laid end to end, are the list from its first label on, and labels stand only at their heads |
| CfgEngine.CfgBuilder.HandleLabel | rule-engine/src/misra_platform_rules/analyzers/cfg_engine.py:262-271 | a label opens a block only if the current one holds statements, and is bound to the block it lands in |
| CfgLabels.RawLabelsHead | rule-engine/src/misra_platform_rules/analyzers/cfg_engine.py:262-271 | in every body each label that is built is the first statement of some block |
| CfgLabels.PrunedLabelsHead | rule-engine/src/misra_platform_rules/analyzers/cfg_engine.py:262-271 | the same in the graph that `build` returns |
| CfgGotos.GotoGoes | rule-engine/src/misra_platform_rules/analyzers/cfg_engine.py:206-215 | in every body with distinct nodes each `goto` sits in a block that one arc leaves, to the block of the last label of its name in source order, or to the exit when there is no such label |
| CfgGotos.PrunedGotoGoes | rule-engine/src/misra_platform_rules/analyzers/cfg_engine.py:206-217 | the same in the graph that `build` returns |
| CfgGotos.BackwardGoto | rule-engine/src/misra_platform_rules/analyzers/cfg_engine.py:206-209 | in `L: poll(); goto L;` the one arc out of the block leads back to it |
| CfgForks.BranchesAreShown | rule-engine/src/misra_platform_rules/analyzers/cfg_engine.py:352-497 | before and after pruning: for each branch, loop and `switch` in the tree and each way to decide it, an edge of the kind for that way leaves its block, and the node first met behind that edge is the one that C runs first after that decision; no block has two true edges or two false ones |
| CfgEngine.Build | rule-engine/src/misra_platform_rules/analyzers/cfg_engine.py:164-218 | for every body the graph is well formed, is what pruning makes of the reference graph, and no block is left that is empty and only falls through to another; its paths are the runs of the body; edges show the choices in the tree; labels head their blocks; and with distinct nodes no statement sits twice and each `goto` goes to its label |
| CfgWellFormed.StepConfined | rule-engine/src/misra_platform_rules/analyzers/cfg_engine.py:240-347 | every statement, of every kind, adds edges only out of blocks it owns and only into its own blocks, enclosing loop targets or the exit, and never out of the block it ends in |
| CfgNodes.RawGraphWellFormed | rule-engine/src/misra_platform_rules/analyzers/cfg_engine.py:164-215 | for every body, with switch, goto, labels and do: edge ends are blocks, the entry has no predecessor, the exit no successor, and neither holds statements |
| CfgNodes.RawGraphStatementsOnce | rule-engine/src/misra_platform_rules/analyzers/cfg_engine.py:240-347 | when node ids differ, no statement node sits at two places of the graph |
| CfgWiring.WalkWired | rule-engine/src/misra_platform_rules/analyzers/cfg_engine.py:240-497 | a graph that holds the fragment of a statement list, and nothing else in its blocks, has the wiring that the path theorem asks for, for every statement in it |
| CfgPaths.PathToRun | rule-engine/src/misra_platform_rules/analyzers/cfg_engine.py:240-497 | any path to the exit from where a wired list starts begins with some run of the list and goes on where that run's outcome leads |
| CfgPaths.RunToPath | rule-engine/src/misra_platform_rules/analyzers/cfg_engine.py:240-497 | any run of a wired list, followed by a path from where its outcome leads, is a path from where the list starts |
| CfgTheorem.RawGraphAsBuilt | rule-engine/src/misra_platform_rules/analyzers/cfg_engine.py:164-215 | for every body, `switch` and labels included, without goto and `continue` across a switch: t is met along an entry-to-exit path iff it is a complete run in the builder's reading |
| CfgTheorem.RawGraphExact | rule-engine/src/misra_platform_rules/analyzers/cfg_engine.py:164-215 | for every faithfully built body, t is met along an entry-to-exit path iff it is a complete run in C |
| Readings.StructuredIsFaithful | rule-engine/src/misra_platform_rules/analyzers/cfg_engine.py:352-497 | plain statements, labels, if/else, while/for, switch, return, break in loops and switches, and continue in loops are always faithfully built |
| CfgTheorem.FaithfulIsExact | rule-engine/src/misra_platform_rules/analyzers/cfg_engine.py:240-497 | for every body, `switch` and labels included, without goto and `continue` across a switch, whose nodes differ: all complete runs in C are paths and all paths are such runs iff the body passes the check on the tree |
| CfgPrune.PrunedFaithfulIsExact | rule-engine/src/misra_platform_rules/analyzers/cfg_engine.py:164-218 | the same for the graph that `build` returns |
| Readings.ReadingsAgreeOnAll | rule-engine/src/misra_platform_rules/analyzers/cfg_engine.py:294-303 | statement lists that pass the check have the same runs with the same outcomes in both readings |
| Agreement.AgreementMeansClean | rule-engine/src/misra_platform_rules/analyzers/cfg_engine.py:421-431 | a body with distinct nodes and the same complete runs in both readings passes the check |
| CfgDeviations.BareCompoundLosesRuns | rule-engine/src/misra_platform_rules/analyzers/cfg_engine.py:294-303 | a concrete body with a complete run and no path to the exit at all |
| CfgDeviations.DoLoopIsEnteredAtItsTest | rule-engine/src/misra_platform_rules/analyzers/cfg_engine.py:421-431 | a concrete do loop with a run that is no path and a path that is no run |
| CfgDeviations.TrailingLabelHasNoReturn | rule-engine/src/misra_platform_rules/analyzers/cfg_engine.py:196-215 | a concrete body whose trailing label is reachable while the exit is not |
| CfgTails.TailLeadsOut | rule-engine/src/misra_platform_rules/analyzers/cfg_engine.py:196-206 | for every body, with switch, goto and labels: the arcs out of its last block are the implicit return alone, which is there iff something other than a goto leads to that block |
| CfgTails.TailReachesExit | rule-engine/src/misra_platform_rules/analyzers/cfg_engine.py:196-215 | for every body, its last block reaches the exit iff something other than a goto leads to it |
| CfgTails.PrunedTailReachesExit | rule-engine/src/misra_platform_rules/analyzers/cfg_engine.py:196-217 | in the graph that `build` returns the last block is still there, is reached from the entry iff it was, and reaches the exit under the same condition |
| CfgTails.EndReachesExit | rule-engine/src/misra_platform_rules/analyzers/cfg_engine.py:196-217 | for every body, before and after pruning: the last block reaches the exit iff the last block that the top-level statements open is entered; jumps and bare compound statements open blocks that nothing leads to, branches, loops and switches open entered ones, and a label opens one, entered, iff the block before it holds statements |
| CfgContinues.ContinueGoes | rule-engine/src/misra_platform_rules/analyzers/cfg_engine.py:321-328 | for every body, each `continue` is in its block, and one arc leaves that block, to the innermost loop or switch (none outside of both); that is the header of the innermost loop iff no switch stands between |
| CfgContinues.PrunedContinueGoes | rule-engine/src/misra_platform_rules/analyzers/cfg_engine.py:321-328 | the same block and the same single arc in the graph that `build` returns |
| CfgContinues.ContinueInSwitch | rule-engine/src/misra_platform_rules/analyzers/cfg_engine.py:451-451 | a concrete `continue` in a switch in a loop that leads to the block of the switch and not to the header |
| CfgEngine.ControlFlowGraph.ReachableBlocks | rule-engine/src/misra_platform_rules/analyzers/cfg_engine.py:82-92 | the search ends although its stack may repeat blocks, and returns exactly what the entry reaches |
| CfgEngine.ControlFlowGraph.UnreachableBlocks | rule-engine/src/misra_platform_rules/analyzers/cfg_engine.py:94-104 | exactly the blocks that hold statements and that the entry does not reach |
| CfgEngine.ControlFlowGraph.Prune | rule-engine/src/misra_platform_rules/analyzers/cfg_engine.py:502-527 | the in-place pass ends, does nothing but collapse single blocks, keeps the graph well formed, and leaves no empty block whose only edge is a fallthrough to another block |
| CfgEdges.PruningIsExact | rule-engine/src/misra_platform_rules/analyzers/cfg_engine.py:502-527 | a block that pruning takes away was neither entry nor exit, held nothing and had one edge alone, a fallthrough to another block; one that stays keeps its statements and the kinds of its edges in their order |
| CfgPrune.PrunedBlocks | rule-engine/src/misra_platform_rules/analyzers/cfg_engine.py:510-526 | pruning deletes only blocks without statements and changes no block's statements |
| CfgPrune.PrunedReach | rule-engine/src/misra_platform_rules/analyzers/cfg_engine.py:502-527 | for blocks that survive, u reaches v after pruning iff it did before |
| CfgPrune.PrunedTraces | rule-engine/src/misra_platform_rules/analyzers/cfg_engine.py:502-527 | pruning keeps the set of statement sequences along entry-to-exit paths |
| CfgPrune.PrunedFacts | rule-engine/src/misra_platform_rules/analyzers/cfg_engine.py:502-527 | any forward analysis that empty blocks do not affect has the same facts at both ends of surviving blocks, and so has any backward one |
| CfgPrune.PrunedGraphExact | rule-engine/src/misra_platform_rules/analyzers/cfg_engine.py:164-218 | both path theorems for the graph that `build` returns |
| FlowTheory.JustifiedPostSolutionIsExact | rule-engine/src/misra_platform_rules/analyzers/dataflow_engine_v2.py:234-248 | sets that solve the flow equations and hold nothing without a path are exactly the facts some path brings |
| FlowTheory.WalkFactsAreLeast | rule-engine/src/misra_platform_rules/analyzers/dataflow_engine_v2.py:234-248 | the facts that paths bring lie inside every other solution of the equations |
| ReachingDefs.GenExact | rule-engine/src/misra_platform_rules/analyzers/dataflow_engine_v2.py:214-232 | a definition is generated iff it is the last write of its variable in the block, or an uninitialised declaration never written there |
| ReachingDefs.GenAtMostOne | rule-engine/src/misra_platform_rules/analyzers/dataflow_engine_v2.py:223-232 | a block generates at most one definition of each variable |
| ReachingDefs.ReachingDefinitions | rule-engine/src/misra_platform_rules/analyzers/dataflow_engine_v2.py:200-248 | the loop ends; a definition is in OUT of a block iff it is the last write of its variable in its own block, or a bare declaration never written there, and a path along the edges leads from there with no reference in a later block writing the variable |
| ReachingDefs.ReachingDefinitionsLeast | rule-engine/src/misra_platform_rules/analyzers/dataflow_engine_v2.py:234-248 | such sets solve OUT = GEN ∪ (IN − KILL) and lie inside every other solution |
| ReachingDefs.UninitializedReads | rule-engine/src/misra_platform_rules/analyzers/dataflow_engine_v2.py:274-310 | a reference is reported, once, iff it is no write or reads as well, nothing before it in its block writes the variable, and a path whose other blocks do not write it leads there from a block that declares it without a value |
| ReachingDefs.ReachIsArrival | rule-engine/src/misra_platform_rules/analyzers/dataflow_engine_v2.py:200-248 | what the transfer of a block generates and kills, put together along paths, is the same as that statement about edges and references |
| ReachingDefs.ReadIsBare | rule-engine/src/misra_platform_rules/analyzers/dataflow_engine_v2.py:274-310 | the criterion of the scan is that statement about a path and the references on it |
| Liveness.BlockDefUse | rule-engine/src/misra_platform_rules/analyzers/dataflow_engine_v2.py:176-194 | the writes are listed once each in event order, with name and position; a variable is upward exposed iff the first reference to it in the block is no write or reads as well |
| Liveness.LiveOut | rule-engine/src/misra_platform_rules/analyzers/dataflow_engine_v2.py:316-344 | the loop ends; a variable is live at the end of a block iff on some path along the edges onward the next reference to it reads it |
| Liveness.LiveIsReadAfterEnd | rule-engine/src/misra_platform_rules/analyzers/dataflow_engine_v2.py:316-344 | liveness by scanning the references of a path is that a position on it reads the variable and none between refers to it |
| Liveness.LaterIsReadAfter | rule-engine/src/misra_platform_rules/analyzers/dataflow_engine_v2.py:346-368 | the same from any position of a block on |
| Liveness.LiveAfterIsReadLater | rule-engine/src/misra_platform_rules/analyzers/dataflow_engine_v2.py:357-367 | the backward scan from the block-level set decides event-level path liveness at every position |
| Liveness.DeadStores | rule-engine/src/misra_platform_rules/analyzers/dataflow_engine_v2.py:346-368 | a write that does not read is reported, once, iff on no path along the edges going on right after it the next reference to the variable reads it |
| Taint.ScanDistributes | rule-engine/src/misra_platform_rules/analyzers/dataflow_engine_v2.py:374-436 | scanning from a union of tainted sets gives the union of the scans |
| Taint.TaintTransfer | rule-engine/src/misra_platform_rules/analyzers/dataflow_engine_v2.py:374-436 | a variable is tainted after one scan iff it was before and nothing assigns it, or a chain of assignments ends in it: the first calls a source or reads a variable tainted before and not assigned since, each next one reads what the one before assigned with no assignment to that in between, and nothing assigns the last again; exactly the sink arguments so tainted at their call are found |
| Taint.ScanIsCarried | rule-engine/src/misra_platform_rules/analyzers/dataflow_engine_v2.py:391-417 | scanning any list of operations and such chains agree, both ways |
| Taint.TaintedOut | rule-engine/src/misra_platform_rules/analyzers/dataflow_engine_v2.py:454-467 | the loop ends with exactly the variables to which such a chain along some path, from a source, leads at the end of the block |
| Taint.PropagateTaint | rule-engine/src/misra_platform_rules/analyzers/dataflow_engine_v2.py:438-473 | an argument of a call of a sink is reported iff along some path to the call a chain of assignments leads from one that calls a source to one that assigns the argument: each next one reads the variable the one before assigned, nothing assigns that in between, and nothing assigns the argument again before the call |
| PrunedAnalyses.PruningKeepsReachingDefinitions | rule-engine/src/misra_platform_rules/analyzers/cfg_engine.py:502-527 | pruning changes no reaching definition of a surviving block, neither in OUT nor in IN |
| PrunedAnalyses.PruningKeepsLiveness | rule-engine/src/misra_platform_rules/analyzers/cfg_engine.py:502-527 | pruning changes no live variable of a surviving block, neither at its start nor at its end, which is the set that `liveness` returns |
| PrunedAnalyses.PruningKeepsTaint | rule-engine/src/misra_platform_rules/analyzers/cfg_engine.py:502-527 | pruning changes no tainted variable of a surviving block, neither at its end nor entering it |
| Moments.RunsAreMet | rule-engine/src/misra_platform_rules/analyzers/cfg_engine.py:402-442 | the runs of nodes in C are exactly what is met by runs that perform a `for` init once, then test, body, step, test, with `continue` leading to the step |
| Moments.LoopsAreEntered | rule-engine/src/misra_platform_rules/analyzers/cfg_engine.py:402-442 | in any such run, whatever a `for` loop holds is performed after an init of the loop, with nothing outside of the loop in between |
| EndToEndReads.ReportsAreReplayedReads | rule-engine/src/misra_platform_rules/analyzers/dataflow_engine_v2.py:274-310 | for a local declared once, a later reference is reported iff some run, with all references of a `for` header at each visit of it, reads the local there before anything writes it |
| EndToEndReads.UninitializedReadReported | rule-engine/src/misra_platform_rules/analyzers/dataflow_engine_v2.py:274-310 | a read in a run in C of an uninitialised local that no write precedes is a reported site of the built graph if the step of no loop around the read writes the local, and, for a local declared once, only then |
| EndToEndStores.ReadStoreIsReadLater | rule-engine/src/misra_platform_rules/analyzers/dataflow_engine_v2.py:346-368 | a store whose next reference in some run in C reads it is read later on some path of the built graph, from the place of its statement, when no `for` header is in the way |
| EndToEndStores.DeadStoreIsNeverRead | rule-engine/src/misra_platform_rules/analyzers/dataflow_engine_v2.py:346-368 | in no run in C does the next reference to the variable after a reported store read it, when no `for` header is in the way |
| EndToEndStores.RunsMaySkip | rule-engine/src/misra_platform_rules/analyzers/cfg_engine.py:164-218 | a complete run that meets a node twice is a complete run without what lies between |
| ForLoops.OverwritersHideStores | rule-engine/src/misra_platform_rules/analyzers/dataflow_engine_v2.py:132-133 | in any body, if each node that refers to a variable is listed with an overwriting first, every pure write with nothing on the variable behind it in its node is reported |
| ForLoops.StepStoreIsReadAndReported | rule-engine/src/misra_platform_rules/analyzers/dataflow_engine_v2.py:132-133 | in `for (c = get(); c != EOF; c = get()) n++;` a run in C reads the store in the step at the next test, and the store is reported dead |
| ForLoops.BodyStoreIsReadAndReported | rule-engine/src/misra_platform_rules/analyzers/dataflow_engine_v2.py:132-133 | in `for (i = 0; i < n; i++) { i = j; }` a run in C reads the store in the body in the step, and the store is reported dead |
| ForLoops.FirstRoundIsMissed | rule-engine/src/misra_platform_rules/analyzers/dataflow_engine_v2.py:132-133 | in `int x; for (; t; x = 1) use(x);` a run in C reads x uninitialised in the first round, and the read is not reported |
| Taint.TextIsRightOnOneWay | rule-engine/src/misra_platform_rules/analyzers/dataflow_engine_v2.py:429-432 | a reported argument is tainted on every path from the entry to the call, as its description says, when no block on the way can be entered from two places |
| Taint.TextIsWrongAround | rule-engine/src/misra_platform_rules/analyzers/dataflow_engine_v2.py:429-432 | for any graph, two blocks with a path between them and a path from the entry to the second around the first: some program on it has a reported argument that is untainted on another path |
| Alias.CopyContribution | rule-engine/src/misra_platform_rules/analyzers/alias_analyzer.py:157-171 | what a copy contributes depends only on which origins its source holds, not on their confidences |
| Alias.OriginsStable | rule-engine/src/misra_platform_rules/analyzers/alias_analyzer.py:79-89 | after as many passes as there are statements no origin can spread to another name, for any statement order and any copy cycles |
| Alias.BoundSuffices | rule-engine/src/misra_platform_rules/analyzers/alias_analyzer.py:79-89 | after one more pass handling any statement again adds nothing, confidences included |
| Alias.QuietPassIsClosed | rule-engine/src/misra_platform_rules/analyzers/alias_analyzer.py:80-88 | a pass that changes nothing shows the map is closed, so stopping early is safe |
| AliasAnalysis.AliasAnalyzer.HandleStatement | rule-engine/src/misra_platform_rules/analyzers/alias_analyzer.py:110-135 | adding pointees one by one changes the written name's set, and nothing else, by all that the right-hand side yields |
| AliasAnalysis.AliasAnalyzer.Analyze | rule-engine/src/misra_platform_rules/analyzers/alias_analyzer.py:53-89 | with its early stop the loop ends in the map of all passes; it is closed and holds exactly the derivable origins |
| AliasExact.HoldersMayHold | rule-engine/src/misra_platform_rules/analyzers/alias_analyzer.py:53-89 | told from the statements: a name has a pointee iff copies between plain names lead to it from a name that begins with it, a pointer parameter for the unknown, a statement that says what it points to, or a copy of a name that nothing before has given a pointee |
| AliasExact.VerdictIsExact | rule-engine/src/misra_platform_rules/analyzers/alias_analyzer.py:194-222 | for any statements and names: the verdict is yes iff both names have pointees and one of them may be unknown or they share a target; its confidence is unknown iff one has no pointee or may be unknown; and it is a definite yes iff one and the same name is all that each can point to |
| AliasConfidence.PossibleIsExact | rule-engine/src/misra_platform_rules/analyzers/alias_analyzer.py:157-171 | a named pointee is merely possible for a name iff, on the last copy or before, it came out of a name that has other pointees as well |
| AliasConfidence.SaidIsDefinite | rule-engine/src/misra_platform_rules/analyzers/alias_analyzer.py:140-156 | where a statement itself names the pointee, the map has it as definite |
| AliasConfidence.OtherConfidences | rule-engine/src/misra_platform_rules/analyzers/alias_analyzer.py:137-185 | a heap pointee is always possible, an unknown one always unknown, a named one never unknown |
| AliasVerdicts.PointsToIsExact | rule-engine/src/misra_platform_rules/analyzers/alias_analyzer.py:79-89 | a name may hold an origin iff copies lead to it from a parameter, a statement that names the origin, or a copy from a name not yet known |
| AliasVerdicts.AliasesAreSeen | rule-engine/src/misra_platform_rules/analyzers/alias_analyzer.py:194-207 | over every run, with statements in any order and repeated and with any values of names from outside at the start, two tracked pointers that ever hold one address get the verdict true, unless the map may miss an address of one of them |
| AliasVerdicts.DefiniteVerdicts | rule-engine/src/misra_platform_rules/analyzers/alias_analyzer.py:203-222 | over every such run, a definite yes means equal whenever both are set and a definite no means never equal, under the same exception |
| AliasVerdicts.MeetingsAreSeenIff | rule-engine/src/misra_platform_rules/analyzers/alias_analyzer.py:194-207 | for any two names, when no address is stored through a pointer: the verdict is true whenever some run can make them equal iff it is true, or one of them can never be set, or to neither copies lead from a name that may hold any address at the start |
| AliasVerdicts.DefiniteVerdictsIff | rule-engine/src/misra_platform_rules/analyzers/alias_analyzer.py:203-222 | when no address is stored through a pointer, a definite verdict holds over all runs iff no copies lead to either pointer from a name from outside that the function assigns |
| AliasVerdicts.GlobalDefeatsDefiniteNo | rule-engine/src/misra_platform_rules/analyzers/alias_analyzer.py:110-135 | `g = &x; p = &y;` with a global g: the verdict on g and p is a definite no, and some run makes them equal |
| AliasVerdicts.StoreThroughDefeatsDefiniteNo | rule-engine/src/misra_platform_rules/analyzers/alias_analyzer.py:124-135 | `p = &x; q = &y; pp = &p; *pp = q;`: the verdict on p and q is a definite no, and some run makes them equal |
| Recursion.FunctionsInRecursionCycles | rule-engine/src/misra_platform_rules/analyzers/linkage_index.py:124-169 | for any call graph, with self-calls and callees that are not keys: sorted by code point with a prefix first, without repeats, exactly the names from which calls, each listed for the one before, lead back to themselves |
| SortedNames.LessIsBefore | rule-engine/src/misra_platform_rules/analyzers/linkage_index.py:169-169 | the order of names: where two first differ the smaller character decides, and a prefix comes first |
| Recursion.RecursionFinder.StrongConnect | rule-engine/src/misra_platform_rules/analyzers/linkage_index.py:138-162 | a visit keeps Tarjan's invariant, numbers the node, changes no earlier lowlink and only adds above the old stack |
| Recursion.RecursionFinder.PopComponent | rule-engine/src/misra_platform_rules/analyzers/linkage_index.py:153-162 | popping takes exactly the nodes numbered from the root on, and records them iff there are several or the root calls itself |
| Recursion.ComponentCycles | rule-engine/src/misra_platform_rules/analyzers/linkage_index.py:153-162 | when no lowlink leads below the root, a popped node is on a call cycle iff the component has several members or it calls itself |
| Recursion.EnterKeeps | rule-engine/src/misra_platform_rules/analyzers/linkage_index.py:140-144 | putting a node on the stack keeps Tarjan's invariant, the node being the one still explored |
| Recursion.CloseKeeps | rule-engine/src/misra_platform_rules/analyzers/linkage_index.py:153-162 | closing a component keeps Tarjan's invariant for the callers still open |
| Planner.TierFromDependencies | rule-engine/src/misra_platform_rules/execution_planner.py:53-63 | the maximum over direct dependencies is the maximum over all dependency chains of category tier plus length |
| Planner.TierMeansNoCycle | rule-engine/src/misra_platform_rules/execution_planner.py:48-49 | a rule on a dependency cycle has no tier |
| Planner.GroupsPartition | rule-engine/src/misra_platform_rules/execution_planner.py:67-72 | the groups hold every given rule exactly as often as it was given |
| Planner.PlanIsStaged | rule-engine/src/misra_platform_rules/execution_planner.py:67-72 | every plan meets what running its groups in turn relies on: the rules once each, in groups whose tiers increase |
| Planner.DependenciesEarlier | rule-engine/src/misra_platform_rules/execution_planner.py:53-72 | dependencies, direct or not, lie in strictly earlier groups |
| ExecutionPlanning.Planning.Resolve | rule-engine/src/misra_platform_rules/execution_planner.py:45-63 | the memo only ever holds true tiers; a result is the rule's tier and restores the visiting set; an error names a rule on a cycle |
| ExecutionPlanning.ResolveExecutionGroups | rule-engine/src/misra_platform_rules/execution_planner.py:29-72 | raises iff rules each of which depends on the next form a cycle, with the id of a rule on one; otherwise there are tiers, each the larger of the rule's place in the declared order of categories and one more than its given dependencies' tiers, and the groups hold the rules of one tier each, in increasing order, in the order given |
| PlanOrder.TierIsPlace | rule-engine/src/misra_platform_rules/taxonomy.py:33-41 | the category tier is the place of the category in the declared order, with the first place for any unknown one |
| PlanOrder.PlanFits | rule-engine/src/misra_platform_rules/execution_planner.py:45-72 | every plan has such tiers |
| PlanOrder.CategoriesOrderGroups | rule-engine/src/misra_platform_rules/execution_planner.py:34-42 | two rules without dependencies among those given lie in groups i < j iff the category of the first is strictly earlier in the declared order, and in one group iff the categories share a place |
| PlanOrder.CyclesAreCycles | rule-engine/src/misra_platform_rules/execution_planner.py:45-59 | cycles of the arcs that the search follows are cycles of rules as given, where the last rule with an id counts |
| RuleEngine.ExecuteRuleSafe | rule-engine/src/misra_platform_rules/engine.py:81-115 | succeeds iff one of the allowed attempts does, with the findings of the first that does, their number and no error; else no findings and the last attempt's message unchanged, or "unknown rule failure" when that is empty or no attempt was allowed |
| RuleEngine.FirstsKeepPrints | rule-engine/src/misra_platform_rules/engine.py:117-128 | keeping first occurrences loses no fingerprint and leaves one finding for each |
| RuleEngine.Deduplicate | rule-engine/src/misra_platform_rules/engine.py:117-128 | the loop keeps the findings, in order, at exactly the positions where a fingerprint comes up for the first time, and counts the others |
| RuleEngine.GatherPermuted | rule-engine/src/misra_platform_rules/engine.py:65-71 | running the same rules in another order gives the same findings as a multiset |
| RuleEngine.RuleExecutionEngine.Execute | rule-engine/src/misra_platform_rules/engine.py:44-79 | for any completion order, grouped or not: raises iff grouped and the rules form a cycle; else one metrics entry a rule with its own outcome and error, no fingerprint twice, only findings of some rule's first successful attempt, one for each fingerprint among these, and findings kept and removed add up to those counted in the metrics |
| RuleEngine.FitTells | rule-engine/src/misra_platform_rules/engine.py:60-75 | a report that fits the gathered findings says so of the attempts themselves |
| Schedule.ScheduleKeeps | rule-engine/src/misra_platform_rules/engine.py:62-71 | in every reachable state of every interleaving, each job is queued, running, done or collected, exactly one of these, and earlier waves are over |
| Schedule.LogIsExact | rule-engine/src/misra_platform_rules/engine.py:63-71 | in every reachable state each job that has started or finished is logged so exactly once, and no other is |
| Schedule.StartsNext | rule-engine/src/misra_platform_rules/engine.py:64-67 | in a reachable state a job can start next iff it is the first of the current wave not yet started and fewer than `max_workers` jobs are under way by the log |
| Schedule.FinishesNext | rule-engine/src/misra_platform_rules/engine.py:68-71 | any job under way can finish next and no other; any finished job not yet collected can be collected next and no other |
| Schedule.WaveEndsNext | rule-engine/src/misra_platform_rules/engine.py:63-68 | the next wave can begin iff every job of this one has been collected |
| Schedule.WorkersBounded | rule-engine/src/misra_platform_rules/engine.py:64-66 | at most `max_workers` rules run in any reachable state |
| Schedule.DependenciesFinishFirst | rule-engine/src/misra_platform_rules/engine.py:62-71 | in every interleaving of staged groups, as every plan is, when a rule starts all its transitive dependencies among the rules have finished |
| Schedule.EachCollectedOnce | rule-engine/src/misra_platform_rules/engine.py:65-71 | when the last wave is over, every job has been collected exactly once |
| Schedule.WavesHoldTheRules | rule-engine/src/misra_platform_rules/engine.py:62-62 | grouped or not, the waves hold the given rules, each as often as it was given |
| Schedule.ScheduleDoesNotMatter | rule-engine/src/misra_platform_rules/engine.py:62-75 | every finished interleaving leaves the same fingerprints and the same removed count, those of the rules taken in order |
| Schedule.NeverStuck | rule-engine/src/misra_platform_rules/engine.py:63-71 | with a worker available, a schedule that is not over can take a step |
| Schedule.SchedulesEnd | rule-engine/src/misra_platform_rules/engine.py:62-71 | no interleaving takes more than three steps a job and one a wave, and a finished one takes exactly that many |
| RateLimit.RateLimitMiddleware.Dispatch | backend/src/misra_platform/api/middleware/rate_limit.py:21-43 | the queue decides as the whole history of admissions would: health checks, and they alone, bypass; any other request is rejected iff at least `limit` earlier requests of the same client were admitted no more than `window` before it |
| RateLimit.DecisionCounts | backend/src/misra_platform/api/middleware/rate_limit.py:26-42 | the decision from the list of admissions is the one from counting served requests |
| RateLimit.WindowCount | backend/src/misra_platform/api/middleware/rate_limit.py:30-42 | in every closed interval of window length at most `limit` served requests of a client were admitted, none when the limit is not positive |
| RateLimit.RateLimitMiddleware.Evict | backend/src/misra_platform/api/middleware/rate_limit.py:34-36 | eviction drops only admissions that are outside every window from now on, and changes no other client's queue |
| RateLimit.EvictedIsRecent | backend/src/misra_platform/api/middleware/rate_limit.py:34-38 | after eviction the queue is exactly the admissions in the window ending now |
| RateLimit.WindowBound | backend/src/misra_platform/api/middleware/rate_limit.py:30-42 | over any run with a clock that never goes back, every closed interval of window length has at most `limit` admissions of a client |
| RateLimit.OutcomesDetermined | backend/src/misra_platform/api/middleware/rate_limit.py:26-43 | the requests determine all outcomes |
| Incremental.ComputeChangedFiles | backend/src/misra_platform/integrations/clang_bridge/incremental_index.py:44-56 | without repeats, exactly the files added, removed or changed in content |
| Incremental.ComputeAffectedTranslationUnits | backend/src/misra_platform/integrations/clang_bridge/incremental_index.py:59-86 | sorted, without repeats, exactly the units from which files each including the next lead to a changed one, cycles allowed |
| Incremental.SelectUnits | backend/src/misra_platform/services/analysis_orchestrator.py:97-123 | the units selected for an incremental run are exactly those from which files each listed as included by the one before, if any, lead to one that came, went or has another hash |
| Incremental.WithoutEdgesOnlyOwnChanges | backend/src/misra_platform/integrations/clang_bridge/incremental_index.py:30-41 | with an index as `build_file_index` fills it, a unit is selected iff its own file changed |

## Left out

- Runs of bodies with `goto`, with a `continue` in a `switch`, or with a case label that is not a child of the braces of its `switch`: these are built and proved well formed, and where each jump leads is proved (`CfgGotos`, `CfgContinues`), but the path theorem does not cover them.
- A loop without any child node, which C does not have, is taken to be a single test in both readings.
- EndToEndReads.UninitializedReadReported: covers faithfully built bodies whose node ids increase in source order and whose local is declared before it is written; a loop that is not around the read must not write the local in its step alone (`EndToEndReads.ReportsAreReplayedReads` says without that condition what a report means).
- EndToEndStores.DeadStoreIsNeverRead: covers faithfully built bodies with distinct nodes; the condition on `for` headers is sufficient, and `ForLoops` shows what happens without it, but not for every way to violate it.
- EndToEndStores.ReadStoreIsReadLater: under the same condition.
- Raw AST dictionaries, node-kind strings, the choice of the body statements of a function and sorting by source position: each module starts from trees, events, operations or statements already extracted and ordered.
- C evaluation order inside one expression: the code orders references by source position, and so does the model.
- Block and edge attributes that only serve display (`kind` of a block, edge labels, `to_dict`, `to_dot`), and simple queries such as `exit_edges`.
- AliasVerdicts.AliasesAreSeen: covers address-of, copy, array decay, function capture, stores through a dereference and calls that return a fresh block; an expression the analyzer maps to nothing (a cast, arithmetic) is taken to yield no address, a call changes nothing besides its result, and a static local is taken to hold nothing at the start.
- AliasVerdicts.DefiniteVerdicts: over the same runs.
- AliasVerdicts.MeetingsAreSeenIff: over the same runs, when no address is stored through a pointer.
- AliasVerdicts.DefiniteVerdictsIff: over the same runs, when no address is stored through a pointer.
- The alias-driven violation queries, null-check facts and lifetimes: pattern matching without a clean specification.
- `best_confidence` in `may_alias`: it is computed and never used.
- The real worker pool: submission, threads and futures are the steps of a state machine; a rule's timeout is not enforced by the code and not modelled.
- Confidence scores, durations, SHA-256 and cache statistics in the report.
- Building the linkage index from translation units: recursion detection starts from the call graph.
- File hashing and reading include graphs: hashes and include edges are inputs.
- The clock, the HTTP request and the response: a request is a client name, a health-check flag and a time.
- Database repositories, routes, the frontend, the flag-driven rule plugins, the coverage matrix and the essential-type tables.
