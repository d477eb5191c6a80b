# maxflow — a verified model of the visualiser's core

The repository is a browser visualiser for maximum-flow algorithms. It holds a flow network
in a cytoscape.js store. Each algorithm is a generator: every `next()` yields the pseudocode
lines to highlight, the nodes in the search's linear structure, and a list of graph
mutations. The visualiser applies those mutations before it resumes the generator, and it
undoes them with their inverses when the user steps back.

This project models that core in Dafny:

- **`CyGraph`** (`cy_graph.dfy`): the graph facade of `src/CytoscapeGraph.ts` over an arena of node and edge
  records. It covers the getters, outgoing edges sorted by target label, the reverse-edge
  lookup, and the source and sink lookups.
- **`GraphMutations`** (`graph_mutations.dfy`): the mutation classes as a datatype, with `apply` (`Applied`) and
  `inverse` (`Inverse`). It also has the class `Cy`, the store the mutations write to in
  place, and the undo laws.
- **`Accounting`** (`accounting.dfy`): how much flow, excess and total excess a list of mutations moves.
- **`AlgorithmStep`** (`algorithm_step.dfy`): the `AlgorithmStepResult` a step yields, and the graph after the
  caller applies it.
- **`PathSearch`** (`path_search.dfy`): the `pred` search forest both augmenting algorithms build, the path it
  gives back from the sink, and the bottleneck along that path.
- **`FordFulkerson`** (`ford_fulkerson.dfy`): the depth-first Ford–Fulkerson generator as a resumable state
  machine. A frame holds the generator's locals and its suspension point, and one method
  per `yield` is proved to keep the search and augmentation invariants.
- **`PushRelabel`** (`push_relabel.dfy`): `push`, `relabel`, their applicability tests and the preflow, with
  the generator as a step function. It proves that every step conserves total excess,
  keeps flows within capacity and keeps the height function a valid labelling.
- **`FlowGraphs`** (`flow_graph.dfy`): the older `FlowGraph` class of `src/FlowGraph.tsx`, with node and link
  lists reassigned in place and the validators.
- **`EdmondsKarp`** (`edmonds_karp.dfy`): the breadth-first Edmonds–Karp generator over a `FlowGraph`, run to
  its end. It proves that the search finds shortest paths with room and that the
  augmentation changes only flows. It states exactly what each round yields, in order. It also proves that the total is the growth of the flow
  out of the source, and that a finished run leaves no augmenting path.
- **`Tgf`** (`tgf.dfy`): `tgf2cyto`, which turns Trivial Graph Format text into cytoscape elements:
  - the line and token passes;
  - node types and the error thrown for a bad one;
  - edges with `parseInt(…) || 0` capacities;
  - the pass that appends reverse edges.
- **`ValidGraph`** (`valid_graph.dfy`): `assertValidGraph`, which requires exactly one source and exactly one
  sink.
- **`UseQueue`** (`use_queue.dfy`): the `useQueue` hook's `enqueue` and `reset`.

Two modules hold shared code:

- **`Wrappers`** (`wrappers.dfy`): `Option`, `Outcome` (pass, or fail with the thrown message) and `Result`.
- **`Seqs`** (`seqs.dfy`): filter and search lemmas.

A thrown `Error` is modelled as a `Fail`, `Err` or `None` value that carries the message.
JavaScript numbers are modelled as unbounded integers. A node height or excess that was
never set reads as 0 through the getters, so it is an `Option<int>`. The undo laws therefore
hold up to what the getters show (`SameNumbers`, `SameView`), not up to equality of
records. The outgoing-edge sort compares target labels with JavaScript's `<` on strings.
The model compares them character by character, by Unicode scalar value, and proves this a
strict total order. JavaScript compares UTF-16 code units instead (see "Left out").

Where the code and its documentation disagree, the model follows the code:

- The Ford–Fulkerson pseudocode shown beside the code scans every outgoing edge of a popped
  node. The code instead leaves the scan right after examining any edge into the sink, whether
  or not that edge was taken (src/algorithms/Ford-Fulkerson-Depth-First.ts:119). A run can
  then finish while an augmenting path remains. The model follows the code
  (`FordFulkerson.AfterEdge`); see the `FordFulkerson.Next` line under "Left out". The
  Edmonds–Karp search has no early exit, and its model has none either.
- The `FlowGraph` endpoints are node-id strings, yet the Edmonds–Karp code reads
  `link.target.id`. The model uses the ids that code evidently means.

## Model

| member | source | states |
|---|---|---|
| CyGraph.TypeOf | src/CytoscapeGraph.ts:195-199 | a node reads as a source exactly when its `type` is "source", and as a sink exactly when it is "sink" |
| CyGraph.FirstOfKind | src/CytoscapeGraph.ts:238-240 | the node found is in the node order and has the kind asked for; there is none exactly when no node has that kind |
| CyGraph.InsertByTarget | src/CytoscapeGraph.ts:182-193 | inserting into a list sorted by target label keeps it sorted and adds exactly that edge (multiset) |
| CyGraph.SortByTarget | src/CytoscapeGraph.ts:182-193 | the sort's result is a permutation of its input, ordered by target label |
| CyGraph.InsertByTargetStable | src/CytoscapeGraph.ts:185-191 | the inserted edge lands behind every edge with the same target label, and the edges of each label keep their order |
| CyGraph.SortByTargetStable | src/CytoscapeGraph.ts:185-191 | the sort is stable: for every label, the edges with that target label come out in their input order, as under a comparator that answers 0 for equal labels |
| CyGraph.OutgoingEdges | src/CytoscapeGraph.ts:182-193 | `getOutgoingEdges` is a permutation of the edges whose source is the node, sorted by target label |
| CyGraph.OutgoingEdgesSound | src/CytoscapeGraph.ts:182-193 | every edge listed leaves the node |
| CyGraph.OutgoingEdgesExact | src/CytoscapeGraph.ts:182-193 | on a well-formed graph an edge is listed iff it leaves the node, and none is listed twice |
| CyGraph.StrLessAsymmetric | src/CytoscapeGraph.ts:187-191 | the label order used by the sort is asymmetric |
| CyGraph.StrLessTotal | src/CytoscapeGraph.ts:187-191 | any two different labels are ordered one way or the other |
| CyGraph.StrLessTransitive | src/CytoscapeGraph.ts:187-191 | the label order is transitive |
| CyGraph.ReverseEdge | src/CytoscapeGraph.ts:161-164 | the edge found runs from this edge's target to its source and is not this edge; there is none exactly when no edge runs back |
| CyGraph.ReverseEdgeOfSelfLoop | src/CytoscapeGraph.ts:161-164 | a self-loop has no reverse edge, because the lookup excludes the edge itself |
| GraphMutations.InverseInvolutive | src/CytoscapeGraph.ts:18-146 | the inverse of a mutation's inverse is the mutation itself, for every kind including combined ones |
| GraphMutations.InverseAllInvolutive | src/CytoscapeGraph.ts:139-145 | inverting a list twice (reverse and invert each) gives the list back |
| GraphMutations.InverseAllAppend | src/CytoscapeGraph.ts:139-145 | the inverse of `a + b` is the inverse of `b` followed by the inverse of `a` |
| GraphMutations.ApplyAllAppend | src/CytoscapeGraph.ts:133-137 | applying `a + b` is applying `a` and then `b` |
| GraphMutations.AppliedKeepsShape | src/CytoscapeGraph.ts:18-124 | no mutation changes elements, endpoints, capacities, labels, types or enumeration order |
| GraphMutations.ApplyAllKeepsShape | src/CytoscapeGraph.ts:126-146 | neither does a list of mutations |
| GraphMutations.SameShapeKeepsStructure | src/CytoscapeGraph.ts:161-240 | graphs of the same shape have the same reverse edges, source, sink and sorted outgoing edges |
| GraphMutations.AppliedRespectsNumbers | src/CytoscapeGraph.ts:18-146 | a mutation applied to two graphs that read the same numbers gives graphs that read the same numbers |
| GraphMutations.ApplyAllRespectsNumbers | src/CytoscapeGraph.ts:126-146 | the same for lists of mutations |
| GraphMutations.AppliedRespectsView | src/CytoscapeGraph.ts:18-146 | the same for everything observable, highlights included |
| GraphMutations.ApplyAllRespectsView | src/CytoscapeGraph.ts:126-146 | the same for lists |
| GraphMutations.UndoRestoresNumbers | src/CytoscapeGraph.ts:18-146 | applying any mutation and then its inverse restores every flow, height and excess as read |
| GraphMutations.UndoAllRestoresNumbers | src/CytoscapeGraph.ts:126-146 | applying a list and then its inverse list restores every number as read |
| GraphMutations.UndoRestoresView | src/CytoscapeGraph.ts:18-146 | when each highlight toggle in it changes the flag, apply-then-inverse restores everything observable |
| GraphMutations.UndoAllRestoresView | src/CytoscapeGraph.ts:126-146 | the same for lists whose toggles are all effective in turn |
| GraphMutations.FlowUndo | src/CytoscapeGraph.ts:18-32 | a flow delta followed by its inverse restores the graph exactly |
| GraphMutations.DeltaUndo | src/CytoscapeGraph.ts:18-124 | a flow, height or excess delta followed by its inverse restores everything observable |
| GraphMutations.HeightUndo | src/CytoscapeGraph.ts:91-105 | a height delta and its inverse restore the view; an unset height comes back as 0 |
| GraphMutations.ExcessUndo | src/CytoscapeGraph.ts:110-124 | the same for excess deltas |
| GraphMutations.EdgeHighlightUndo | src/CytoscapeGraph.ts:37-59 | toggling an edge and toggling it back restores the graph exactly when the flag was the opposite of the first toggle |
| GraphMutations.NodeHighlightUndo | src/CytoscapeGraph.ts:64-86 | the same for node highlights |
| GraphMutations.ToggleUndo | src/CytoscapeGraph.ts:37-86 | an effective highlight toggle followed by its inverse restores the graph exactly |
| GraphMutations.ToggleUndoNumbers | src/CytoscapeGraph.ts:37-86 | any highlight toggle and its inverse restore every number |
| GraphMutations.EdgeHighlightRoundTrip | src/CytoscapeGraph.ts:37-59 | an edge toggle's round trip restores the view iff the toggle changed the flag: highlighting is a flag, not a counter |
| GraphMutations.NodeHighlightRoundTrip | src/CytoscapeGraph.ts:64-86 | the same law for node highlights |
| GraphMutations.DeltaOnlyEffective | src/CytoscapeGraph.ts:18-146 | a mutation built only from deltas is always effective |
| GraphMutations.DeltaOnlyAllEffective | src/CytoscapeGraph.ts:126-146 | so is every list of them |
| GraphMutations.EdgeFlowEffect | src/CytoscapeGraph.ts:27-29 | a flow delta on an edge adds `df` to that edge's flow and changes nothing else |
| GraphMutations.NodeHeightEffect | src/CytoscapeGraph.ts:91-105 | a height delta adds `dh` to that node's height, leaving every other height, all excesses and all edges alone |
| GraphMutations.NodeExcessEffect | src/CytoscapeGraph.ts:110-124 | an excess delta adds `de` to that node's excess, leaving every other excess, all heights and all edges alone |
| GraphMutations.HighlightOnlyKeepsNumbers | src/CytoscapeGraph.ts:37-86 | a highlight-only mutation changes no number |
| GraphMutations.HighlightOnlyAllKeepsNumbers | src/CytoscapeGraph.ts:126-146 | nor does a list of them |
| GraphMutations.Cy.constructor | src/CytoscapeGraph.ts:231-236 | the store starts as the given graph |
| GraphMutations.Cy.Apply | src/CytoscapeGraph.ts:18-146 | writing a mutation into the store in place leaves it holding exactly the applied graph |
| GraphMutations.Cy.ApplyEach | src/CytoscapeGraph.ts:133-137 | applying a list in place, in order, leaves the store holding the list applied to the old state |
| Accounting.FlowAccounting | src/CytoscapeGraph.ts:18-146 | a mutation changes an edge's flow by exactly the sum of its flow deltas on that edge |
| Accounting.FlowAccountingAll | src/CytoscapeGraph.ts:126-146 | the same for a list of mutations |
| Accounting.ExcessAccounting | src/CytoscapeGraph.ts:18-146 | a mutation changes a node's excess by exactly the sum of its excess deltas on that node |
| Accounting.ExcessAccountingAll | src/CytoscapeGraph.ts:126-146 | the same for a list |
| Accounting.TotalExcessAccounting | src/CytoscapeGraph.ts:110-146 | on a well-formed graph the total excess changes by the net excess delta on existing nodes |
| Accounting.TotalExcessAccountingAll | src/CytoscapeGraph.ts:126-146 | the same for a list |
| Accounting.NeutralKeepsNumbers | src/CytoscapeGraph.ts:18-146 | a mutation of zero deltas and toggles changes no number |
| Accounting.ZeroDeltaKeepsNumbers | src/CytoscapeGraph.ts:18-124 | a zero flow, height or excess delta changes no number |
| Accounting.NeutralAllKeepsNumbers | src/CytoscapeGraph.ts:126-146 | a list of neutral mutations changes no number |
| Accounting.NeutralInverse | src/CytoscapeGraph.ts:18-146 | the inverse of a neutral mutation is neutral |
| Accounting.FlowDeltaAllAppend | src/CytoscapeGraph.ts:126-146 | flow deltas add up over concatenated lists |
| Accounting.ExcessDeltaAllAppend | src/CytoscapeGraph.ts:126-146 | excess deltas add up over concatenated lists |
| Accounting.FlowDeltaInverse | src/CytoscapeGraph.ts:18-146 | an inverse moves the opposite flow |
| Accounting.FlowDeltaInverseAll | src/CytoscapeGraph.ts:139-145 | an inverse list moves the opposite flow |
| Accounting.ExcessDeltaInverse | src/CytoscapeGraph.ts:18-146 | an inverse moves the opposite excess |
| Accounting.ExcessDeltaInverseAll | src/CytoscapeGraph.ts:139-145 | an inverse list moves the opposite excess |
| Accounting.HighlightOnlyAllMovesNothing | src/CytoscapeGraph.ts:37-86 | highlight-only lists move no flow and no excess |
| Accounting.StillAfter | src/CytoscapeGraph.ts:18-146 | a mutation that moves nothing leaves flows, excesses and total excess as they were |
| Accounting.OutFlowOverWrite | src/CytoscapeGraph.ts:18-31 | changing one listed edge's flow changes the flow leaving a node by that change exactly when the edge leaves the node |
| Accounting.OutFlowEdgeFlow | src/CytoscapeGraph.ts:18-31 | a flow delta on an edge out of a node raises the flow leaving that node by the delta, and no other node's |
| Accounting.OutFlowHighlightOnly | src/CytoscapeGraph.ts:36-86 | highlight-only mutations keep the flow leaving every node |
| Accounting.HeightsKept | src/CytoscapeGraph.ts:18-146 | a mutation without height deltas leaves every height alone |
| Accounting.HeightsKeptAll | src/CytoscapeGraph.ts:126-146 | so does a list of them |
| PathSearch.PathReachesRoot | src/algorithms/Ford-Fulkerson-Depth-First.ts:151-155 | following `pred` back from a reached node is a chain of arcs that ends at the source |
| PathSearch.PathFromUnreached | src/algorithms/Ford-Fulkerson-Depth-First.ts:151-155 | from an unreached node the walk back is empty |
| PathSearch.PathIsSimple | src/algorithms/Ford-Fulkerson-Depth-First.ts:151-155 | the path back visits no node twice, and the source is never an arc's target |
| PathSearch.ForestExtend | src/algorithms/Ford-Fulkerson-Depth-First.ts:107-114 | setting `pred` of a fresh non-source target from a reached node keeps `pred` a search forest |
| PathSearch.MinWith | src/algorithms/Ford-Fulkerson-Depth-First.ts:153 | `Math.min(df, x)` is at most both and equal to one of them (starting from Infinity) |
| PathSearch.BottleneckBounds | src/algorithms/Ford-Fulkerson-Depth-First.ts:150-155 | the bottleneck of a non-empty path is at most every arc's residual and equal to one of them |
| PathSearch.BottleneckPositive | src/algorithms/Ford-Fulkerson-Depth-First.ts:150-155 | it is positive when every arc has room |
| PathSearch.Bottleneck | src/algorithms/Ford-Fulkerson-Depth-First.ts:150-155 | the loop walking `pred` back from the sink computes the minimum residual along the path |
| FordFulkerson.PathHighlights | src/algorithms/Ford-Fulkerson-Depth-First.ts:122-135 | three highlight mutations per path edge, all highlight-only |
| FordFulkerson.CollectPathHighlights | src/algorithms/Ford-Fulkerson-Depth-First.ts:122-135 | the loop from the sink collects exactly the edge, source and target highlights of each path edge |
| FordFulkerson.Create | src/algorithms/Ford-Fulkerson-Depth-First.ts:67-71 | a new generator is suspended before its first step, on the graph's source and sink; the flow already leaving the source is recorded as the base of the total |
| FordFulkerson.Next | src/algorithms/Ford-Fulkerson-Depth-First.ts:73-183 | each step keeps the invariant on the graph the caller holds after applying it: the search forest holds only edges with room, each node is pushed at most once per search, and the flow leaving the source equals the base plus the total (plus `df` while the first path edge is half-applied); `linearNodes` is the stack (empty at the end); it is `done` exactly at the final step; the run ends with the sink unreached; the total flow starts at 0 and never falls |
| FordFulkerson.ResumeSearch | src/algorithms/Ford-Fulkerson-Depth-First.ts:74-121 | resuming inside the search gives the same guarantees as `Next` |
| FordFulkerson.ResumeAugment | src/algorithms/Ford-Fulkerson-Depth-First.ts:122-176 | resuming inside the augmentation gives the same guarantees as `Next` |
| FordFulkerson.FinishedFlow | src/algorithms/Ford-Fulkerson-Depth-First.ts:170-182 | at the end, the total the generator reports is exactly the flow added out of the source since `Create` |
| FordFulkerson.StartSearch | src/algorithms/Ford-Fulkerson-Depth-First.ts:74-82 | a search starts with stack `[source]`, empty `pred` and no undo list, and yields lines 4-5 |
| FordFulkerson.SearchLoop | src/algorithms/Ford-Fulkerson-Depth-First.ts:84-121 | the loop test: stop when the sink has a pred or the stack is empty; otherwise highlight the top's pred edge if any, else pop |
| FordFulkerson.HighlightTop | src/algorithms/Ford-Fulkerson-Depth-First.ts:85-95 | the top's pred edge is highlighted and its inverse queued for undo |
| FordFulkerson.PopNode | src/algorithms/Ford-Fulkerson-Depth-First.ts:97-105 | the top of the stack is popped and highlighted, its inverse queued for undo |
| FordFulkerson.ScanEdge | src/algorithms/Ford-Fulkerson-Depth-First.ts:106-120 | with edges left, the next outgoing edge is examined; with none left, the search loop continues |
| FordFulkerson.ExamineEdge | src/algorithms/Ford-Fulkerson-Depth-First.ts:107-118 | a target without pred, not the source, behind an edge with room gets the edge as pred and is pushed, and is recorded as pushed; otherwise nothing is pushed; a step is yielded either way |
| FordFulkerson.AfterEdge | src/algorithms/Ford-Fulkerson-Depth-First.ts:119 | scanning stops right after an edge into the sink, taken or not |
| FordFulkerson.SearchGrows | src/algorithms/Ford-Fulkerson-Depth-First.ts:107-114 | taking an edge with room to a fresh target keeps the search invariant |
| FordFulkerson.PushedDistinct | src/algorithms/Ford-Fulkerson-Depth-First.ts:107-114 | the nodes pushed in a search are pairwise distinct and are exactly the nodes with a pred |
| FordFulkerson.PushedGrows | src/algorithms/Ford-Fulkerson-Depth-First.ts:107-114 | pushing a node that had no pred, while giving it one, keeps pushes and preds in one-to-one step |
| FordFulkerson.AugmentOutFlow | src/algorithms/Ford-Fulkerson-Depth-First.ts:159-167 | the `+df`/`-df` pair on a path edge and its reverse raises the flow leaving the source by `df` when the edge leaves the source, and leaves it alone otherwise |
| FordFulkerson.ShowPath | src/algorithms/Ford-Fulkerson-Depth-First.ts:122-148 | a found path is shown by undoing the search highlights and highlighting the path |
| FordFulkerson.BeginAugment | src/algorithms/Ford-Fulkerson-Depth-First.ts:150-157 | `df` is the minimum residual along the path, at most each path edge's residual, and positive |
| FordFulkerson.AugmentNext | src/algorithms/Ford-Fulkerson-Depth-First.ts:158-170 | the walk moves to the pred of the current edge's source; when there is none the total grows by `df` |
| FordFulkerson.AugmentEdge | src/algorithms/Ford-Fulkerson-Depth-First.ts:159-167 | a path edge gets `+df` and its reverse edge, which exists, gets `-df` in one step |
| FordFulkerson.EndAugment | src/algorithms/Ford-Fulkerson-Depth-First.ts:170-175 | after the update the total grows by `df` and the path highlights are undone in reverse order |
| FordFulkerson.Finish | src/algorithms/Ford-Fulkerson-Depth-First.ts:177-182 | with the sink unreached the generator yields `done` with empty `linearNodes` |
| PushRelabel.PushAmount | src/algorithms/Push-Relabel.ts:175 | the amount pushed is at most the source node's excess and the edge's residual, and equal to one of them |
| PushRelabel.PushApplicableEdge | src/algorithms/Push-Relabel.ts:161-170 | an applicable push runs along an existing non-loop edge, moves a positive amount, and has a reverse edge in a paired graph |
| PushRelabel.PushMoves | src/algorithms/Push-Relabel.ts:172-187 | a push moves `df` along the edge, `-df` along its reverse, and `df` of excess from its source to its target |
| PushRelabel.PushKeepsFlowWithin | src/algorithms/Push-Relabel.ts:172-187 | a push computed on a graph whose flows are within capacity keeps every flow at most its capacity |
| PushRelabel.PushConservesExcess | src/algorithms/Push-Relabel.ts:172-187 | a push leaves the total excess unchanged |
| PushRelabel.PushExhausts | src/algorithms/Push-Relabel.ts:172-187 | after a push along an edge there is nothing more to push along it |
| PushRelabel.EmptyPushNeutral | src/algorithms/Push-Relabel.ts:129 | recomputing the last push on the graph it produced gives a mutation that changes no number |
| PushRelabel.MinIsLeast | src/algorithms/Push-Relabel.ts:158-159 | `min` of a non-empty array is an element and no greater than any; of an empty array it is undefined |
| PushRelabel.LeastTarget | src/algorithms/Push-Relabel.ts:201-205 | over residual edges the minimum target height exists, bounds each target and is attained |
| PushRelabel.RelabelDefined | src/algorithms/Push-Relabel.ts:196-210 | a relabel is defined exactly when the node has a residual outgoing edge |
| PushRelabel.RelabelRaises | src/algorithms/Push-Relabel.ts:189-210 | an applicable relabel sets the height to one more than the lowest residual target, and raises it |
| PushRelabel.RelabelMovesNothing | src/algorithms/Push-Relabel.ts:196-210 | a relabel moves no flow and no excess |
| PushRelabel.RelabelAgainIsZero | src/algorithms/Push-Relabel.ts:142 | recomputing the last relabel on the graph it produced raises by zero |
| PushRelabel.RelabelStaysDefined | src/algorithms/Push-Relabel.ts:142 | that recomputed relabel is still defined |
| PushRelabel.ResetChangesNothing | src/algorithms/Push-Relabel.ts:68-80 | the first step, which adds 0 to every height and excess, changes no number |
| PushRelabel.LiftRaisesSource | src/algorithms/Push-Relabel.ts:82-89 | the second step raises the source's height by the number of nodes and highlights it |
| PushRelabel.PreflowSaturates | src/algorithms/Push-Relabel.ts:91-110 | the preflow adds each source edge's capacity to its flow |
| PushRelabel.PreflowLeavesOthers | src/algorithms/Push-Relabel.ts:91-110 | it leaves every other edge's flow alone |
| PushRelabel.PreflowConservesExcess | src/algorithms/Push-Relabel.ts:91-110 | it leaves the total excess unchanged |
| PushRelabel.PreflowWithinCapacity | src/algorithms/Push-Relabel.ts:91-110 | from flows within capacity, with no positive flow yet on the source's edges, it keeps every flow within capacity |
| PushRelabel.PreflowKeepsHeights | src/algorithms/Push-Relabel.ts:91-110 | it changes no height |
| PushRelabel.SourceHighlightsOnly | src/algorithms/Push-Relabel.ts:112-117 | the first `mutationToUndo` only highlights |
| PushRelabel.UndoMovesNothing | src/algorithms/Push-Relabel.ts:112-142 | the `mutationToUndo` recomputed on resume moves no flow or excess, and without self-loops changes no number |
| PushRelabel.FirstPush | src/algorithms/Push-Relabel.ts:121-132 | the edge chosen is the first, in `getEdges` order, that a push applies to; none exactly when no push applies |
| PushRelabel.FirstRelabel | src/algorithms/Push-Relabel.ts:134-145 | the node chosen is the first, in `getNodes` order, that a relabel applies to; none exactly when no relabel applies |
| PushRelabel.ScanPush | src/algorithms/Push-Relabel.ts:121-132 | the loop over the edges finds that first applicable push |
| PushRelabel.ScanRelabel | src/algorithms/Push-Relabel.ts:134-145 | the loop over the nodes finds that first applicable relabel |
| PushRelabel.Create | src/algorithms/Push-Relabel.ts:58-66 | a new generator is suspended before its first step, on the graph's source |
| PushRelabel.Next | src/algorithms/Push-Relabel.ts:66-155 | `next()` yields the step `Step` describes, and the invariant holds on the graph the caller holds after applying it |
| PushRelabel.RunLoop | src/algorithms/Push-Relabel.ts:119-154 | one pass of the loop yields what `Loop` describes |
| PushRelabel.StepKeepsValid | src/algorithms/Push-Relabel.ts:66-155 | every step keeps reverse edges paired, leaves nothing to push along the edge just pushed, and leaves the node just relabelled re-relabellable |
| PushRelabel.StepChooses | src/algorithms/Push-Relabel.ts:119-154 | a step pushes along the first applicable edge, else relabels the first applicable node, else finishes; `done` exactly at the end |
| PushRelabel.LoopChooses | src/algorithms/Push-Relabel.ts:119-154 | the same for one pass of the loop |
| PushRelabel.StepConservesExcess | src/algorithms/Push-Relabel.ts:66-155 | on a well-formed graph no step changes the total excess |
| PushRelabel.StepKeepsFlowWithin | src/algorithms/Push-Relabel.ts:119-154 | once flows are within capacity every later step keeps them there |
| PushRelabel.StepKeepsLabelling | src/algorithms/Push-Relabel.ts:119-154 | once heights are a valid labelling (no residual edge more than one level downhill) every later step keeps them one |
| PushRelabel.PushKeepsLabelling | src/algorithms/Push-Relabel.ts:161-187 | an applicable push keeps the labelling valid |
| PushRelabel.RaiseKeepsLabelling | src/algorithms/Push-Relabel.ts:189-210 | a raise no higher than one above every residual target keeps the labelling valid |
| PushRelabel.RelabelIsRaise | src/algorithms/Push-Relabel.ts:189-210 | an applicable relabel raises by a positive amount to at most one above every residual target |
| PushRelabel.InitialisationLabels | src/algorithms/Push-Relabel.ts:68-110 | from heights that all read 0 and no negative flow out of the source, the three opening steps leave a valid labelling |
| PushRelabel.PreflowLabels | src/algorithms/Push-Relabel.ts:91-110 | the preflow keeps a valid labelling |
| FlowGraphs.Ids | src/FlowGraph.tsx:40 | `nodes.map(node => node.id)`, elementwise |
| FlowGraphs.AssertValidNodes | src/FlowGraph.tsx:39-44 | passes iff node ids are pairwise distinct, else fails with "Node ids are not unique" |
| FlowGraphs.AssertValidLinks | src/FlowGraph.tsx:46-60 | passes iff every link's endpoints are known and link keys are unique; the unknown-id message comes first |
| FlowGraphs.AssertValidGraph | src/FlowGraph.tsx:20-25 | the constructor's checks: nodes first, then links |
| FlowGraphs.KeyIdentifiesEndpoints | src/FlowGraph.tsx:56 | without `-` in node ids, equal keys `source-target` mean equal endpoints |
| FlowGraphs.KeysCanCollide | src/FlowGraph.tsx:56 | with `-` in ids, two different links can share a key |
| FlowGraphs.Find | src/FlowGraph.tsx:66-76 | `Array.find`: the first element satisfying the test, none iff no element does |
| FlowGraphs.FindLink | src/FlowGraph.tsx:93-97 | the index of the first link from `fromId` to `toId`, none iff there is no such link |
| FlowGraphs.Indices | src/FlowGraph.tsx:108-114 | the indices listed hold links leaving (or entering) the node |
| FlowGraphs.IndicesComplete | src/FlowGraph.tsx:108-114 | every link leaving (or entering) the node has its index listed |
| FlowGraphs.IndicesIncreasing | src/FlowGraph.tsx:108-114 | the indices are in increasing order |
| FlowGraphs.IndicesSelect | src/FlowGraph.tsx:108-114 | the links at those indices are exactly `links.filter(l => l.source === id)` (or `l.target === id`) |
| FlowGraphs.RemoveLinkDropsOthers | src/FlowGraph.tsx:103-105 | removing a→b as written also removes a→c and d→b |
| FlowGraphs.RemoveLinkIntendedExact | src/FlowGraph.tsx:99-106 | the corrected filter keeps exactly the links other than the one named; with unique pairs it drops exactly one |
| FlowGraphs.FlowGraph.constructor | src/FlowGraph.tsx:20-25 | the store holds the given lists |
| FlowGraphs.FlowGraph.ImportGraph | src/FlowGraph.tsx:31-37 | validates both lists; on success stores them, on failure leaves the store unchanged |
| FlowGraphs.FlowGraph.AddNode | src/FlowGraph.tsx:62-64 | appends the node and changes nothing else |
| FlowGraphs.FlowGraph.GetNode | src/FlowGraph.tsx:66-68 | the node found has the id; none iff no node has it |
| FlowGraphs.FlowGraph.GetSourceNode | src/FlowGraph.tsx:70-72 | the node found is a source; none iff no node is |
| FlowGraphs.FlowGraph.GetSinkNode | src/FlowGraph.tsx:74-76 | the node found is a sink; none iff no node is |
| FlowGraphs.FlowGraph.RemoveNode | src/FlowGraph.tsx:78-86 | fails with "Node does not exist" iff no node has the id; otherwise drops that node and every link touching it, keeping all else in order |
| FlowGraphs.FlowGraph.AddLink | src/FlowGraph.tsx:88-91 | validates the extended list; appends the link iff it passes; nodes never change |
| FlowGraphs.FlowGraph.GetLink | src/FlowGraph.tsx:93-97 | the first link from `fromId` to `toId`; none iff there is none |
| FlowGraphs.FlowGraph.RemoveLink | src/FlowGraph.tsx:99-106 | as written: fails with "Link does not exist" iff there is no such link; otherwise keeps only the links whose source is not `fromId` and whose target is not `toId` |
| FlowGraphs.FlowGraph.RemoveLinkIntended | src/FlowGraph.tsx:99-106 | corrected: the same error case; on success removes exactly the links from `fromId` to `toId`, one with unique pairs |
| FlowGraphs.FlowGraph.GetLinksFromNode | src/FlowGraph.tsx:108-110 | exactly the links leaving the node, in list order |
| FlowGraphs.FlowGraph.GetLinksToNode | src/FlowGraph.tsx:112-114 | exactly the links entering the node, in list order, and together with the others they account for every link |
| FlowGraphs.New | src/FlowGraph.tsx:20-25 | construction succeeds iff both validators pass, and fails with the first thrown message |
| EdmondsKarp.Search | src/algorithms/Edmonds-Karp.ts:51-71 | the breadth-first search leaves `pred` a forest of links with room; every reached node is queued once, in order of distance; every link with room out of a reached node leads to a reached node at most one further; it yields, in queue order, each dequeued node and then each node first reached from it with the link that reached it (`SearchTrace`), one yield per queued node and per `pred` entry |
| EdmondsKarp.ScanLinks | src/algorithms/Edmonds-Karp.ts:57-70 | scanning a node's links files each unseen non-source target behind a link with room, queues it, and yields exactly the node shown by `getNode` with that link, in link order (`Discovered`); nodes later in the queue stay unscanned and earlier yields are unchanged |
| EdmondsKarp.NodeOf | src/algorithms/Edmonds-Karp.ts:64 | `graph.getNode(id)!` returns the node with that id |
| EdmondsKarp.ShortestAugmentingPath | src/algorithms/Edmonds-Karp.ts:51-79 | a node any walk with room reaches is reached, and its `pred` path is a walk with room no longer than any other |
| EdmondsKarp.NoAugmentingPath | src/algorithms/Edmonds-Karp.ts:72-95 | when the search leaves the sink unreached no walk with room leads from source to sink |
| EdmondsKarp.PathLength | src/algorithms/Edmonds-Karp.ts:76-79 | the path back from a reached node has as many links as its distance |
| EdmondsKarp.PathIsWalk | src/algorithms/Edmonds-Karp.ts:76-79 | that path, read forwards, is a walk with room from the source |
| EdmondsKarp.Raise | src/algorithms/Edmonds-Karp.ts:87-89 | writing a flow changes that one link's flow by `d` and no other link |
| EdmondsKarp.AugmentKeepsEnds | src/algorithms/Edmonds-Karp.ts:81-92 | augmenting changes only flows, never endpoints or capacities |
| EdmondsKarp.AugmentWithin | src/algorithms/Edmonds-Karp.ts:81-92 | with `df` within every path link's room, augmenting keeps flows within capacity |
| EdmondsKarp.AugmentOutValue | src/algorithms/Edmonds-Karp.ts:81-92 | augmenting changes the flow out of the source by the path's gain |
| EdmondsKarp.PathGain | src/algorithms/Edmonds-Karp.ts:81-93 | along a path back from a reached node that gain is exactly `df` |
| EdmondsKarp.Augment | src/algorithms/Edmonds-Karp.ts:81-92 | the loop writes in place exactly the augmentation of the `pred` path by `df`, and yields exactly `AugmentAlong`'s highlights, stopping after the raised link where a link has no link back |
| EdmondsKarp.AugmentTraceLength | src/algorithms/Edmonds-Karp.ts:81-92 | an augmentation yields one link per yield: two per path link exactly when it completes, and an odd number when it stops at a path link without a link back |
| EdmondsKarp.AugmentTraceLinks | src/algorithms/Edmonds-Karp.ts:87-90 | yield `2i` highlights the `i`-th path link from the sink, after its raise, and yield `2i+1` a link running back between the same two nodes, after its lowering |
| EdmondsKarp.AugmentFacts | src/algorithms/Edmonds-Karp.ts:72-93 | for a reached sink `df` is positive; augmenting keeps endpoints and capacities, keeps flows within capacity, and raises the flow out of the source by `df` |
| EdmondsKarp.PlayRound | src/algorithms/Edmonds-Karp.ts:50-94 | one pass of the outer loop is a breadth-first search of the links it starts from whose `df` is the path's bottleneck; it yields that search and then that augmentation, and leaves the links `Outcome` gives; with a path and a completed augmentation `df` is positive and the flow out of the source grows by it; without a path there is no walk with room to the sink |
| EdmondsKarp.NextRound | src/algorithms/Edmonds-Karp.ts:50-95 | a further pass adds its yields after the earlier ones, and a pass that found a path and completed extends the passes played |
| EdmondsKarp.Run | src/algorithms/Edmonds-Karp.ts:45-96 | the run is a sequence of rounds, each searching the links the previous one left; every round but the last found a path and completed; the run ends exactly when the last round left the sink unreached, and everything yielded is the rounds' searches and augmentations in order; only flows change; they stay within capacity if they started there; the total is non-negative and is the growth of the flow out of the source; a finished run leaves no walk with room from source to sink |
| Tgf.TrimStart | src/utils/io.ts:4 | the result is a suffix; everything removed is whitespace; it does not start with whitespace |
| Tgf.TrimEnd | src/utils/io.ts:4 | the result is a prefix; everything removed is whitespace; it does not end with whitespace |
| Tgf.Trim | src/utils/io.ts:4 | `trim()` leaves no whitespace at either end |
| Tgf.TrimPadded | src/utils/io.ts:4 | trimming removes exactly the whitespace padding around a core |
| Tgf.TrimTwice | src/utils/io.ts:4 | trimming is idempotent |
| Tgf.AllSpaceTrimsAway | src/utils/io.ts:4 | an all-whitespace line trims to the empty line |
| Tgf.Split | src/utils/io.ts:3-8 | `split` yields at least one piece, and no piece holds a separator |
| Tgf.JoinSplit | src/utils/io.ts:3 | joining the pieces of a split on one separator character gives the text back |
| Tgf.SplitJoin | src/utils/io.ts:3 | splitting a join of separator-free pieces gives the pieces back |
| Tgf.LinesTrimmed | src/utils/io.ts:2-5 | every line kept is trimmed and not a comment |
| Tgf.Tokens | src/utils/io.ts:7-9 | every token is non-empty and made of word characters |
| Tgf.TokensOfJoin | src/utils/io.ts:7-9 | the tokens of words joined by spaces are those words |
| Tgf.TokensKeepWords | src/utils/io.ts:7-9 | the tokens, concatenated, are the line's word characters in order |
| Tgf.LeadingDigits | src/utils/io.ts:38 | the longest all-digit prefix |
| Tgf.ParseInt | src/utils/io.ts:38 | `parseInt(t, 10)` is NaN exactly when the token is empty or does not start with a digit |
| Tgf.CapacityOf | src/utils/io.ts:38 | `parseInt(t, 10) \|\| 0` is 0 exactly when the parse gives NaN or 0 |
| Tgf.ParseDecimal | src/utils/io.ts:38 | a decimal number followed by a non-digit parses to that number, which is the capacity |
| Tgf.DecimalValue | src/utils/io.ts:38 | the decimal digits of `n` are worth `n` |
| Tgf.ParseNodes | src/utils/io.ts:10-30 | fails iff some node line has a type other than source and sink, and the error names the first such type |
| Tgf.ParseNodesDescribes | src/utils/io.ts:10-30 | a successful parse gives one node per node line, in line order, with id, label and type as that line says |
| Tgf.EdgeOf | src/utils/io.ts:33-40 | an edge runs from the line's first token to its second, with a non-negative capacity and flow 0 |
| Tgf.ParseEdges | src/utils/io.ts:31-43 | one edge per three-token line, in order, with non-negative capacity and zero flow |
| Tgf.EdgeIdsCollide | src/utils/io.ts:35 | as written, lines `a b 1` and `a c 2` get the same id `a-a` |
| Tgf.EdgeIdIntendedInjective | src/utils/io.ts:35 | ids `source-target` are equal iff both endpoints are |
| Tgf.DashSplit | src/utils/io.ts:35 | a word followed by `-` splits uniquely |
| Tgf.ParseEdgesIntended | src/utils/io.ts:31-43 | the edges with the corrected ids, one per three-token line |
| Tgf.Reversed | src/utils/io.ts:53-63 | the appended edge runs the other way, with capacity 0 and flow 0 |
| Tgf.CompleteReverse | src/utils/io.ts:45-65 | the pass as written leaves the parsed edges followed by one reverse per non-loop edge, in order |
| Tgf.ReversesAsWrittenMembers | src/utils/io.ts:45-65 | every appended edge reverses a non-loop parsed edge, and every non-loop parsed edge has its reverse appended |
| Tgf.AsWrittenClosed | src/utils/io.ts:45-65 | after the pass every edge has a reverse |
| Tgf.ReverseDuplicates | src/utils/io.ts:47-51 | as written, for edges a→b and b→a the pass appends duplicates, while the corrected pass adds nothing |
| Tgf.CompleteReverseIntended | src/utils/io.ts:45-65 | the corrected pass appends a reverse only for edges that have none yet |
| Tgf.FillClosed | src/utils/io.ts:45-65 | after the corrected pass every edge has a reverse |
| Tgf.FillDistinct | src/utils/io.ts:45-65 | the corrected pass keeps distinct endpoint pairs distinct |
| Tgf.FillExtends | src/utils/io.ts:45-65 | it only appends, and what it appends has capacity 0 and flow 0 |
| Tgf.Tgf2Cyto | src/utils/io.ts:1-70 | as written: fails iff a node line has a bad type, with that message; otherwise the nodes, and the edges followed by the reverses as written |
| Tgf.Tgf2CytoIntended | src/utils/io.ts:1-70 | corrected: same error and nodes; the edges start with the parsed edges, every edge has a reverse, and distinct pairs stay distinct |
| ValidGraph.NodesOfKind | src/utils/assertValidGraph.ts:10-11 | the selector lists only nodes of that type |
| ValidGraph.AssertValidGraph | src/utils/assertValidGraph.ts:8-17 | a failure carries the message "Graph must have exactly one source node and one sink node" |
| ValidGraph.CountOne | src/utils/assertValidGraph.ts:10-11 | a filter has length 1 iff exactly one element passes |
| ValidGraph.NodesOfKindOne | src/utils/assertValidGraph.ts:10-11 | the selector's length is 1 iff exactly one node has the type |
| ValidGraph.ValidIffOneEach | src/utils/assertValidGraph.ts:8-17 | passes iff exactly one node is a source and exactly one is a sink |
| ValidGraph.ValidHasEnds | src/utils/assertValidGraph.ts:8-17 | a graph that passes has a source node and a sink node, each read with its type |
| UseQueue.Init | src/utils/useQueue.ts:18 | the queue starts with the initial contents, or empty when none are given |
| UseQueue.SliceEnd | src/utils/useQueue.ts:25 | `slice`'s end, negative counting from the back, lies within the array |
| UseQueue.Enqueue | src/utils/useQueue.ts:22-27 | as written: the new element goes first and the rest is a prefix of the old queue; with a capacity the length is capped at it; without one the length stays the same (1 from empty) |
| UseQueue.Reset | src/utils/useQueue.ts:28-30 | `reset` replaces the contents |
| UseQueue.EnqueueAllNewestFirst | src/utils/useQueue.ts:7-8 | with a capacity, enqueueing a list leaves the newest elements first, cut to the capacity |
| UseQueue.EnqueueAllNoCapacity | src/utils/useQueue.ts:25 | as written without a capacity, enqueueing a list into an empty queue leaves only the last element |
| UseQueue.NoCapacityDropsOlder | src/utils/useQueue.ts:25 | concretely, enqueueing 1 and then 2 leaves `[2]` as written, `[2, 1]` as intended |
| UseQueue.EnqueueIntended | src/utils/useQueue.ts:7-8 | corrected: without a capacity the element is added in front of the whole queue |
| UseQueue.EnqueueAllIntendedKeepsAll | src/utils/useQueue.ts:7-8 | without a capacity the corrected queue keeps every element, newest first |
| UseQueue.IntendedAgrees | src/utils/useQueue.ts:22-27 | with a capacity of at least one the corrected and written versions agree |

## Left out

- JavaScript numbers are unbounded integers here. Floating point, `Infinity` beyond its
  role as the start of `min`, and precision beyond 2^53 are not modelled.
- `parseInt`'s handling of leading whitespace and signs is not modelled. Tokens never hold
  those characters.
- The `group` and `classes` fields of the elements `tgf2cyto` builds are constants and are
  not modelled.
- UseQueue.Enqueue: a capacity that is not an integer (or NaN) is not modelled. The hook's
  React state plumbing becomes a value passed in and returned.
- EdmondsKarp.Run runs the generator to its end, or for at most `fuel` searches. It returns
  the list of yielded visualisations instead of suspending. `console.log` is dropped.
- EdmondsKarp.Run and FordFulkerson.Next: the `pred = {}` object is a map. Prototype keys
  such as `"constructor"`, `"toString"` or `"valueOf"` are not modelled. In the source a node
  with such an id reads as already having a `pred` entry, so it is never queued
  (src/algorithms/Edmonds-Karp.ts:52,59) or pushed
  (src/algorithms/Ford-Fulkerson-Depth-First.ts:75,108). The model does queue or push it.
- CyGraph.StrLess: labels are compared by Unicode scalar value, not by UTF-16 code unit as
  JavaScript's `<` does (src/CytoscapeGraph.ts:187-188). The two orders differ only when a
  character above U+FFFF meets one in U+E000–U+FFFF. JavaScript puts "\u{1F600}" before
  "\u{FF21}", because its first code unit 0xD83D is smaller, and the model puts it after. For
  such labels the Ford–Fulkerson scan order can differ from the source's.
- EdmondsKarp.Search: the contract pins `pred` and the queue order only as a breadth-first
  forest in order of distance. It does not state the tie-breaking the code performs (the
  earliest-dequeued node first, then the first link with room in link order). The exact
  yields are stated (`SearchTrace`), and the body follows the code's order.
- EdmondsKarp.Run: a path link without a link back makes the source throw a `TypeError`.
  The model ends the run with `MissingReverse` at that point.
- EdmondsKarp.Run and FordFulkerson.Next: maximality of the final flow (max-flow min-cut) is
  not claimed. What is proved is that no augmenting path remains (Edmonds–Karp) and that
  the sink is unreached at the end (Ford–Fulkerson).
- FordFulkerson.Next: a finished run is not claimed to leave no augmenting path, because
  the code does not give that. The scan of a popped node stops right after any edge into
  the sink, taken or not (src/algorithms/Ford-Fulkerson-Depth-First.ts:119), so the other
  edges of that node may go unexamined. Take nodes s (source), x and t (sink) with edges
  s→t of capacity 0, s→x and x→t of capacity 1, and their reverses. The label t sorts
  before x, so the scan of s examines s→t first, skips it for lack of room, and breaks. The
  stack is then empty and the run finishes with flow 0, while s→x→t has room 1. The model
  keeps this exit (`FordFulkerson.AfterEdge`). A scan that breaks only once the sink has a
  predecessor, and the no-path property it would give, are not modelled.
- FordFulkerson.Create requires `Paired` (every edge other than a self-loop has an edge
  running back), an edge order without repeats, and a source and a sink. A cytoscape
  collection lists each edge once, so the edge order has no repeats. The source does not
  check the other conditions. `getReverseEdge`
  (src/CytoscapeGraph.ts:161-164) then wraps `undefined`, and `getSinkNode` and
  `getSourceNode` (src/CytoscapeGraph.ts:238-240) wrap a missing node. The first call on
  either throws a `TypeError`, and the model does not follow a run into that throw. Both
  producers of graphs make `Paired` hold: the reverse pass of `tgf2cyto`
  (src/utils/io.ts:45-65, `Tgf.AsWrittenClosed`) and the edge-drawing handler
  (src/GraphVisualization.tsx:294-319). `assertValidGraph` (`ValidGraph`) checks for a
  source and a sink, but no file of this model calls it.
- PushRelabel.Create requires `Paired` and a source, for the same reason. Without them,
  `e.getReverseEdge()` (src/algorithms/Push-Relabel.ts:180) or `sourceNode`
  (src/algorithms/Push-Relabel.ts:86) is a wrapper of `undefined`, and the mutation built
  on it throws a `TypeError` when applied.
- EdmondsKarp.Run requires a source and a sink and links whose endpoints are known nodes.
  Without a source, `cur.id` of `undefined` throws a `TypeError`
  (src/algorithms/Edmonds-Karp.ts:55-57). Without a sink, `sinkNode.id` throws (src/algorithms/Edmonds-Karp.ts:72). The
  `FlowGraph` constructor already rejects unknown endpoints (`FlowGraphs.New`).
- FordFulkerson.Next and PushRelabel.Next: termination of the generators is not claimed.
  The state machines are driven one `next()` at a time.
- PushRelabel.Next: a relabel with no residual outgoing edge takes `min` of an empty array.
  That gives NaN and a NaN height in the source. The model stops in a `Stuck` state
  instead of carrying NaN forward.
- PushRelabel.StepKeepsLabelling needs a graph without self-loops. There a relabel recomputed
  on resume need not raise by zero, so the undo step is not neutral.
- `exportGraph` and `importGraph`'s JSON and base64 encoding are left out. `ImportGraph`
  takes the decoded lists.
- The internals of cytoscape.js (selectors, `emit("restyle")`, styling) are left out. The
  store is a map of node and edge records with fixed enumeration orders.
- The React components, the pseudocode strings and the UI files are not part of this model.

## Findings

| source | as written | input that shows it | evidently intended | confidence | as-written member | corrected member |
|---|---|---|---|---|---|---|
| src/FlowGraph.tsx:103-105 | `removeLink` keeps only links with `source !== fromId && target !== toId` | links a→b, a→c, d→b; removing a→b removes all three | keep every link except the one from `fromId` to `toId` | high, not executed | FlowGraphs.RemoveLinkDropsOthers | FlowGraphs.FlowGraph.RemoveLinkIntended |
| src/utils/io.ts:35 | edge id is `${tokens[0]}-${tokens[0]}` | lines `a b 1` and `a c 2` both get id `a-a` | id `${tokens[0]}-${tokens[1]}`, unique per endpoint pair | high, not executed | Tgf.EdgeIdsCollide | Tgf.EdgeIdIntendedInjective |
| src/utils/io.ts:47-51 | the reverse-edge test ignores `otherEdge`, so it asks only whether the edge is a self-loop | edges a→b and b→a; the pass appends a second b→a and a second a→b | append a reverse only when no edge already runs back | high, not executed | Tgf.ReverseDuplicates | Tgf.FillDistinct |
| src/utils/useQueue.ts:25 | without a capacity the slice end is `queue.length - 1`, dropping the oldest element | enqueue 1 then 2 with no capacity: `[2]` | without a capacity keep every element: `[2, 1]` | medium, not executed | UseQueue.NoCapacityDropsOlder | UseQueue.EnqueueAllIntendedKeepsAll |
