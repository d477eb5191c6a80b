/** What each `next()` of an algorithm's generator yields. */
module AlgorithmStep {
  import opened Wrappers
  import opened CyGraph
  import opened GraphMutations

  /**
   * `AlgorithmStepResult`: the pseudocode lines to highlight, the contents of the stack or
   * queue at that moment, the graph mutations the caller must apply before resuming, and
   * whether this is the final step. An absent list is the empty list; an absent `done` is false.
   */
  datatype StepResult = StepResult(
    highlightedLines: seq<int>,
    linearNodes: seq<Id>,
    graphMutations: seq<Mutation>,
    done: bool)

  /**
   * The graph once the caller has applied a step's mutations, in list order; unchanged when
   * the generator has returned and yields nothing.
   */
  function After(g: Graph, r: Option<StepResult>): Graph {
    if r.Some? then ApplyAll(g, r.value.graphMutations) else g
  }
}
