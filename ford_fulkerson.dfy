/**
 * The depth-first Ford–Fulkerson generator as a resumable state machine. Each call of
 * `Next` runs from the point the generator is suspended at to its next `yield` and returns
 * what that `yield` produces. The caller applies each step's mutations to the graph before
 * resuming, and hands the resulting graph to the next call.
 */
module FordFulkerson {
  import opened Wrappers
  import opened Seqs
  import opened CyGraph
  import opened GraphMutations
  import opened PathSearch
  import opened AlgorithmStep
  import opened Accounting

  /** The `yield` the generator is suspended at. */
  datatype Pc =
    | NotStarted       // before the first `next()`
    | SearchStarted    // after the step showing the new stack `[source]`
    | EdgeHighlighted  // after highlighting the edge into the node about to be popped
    | NodePopped       // after popping `cur` and highlighting it
    | EdgeExamined     // after examining `outgoing[k]`
    | PathShown        // after showing the augmenting path
    | Augmented        // after the flow deltas of the path edge `current`
    | PathCleared      // after undoing the path highlights
    | Finished         // after the final `done` step
    | Returned         // the generator has returned

  /** Every arc of `pred` is an edge of `g` with the endpoints the arc records. */
  ghost predicate ArcsOf(g: Graph, pred: map<Id, Arc<Id>>) {
    forall t {:trigger pred[t]} :: t in pred ==>
      && pred[t].key in g.edges && pred[t].key in g.edgeOrder
      && g.edges[pred[t].key].source == pred[t].from
      && g.edges[pred[t].key].target == t
  }

  /** Every arc of `pred` has residual capacity left in `g`. */
  ghost predicate ResidualArcs(g: Graph, pred: map<Id, Arc<Id>>) {
    forall t {:trigger pred[t]} :: t in pred ==> Residual(g, pred[t].key) > 0
  }

  /** The highlights of a found path: for each arc, sink first, the edge and its two end nodes. */
  function PathHighlights(path: seq<Arc<Id>>): (r: seq<Mutation>)
    ensures |r| == 3 * |path|
    ensures forall i :: 0 <= i < |r| ==> HighlightOnly(r[i])
  {
    if path == [] then []
    else
      [EdgeHighlight(path[0].key, Add), NodeHighlight(path[0].from, Add), NodeHighlight(path[0].to, Add)]
      + PathHighlights(path[1..])
  }

  /** The inverses of highlight toggles are highlight toggles. */
  lemma {:induction false} InverseAllHighlightOnly(ps: seq<Mutation>)
    requires forall i :: 0 <= i < |ps| ==> HighlightOnly(ps[i])
    ensures forall i :: 0 <= i < |InverseAll(ps)| ==> HighlightOnly(InverseAll(ps)[i])
    decreases ps
  {
    if ps != [] {
      var last := ps[|ps| - 1];
      InverseAllHighlightOnly(ps[..|ps| - 1]);
      InverseHighlightOnly(last);
      var r := InverseAll(ps);
      forall i | 0 <= i < |r| ensures HighlightOnly(r[i]) {
        if i > 0 {
          assert r[i] == InverseAll(ps[..|ps| - 1])[i - 1];
        }
      }
    }
  }

  lemma {:induction false} InverseHighlightOnly(m: Mutation)
    requires HighlightOnly(m)
    ensures HighlightOnly(Inverse(m))
    decreases m
  {
    match m
    case Combined(ps) => InverseAllHighlightOnly(ps);
    case _ =>
  }

  /**
   * What any list of mutations keeps: the graph's shape, hence its reverse edges and every
   * arc of `pred`; highlight toggles also keep every residual capacity.
   */
  lemma {:induction false} AfterMutations(g: Graph, ps: seq<Mutation>, pred: map<Id, Arc<Id>>, source: Id)
    ensures Paired(g) ==> Paired(ApplyAll(g, ps))
    ensures ApplyAll(g, ps).edgeOrder == g.edgeOrder
    ensures ArcsOf(g, pred) ==> ArcsOf(ApplyAll(g, ps), pred)
    ensures (forall i :: 0 <= i < |ps| ==> HighlightOnly(ps[i])) ==>
      && (forall e :: Residual(ApplyAll(g, ps), e) == Residual(g, e))
      && OutFlow(ApplyAll(g, ps), source) == OutFlow(g, source)
  {
    ApplyAllKeepsShape(g, ps);
    SameShapeKeepsStructure(ApplyAll(g, ps), g);
    if forall i :: 0 <= i < |ps| ==> HighlightOnly(ps[i]) {
      HighlightOnlyAllKeepsNumbers(g, ps);
      OutFlowHighlightOnly(g, ps, source);
    }
  }

  /** The loop collecting the path highlights, following `pred` back from the sink. */
  method CollectPathHighlights(pred: map<Id, Arc<Id>>, ghost rank: map<Id, nat>, source: Id, sink: Id)
    returns (found: seq<Mutation>)
    requires Forest(pred, rank, source)
    ensures found == PathHighlights(PathFrom(pred, rank, source, sink))
  {
    found := [];
    var edge: Option<Arc<Id>> := if sink in pred then Some(pred[sink]) else None;
    while edge.Some?
      invariant edge.Some? ==> edge.value.to in pred && pred[edge.value.to] == edge.value
      invariant found + (if edge.Some? then PathHighlights(PathFrom(pred, rank, source, edge.value.to)) else [])
        == PathHighlights(PathFrom(pred, rank, source, sink))
      decreases if edge.Some? then rank[edge.value.to] + 1 else 0
    {
      var a := edge.value;
      var rest := PathFrom(pred, rank, source, a.from);
      assert PathFrom(pred, rank, source, a.to) == [a] + rest;
      assert ([a] + rest)[1..] == rest;
      found := found + [EdgeHighlight(a.key, Add), NodeHighlight(a.from, Add), NodeHighlight(a.to, Add)];
      edge := if a.from in pred then Some(pred[a.from]) else None;
    }
  }

  /**
   * The search's own state: `pred` is a forest rooted at the source, and the stack holds
   * only the source and reached nodes.
   */
  ghost predicate SearchState(pred: map<Id, Arc<Id>>, rank: map<Id, nat>, u: seq<Id>, source: Id) {
    && Forest(pred, rank, source)
    && (forall i :: 0 <= i < |u| ==> u[i] == source || u[i] in pred)
  }

  /** Mid-augmentation: `current` is the arc into its node, and the arcs done plus those left make the path. */
  ghost predicate AugmentingAt(pred: map<Id, Arc<Id>>, rank: map<Id, nat>, source: Id, sink: Id,
                               current: Option<Arc<Id>>, augmented: seq<Arc<Id>>)
    requires Forest(pred, rank, source)
  {
    && current.Some? && current.value.to in pred && pred[current.value.to] == current.value
    && augmented + PathFrom(pred, rank, source, current.value.from) == PathFrom(pred, rank, source, sink)
  }

  /**
   * The generator's suspended state: the `yield` it stopped at and its local variables. The
   * stack `u` is a value here, so each step's `linearNodes` is a snapshot of it.
   */
  datatype Frame = Frame(
    source: Id,                 // `sourceNode`
    sink: Id,                   // `sinkNode`
    pc: Pc,
    flow: int,                  // the total flow `flow`, the generator's return value
    u: seq<Id>,                 // the stack `u`, top last
    pred: map<Id, Arc<Id>>,     // for each reached node, the edge it was reached by
    undoSearch: seq<Mutation>,  // `mutationsToUndoAfterSearch`
    cur: Id,                    // the popped node whose outgoing edges are scanned
    outgoing: seq<Id>,          // `cur.getOutgoingEdges()`
    k: nat,                     // the position of the scan in `outgoing`
    undoUpdate: seq<Mutation>,  // `mutationsToUndoAfterUpdate`
    df: int,                    // the bottleneck `df`
    current: Option<Arc<Id>>)   // `currentEdge` during augmentation

  /**
   * What the proof keeps beside a frame: the depth of each reached node in the search forest,
   * the path edges augmented so far, the nodes pushed in this search in the order they were
   * pushed, and the flow out of the source when the generator was created.
   */
  datatype Trace = Trace(rank: map<Id, nat>, augmented: seq<Arc<Id>>, pushed: seq<Id>, base: int)

  /**
   * What holds at every suspension point: every edge of `g` but a self-loop has its reverse;
   * the edge enumeration lists each edge once (as many distinct edges as entries,
   * `SetSizeIffDistinct`); no node has been pushed twice in this search; `pred` is a search
   * forest of `g`'s edges; and the highlights to undo are toggles.
   */
  ghost predicate Common(s: Frame, tr: Trace, g: Graph) {
    && Paired(g) && |ToSet(g.edgeOrder)| == |g.edgeOrder|
    && PushedOnce(tr.pushed, s.pred)
    && SearchState(s.pred, tr.rank, s.u, s.source)
    && ArcsOf(g, s.pred)
    && (forall i :: 0 <= i < |s.undoSearch| ==> HighlightOnly(s.undoSearch[i]))
    && (forall i :: 0 <= i < |s.undoUpdate| ==> HighlightOnly(s.undoUpdate[i]))
  }

  /**
   * The nodes pushed so far in this search are the nodes that have a `pred`, and there are as
   * many pushes as such nodes, so no node is pushed twice (`PushedDistinct`).
   */
  ghost predicate PushedOnce(pushed: seq<Id>, pred: map<Id, Arc<Id>>) {
    ToSet(pushed) == pred.Keys && |pushed| == |pred|
  }

  /** No node is pushed twice in one search, and a node is pushed exactly when it has a `pred`. */
  lemma {:induction false} PushedDistinct(pushed: seq<Id>, pred: map<Id, Arc<Id>>)
    requires PushedOnce(pushed, pred)
    ensures Distinct(pushed)
    ensures forall x :: x in pushed <==> x in pred
  {
    SetSizeIffDistinct(pushed);
    forall x ensures x in pushed <==> x in pred {
      assert x in pushed <==> x in ToSet(pushed);
    }
  }

  /** Pushing a node that has no `pred` yet, and giving it one, keeps every node pushed once. */
  lemma {:induction false} PushedGrows(pushed: seq<Id>, pred: map<Id, Arc<Id>>, a: Arc<Id>)
    requires PushedOnce(pushed, pred) && a.to !in pred
    ensures PushedOnce(pushed + [a.to], pred[a.to := a])
  {
    assert ToSet(pushed + [a.to]) == ToSet(pushed) + {a.to} by {
      forall x ensures x in pushed + [a.to] <==> x in pushed || x == a.to {}
    }
  }

  /**
   * The flow already added to the source's outgoing edges but not yet to `flow`: `df`, right
   * after the deltas of the path edge that leaves the source.
   */
  function Pending(s: Frame): int {
    if s.pc == Augmented && s.current.Some? && s.current.value.from == s.source then s.df else 0
  }

  /**
   * The invariant of a suspended generator on the graph `g` the caller holds: the common
   * part; `flow`, with what is pending, is how much the flow out of the source has grown
   * since the generator was created; and what the suspension point it is at relies on.
   */
  ghost predicate Valid(s: Frame, tr: Trace, g: Graph) {
    && Common(s, tr, g)
    && OutFlow(g, s.source) == tr.base + s.flow + Pending(s)
    && match s.pc
       case SearchStarted => ResidualArcs(g, s.pred)
       case EdgeHighlighted => ResidualArcs(g, s.pred) && |s.u| > 0
       case NodePopped => ResidualArcs(g, s.pred) && (s.cur == s.source || s.cur in s.pred)
       case EdgeExamined =>
         && ResidualArcs(g, s.pred) && (s.cur == s.source || s.cur in s.pred)
         && s.outgoing == OutgoingEdges(g, s.cur) && s.k < |s.outgoing|
       case PathShown => ResidualArcs(g, s.pred) && s.sink in s.pred
       case Augmented =>
         && s.sink in s.pred && s.df > 0
         && AugmentingAt(s.pred, tr.rank, s.source, s.sink, s.current, tr.augmented)
       case PathCleared => s.sink in s.pred && s.df > 0 && tr.augmented == PathFrom(s.pred, tr.rank, s.source, s.sink)
       case Finished => s.sink !in s.pred
       case NotStarted => s.flow == 0
       case Returned => true
  }

  /**
   * The total flow the generator reports is what the run has added to the flow out of the
   * source: once it finishes, the flow out of the source is the flow out of it at creation
   * (`Create`) plus `flow`.
   */
  lemma {:induction false} FinishedFlow(s: Frame, tr: Trace, g: Graph)
    requires Valid(s, tr, g) && s.pc == Finished
    ensures OutFlow(g, s.source) == tr.base + s.flow
  {
  }

  /** `implementation(graph)`: the generator is created; nothing runs before the first `next()`. */
  method Create(g: Graph) returns (s: Frame, ghost tr: Trace)
    requires Paired(g) && Distinct(g.edgeOrder)
    requires SourceNode(g).Some? && SinkNode(g).Some?
    ensures Valid(s, tr, g) && s.pc == NotStarted
    ensures s.source == SourceNode(g).value && s.sink == SinkNode(g).value
    ensures tr.base == OutFlow(g, s.source)
  {
    s := Frame(SourceNode(g).value, SinkNode(g).value, NotStarted, 0, [], map[], [], "", [], 0, [], 0, None);
    tr := Trace(map[], [], [], OutFlow(g, s.source));
    SetSizeIffDistinct(g.edgeOrder);
    assert ToSet(tr.pushed) == s.pred.Keys;
  }

  /**
   * What resuming the generator suspended in `s` on `g` promises of the frame `s'` it suspends
   * in next and the step `r` it returns: the invariant holds of `s'` on the graph the caller
   * gets by applying the step's mutations; the source and sink stay; `r` is None exactly once
   * the generator has finished; `linearNodes` is the stack, empty on the step that finishes,
   * and only that step is `done`; a finished run leaves the sink unreached; and the total
   * flow starts at 0 and never falls.
   */
  ghost predicate Resumes(s: Frame, tr: Trace, g: Graph, s': Frame, tr': Trace, r: Option<StepResult>) {
    && Valid(s', tr', After(g, r))
    && s'.source == s.source && s'.sink == s.sink && tr'.base == tr.base
    && (r.None? <==> s.pc == Finished || s.pc == Returned)
    && (r.Some? ==> Reports(s', r))
    && (s'.pc == Finished ==> s'.sink !in s'.pred)
    && (s.pc == NotStarted ==> s'.flow == 0)
    && (s.pc != NotStarted ==> s'.flow >= s.flow)
    && (r.None? ==> s'.flow == s.flow)
  }

  /**
   * `next()`: resumes the generator suspended in `s` on the graph `g`, which must be the graph
   * with every mutation yielded so far applied, and returns the next step, or None once the
   * generator has returned.
   */
  method Next(s: Frame, ghost tr: Trace, g: Graph) returns (s': Frame, ghost tr': Trace, r: Option<StepResult>)
    requires Valid(s, tr, g)
    ensures Resumes(s, tr, g, s', tr', r)
  {
    match s.pc
    case NotStarted | SearchStarted | EdgeHighlighted | NodePopped | EdgeExamined =>
      s', tr', r := ResumeSearch(s, tr, g);
    case PathShown | Augmented | PathCleared =>
      s', tr', r := ResumeAugment(s, tr, g);
    case Finished =>
      s', tr', r := s.(pc := Returned), tr, None;
    case Returned =>
      s', tr', r := s, tr, None;
  }

  /** Resuming from a `yield` of the search. */
  method ResumeSearch(s: Frame, ghost tr: Trace, g: Graph) returns (s': Frame, ghost tr': Trace, r: Option<StepResult>)
    requires Valid(s, tr, g) && s.pc in {NotStarted, SearchStarted, EdgeHighlighted, NodePopped, EdgeExamined}
    ensures Resumes(s, tr, g, s', tr', r)
  {
    match s.pc
    case NotStarted =>
      s', tr', r := StartSearch(s.(flow := 0), tr, g);
    case SearchStarted =>
      s', tr', r := SearchLoop(s, tr, g);
    case EdgeHighlighted =>
      s', tr', r := PopNode(s, tr, g);
    case NodePopped =>
      s', tr', r := ScanEdge(s.(outgoing := OutgoingEdges(g, s.cur), k := 0), tr, g);
    case EdgeExamined =>
      s', tr', r := AfterEdge(s, tr, g);
  }

  /** Resuming from a `yield` of the augmentation. */
  method ResumeAugment(s: Frame, ghost tr: Trace, g: Graph) returns (s': Frame, ghost tr': Trace, r: Option<StepResult>)
    requires Valid(s, tr, g) && s.pc in {PathShown, Augmented, PathCleared}
    ensures Resumes(s, tr, g, s', tr', r)
  {
    match s.pc
    case PathShown =>
      s', tr', r := BeginAugment(s, tr, g);
    case Augmented =>
      s', tr', r := AugmentNext(s, tr, g);
    case PathCleared =>
      s', tr', r := StartSearch(s, tr, g);
  }

  /** Each search starts with the stack `[source]`, an empty `pred` and nothing to undo. */
  method StartSearch(s: Frame, ghost tr: Trace, g: Graph) returns (s': Frame, ghost tr': Trace, r: Option<StepResult>)
    requires Paired(g) && |ToSet(g.edgeOrder)| == |g.edgeOrder|
    requires forall i :: 0 <= i < |s.undoUpdate| ==> HighlightOnly(s.undoUpdate[i])
    requires OutFlow(g, s.source) == tr.base + s.flow
    ensures Valid(s', tr', After(g, r)) && After(g, r) == g
    ensures s' == s.(pc := SearchStarted, u := [s.source], pred := map[], undoSearch := [])
    ensures r == Some(StepResult([4, 5], [s.source], [], false))
    ensures tr'.base == tr.base
  {
    s' := s.(pc := SearchStarted, u := [s.source], pred := map[], undoSearch := []);
    tr' := Trace(map[], tr.augmented, [], tr.base);
    r := Some(StepResult([4, 5], [s.source], [], false));
    assert ApplyAll(g, []) == g;
    assert ToSet(tr'.pushed) == s'.pred.Keys;
  }

  /** The step reports the frame's stack, none on the final step, which is the step that finishes. */
  predicate Reports(s: Frame, r: Option<StepResult>) {
    r.Some? && r.value.linearNodes == (if r.value.done then [] else s.u) && (r.value.done <==> s.pc == Finished)
  }

  /**
   * The head of the search loop. While the stack is non-empty and the sink has no `pred`,
   * it highlights the edge into the top node if there is one, or else pops it; otherwise
   * it shows the path when the sink was reached and finishes when it was not.
   */
  method SearchLoop(s: Frame, ghost tr: Trace, g: Graph) returns (s': Frame, ghost tr': Trace, r: Option<StepResult>)
    requires Common(s, tr, g) && ResidualArcs(g, s.pred)
    requires OutFlow(g, s.source) == tr.base + s.flow
    ensures Valid(s', tr', After(g, r)) && Reports(s', r)
    ensures s'.source == s.source && s'.sink == s.sink && s'.flow == s.flow
    ensures |s.u| > 0 && s.sink !in s.pred && s.u[|s.u| - 1] in s.pred ==> s'.pc == EdgeHighlighted
    ensures |s.u| > 0 && s.sink !in s.pred && s.u[|s.u| - 1] !in s.pred ==> s'.pc == NodePopped && s'.cur == s.u[|s.u| - 1]
    ensures s.sink in s.pred ==> s'.pc == PathShown
    ensures |s.u| == 0 && s.sink !in s.pred ==> s'.pc == Finished
    ensures tr'.base == tr.base
  {
    if |s.u| > 0 && s.sink !in s.pred {
      if s.u[|s.u| - 1] in s.pred {
        s', tr', r := HighlightTop(s, tr, g);
      } else {
        s', tr', r := PopNode(s, tr, g);
      }
    } else if s.sink in s.pred {
      s', tr', r := ShowPath(s, tr, g);
    } else {
      s', tr', r := Finish(s, tr, g);
    }
  }

  /** Highlights the edge by which the node on top of the stack was reached. */
  method HighlightTop(s: Frame, ghost tr: Trace, g: Graph) returns (s': Frame, ghost tr': Trace, r: Option<StepResult>)
    requires Common(s, tr, g) && ResidualArcs(g, s.pred)
    requires OutFlow(g, s.source) == tr.base + s.flow
    requires |s.u| > 0 && s.u[|s.u| - 1] in s.pred
    ensures Valid(s', tr', After(g, r)) && Reports(s', r)
    ensures var e := s.pred[s.u[|s.u| - 1]].key;
      && s' == s.(pc := EdgeHighlighted, undoSearch := s.undoSearch + [EdgeHighlight(e, Remove)])
      && r == Some(StepResult([10, 11], s.u, [EdgeHighlight(e, Add)], false))
    ensures tr'.base == tr.base
  {
    var e := s.pred[s.u[|s.u| - 1]].key;
    var muts := [EdgeHighlight(e, Add)];
    s', tr' := s.(pc := EdgeHighlighted, undoSearch := s.undoSearch + [EdgeHighlight(e, Remove)]), tr;
    r := Some(StepResult([10, 11], s.u, muts, false));
    AfterMutations(g, muts, s.pred, s.source);
    KeepCommon(s, tr, g, s', tr', muts);
  }

  /** Pops the top of the stack into `cur` and highlights it: the stack is LIFO. */
  method PopNode(s: Frame, ghost tr: Trace, g: Graph) returns (s': Frame, ghost tr': Trace, r: Option<StepResult>)
    requires Common(s, tr, g) && ResidualArcs(g, s.pred)
    requires OutFlow(g, s.source) == tr.base + s.flow
    requires |s.u| > 0
    ensures Valid(s', tr', After(g, r)) && Reports(s', r)
    ensures s' == s.(pc := NodePopped, cur := s.u[|s.u| - 1], u := s.u[..|s.u| - 1],
                     undoSearch := s.undoSearch + [NodeHighlight(s.u[|s.u| - 1], Remove)])
    ensures s.u == s'.u + [s'.cur]
    ensures r == Some(StepResult([7], s'.u, [NodeHighlight(s'.cur, Add)], false))
    ensures tr'.base == tr.base
  {
    var cur := s.u[|s.u| - 1];
    s' := s.(pc := NodePopped, cur := cur, u := s.u[..|s.u| - 1], undoSearch := s.undoSearch + [NodeHighlight(cur, Remove)]);
    tr' := tr;
    var muts := [NodeHighlight(cur, Add)];
    r := Some(StepResult([7], s'.u, muts, false));
    AfterMutations(g, muts, s.pred, s.source);
    KeepCommon(s, tr, g, s', tr', muts);
  }

  /**
   * The sink was reached: undoes the search highlights and highlights the path found, each
   * edge with its two end nodes from the sink back; the update's undo list is the inverse.
   */
  method ShowPath(s: Frame, ghost tr: Trace, g: Graph) returns (s': Frame, ghost tr': Trace, r: Option<StepResult>)
    requires Common(s, tr, g) && ResidualArcs(g, s.pred)
    requires OutFlow(g, s.source) == tr.base + s.flow
    requires s.sink in s.pred
    ensures Valid(s', tr', After(g, r)) && Reports(s', r)
    ensures var found := PathHighlights(PathFrom(s.pred, tr.rank, s.source, s.sink));
      && s' == s.(pc := PathShown, undoUpdate := InverseAll(found))
      && r == Some(StepResult([16], s.u, s.undoSearch + found, false))
    ensures tr'.base == tr.base
  {
    var found := CollectPathHighlights(s.pred, tr.rank, s.source, s.sink);
    InverseAllHighlightOnly(found);
    var muts := s.undoSearch + found;
    s', tr' := s.(pc := PathShown, undoUpdate := InverseAll(found)), tr;
    r := Some(StepResult([16], s.u, muts, false));
    AfterMutations(g, muts, s.pred, s.source);
    KeepCommon(s, tr, g, s', tr', muts);
  }

  /** The search failed to reach the sink: the final step, with an empty stack shown. */
  method Finish(s: Frame, ghost tr: Trace, g: Graph) returns (s': Frame, ghost tr': Trace, r: Option<StepResult>)
    requires Common(s, tr, g) && s.sink !in s.pred
    requires OutFlow(g, s.source) == tr.base + s.flow
    ensures Valid(s', tr', After(g, r)) && Reports(s', r)
    ensures s' == s.(pc := Finished) && r == Some(StepResult([28], [], [], true))
    ensures tr'.base == tr.base
  {
    s', tr' := s.(pc := Finished), tr;
    r := Some(StepResult([28], [], [], true));
    assert ApplyAll(g, []) == g;
    KeepCommon(s, tr, g, s', tr', []);
  }

  /**
   * A step that keeps `pred`, keeps the stack within the reached nodes and only adds highlight
   * toggles to the undo lists keeps the common part, whatever mutations it yields.
   */
  lemma {:induction false} KeepCommon(s: Frame, tr: Trace, g: Graph, s': Frame, tr': Trace, ps: seq<Mutation>)
    requires Common(s, tr, g) && tr'.rank == tr.rank && tr'.pushed == tr.pushed
    requires s'.source == s.source && s'.pred == s.pred
    requires forall i :: 0 <= i < |s'.u| ==> s'.u[i] == s.source || s'.u[i] in s.pred
    requires forall i :: 0 <= i < |s'.undoSearch| ==> HighlightOnly(s'.undoSearch[i])
    requires forall i :: 0 <= i < |s'.undoUpdate| ==> HighlightOnly(s'.undoUpdate[i])
    ensures Common(s', tr', ApplyAll(g, ps))
  {
    AfterMutations(g, ps, s.pred, s.source);
  }

  /** Taking an edge with residual capacity from a reached node to a new node keeps the search state. */
  lemma {:induction false} SearchGrows(s: Frame, tr: Trace, g: Graph, a: Arc<Id>, s': Frame, tr': Trace)
    requires Common(s, tr, g) && ResidualArcs(g, s.pred)
    requires a.from == s.source || a.from in s.pred
    requires a.to !in s.pred && a.to != s.source
    requires a.key in g.edges && g.edges[a.key].source == a.from && g.edges[a.key].target == a.to
    requires Residual(g, a.key) > 0
    requires a.key in g.edgeOrder
    requires s'.source == s.source && s'.pred == s.pred[a.to := a] && s'.u == s.u + [a.to]
    requires s'.undoSearch == s.undoSearch && s'.undoUpdate == s.undoUpdate
    requires tr'.rank == tr.rank[a.to := if a.from == s.source then 0 else tr.rank[a.from] + 1]
    requires tr'.pushed == tr.pushed + [a.to]
    ensures Common(s', tr', g) && ResidualArcs(g, s'.pred)
  {
    ForestExtend(s.pred, tr.rank, s.source, a);
    PushedGrows(tr.pushed, s.pred, a);
    ArcsGrow(g, s.pred, a);
    StackGrows(s.u, s.pred, s.source, a);
  }

  /** An edge with room whose endpoints the arc records keeps `pred` on `g`'s edges with room. */
  lemma {:induction false} ArcsGrow(g: Graph, pred: map<Id, Arc<Id>>, a: Arc<Id>)
    requires ArcsOf(g, pred) && ResidualArcs(g, pred)
    requires a.key in g.edges && a.key in g.edgeOrder
    requires g.edges[a.key].source == a.from && g.edges[a.key].target == a.to
    requires Residual(g, a.key) > 0
    ensures ArcsOf(g, pred[a.to := a]) && ResidualArcs(g, pred[a.to := a])
  {
  }

  /** Pushing the node an arc reaches keeps the stack within the source and the reached nodes. */
  lemma {:induction false} StackGrows(u: seq<Id>, pred: map<Id, Arc<Id>>, source: Id, a: Arc<Id>)
    requires forall i :: 0 <= i < |u| ==> u[i] == source || u[i] in pred
    ensures forall i :: 0 <= i < |u + [a.to]| ==> (u + [a.to])[i] == source || (u + [a.to])[i] in pred[a.to := a]
  {
    forall i | 0 <= i < |u + [a.to]| ensures (u + [a.to])[i] == source || (u + [a.to])[i] in pred[a.to := a] {
      if i < |u| {
        assert (u + [a.to])[i] == u[i];
      }
    }
  }

  /**
   * One pass of the `for` over `cur`'s outgoing edges, or the return to the search loop
   * once they are exhausted.
   */
  method ScanEdge(s: Frame, ghost tr: Trace, g: Graph) returns (s': Frame, ghost tr': Trace, r: Option<StepResult>)
    requires Common(s, tr, g) && ResidualArcs(g, s.pred)
    requires OutFlow(g, s.source) == tr.base + s.flow
    requires s.cur == s.source || s.cur in s.pred
    requires s.outgoing == OutgoingEdges(g, s.cur) && s.k <= |s.outgoing|
    ensures Valid(s', tr', After(g, r)) && Reports(s', r)
    ensures s'.source == s.source && s'.sink == s.sink && s'.flow == s.flow
    ensures s.k < |s.outgoing| ==> s'.pc == EdgeExamined && s'.cur == s.cur && s'.k == s.k
    ensures s.k == |s.outgoing| ==> s'.pc in {EdgeHighlighted, NodePopped, PathShown, Finished}
    ensures tr'.base == tr.base
  {
    if s.k < |s.outgoing| {
      s', tr', r := ExamineEdge(s, tr, g);
    } else {
      s', tr', r := SearchLoop(s, tr, g);
    }
  }

  /**
   * Examines the edge `outgoing[k]`: its target gets `pred` and is pushed exactly when it
   * has no `pred` yet, is not the source and the edge has residual capacity, so no node is
   * pushed twice in one search.
   */
  method ExamineEdge(s: Frame, ghost tr: Trace, g: Graph) returns (s': Frame, ghost tr': Trace, r: Option<StepResult>)
    requires Common(s, tr, g) && ResidualArcs(g, s.pred)
    requires OutFlow(g, s.source) == tr.base + s.flow
    requires s.cur == s.source || s.cur in s.pred
    requires s.outgoing == OutgoingEdges(g, s.cur) && s.k < |s.outgoing|
    ensures Valid(s', tr', After(g, r)) && Reports(s', r)
    ensures var e := s.outgoing[s.k];
      var t := TargetOf(g, e);
      if t !in s.pred && t != s.source && Capacity(g, e) > Flow(g, e) then
        s' == s.(pc := EdgeExamined, pred := s.pred[t := Arc(e, s.cur, t)], u := s.u + [t])
        && tr'.pushed == tr.pushed + [t]
      else
        s' == s.(pc := EdgeExamined) && tr'.pushed == tr.pushed
    ensures r == Some(StepResult([10, 11], s'.u, [], false))
    ensures tr'.base == tr.base
  {
    var e := s.outgoing[s.k];
    OutgoingEdgesSound(g, s.cur, e);
    var t := TargetOf(g, e);
    s', tr' := s.(pc := EdgeExamined), tr;
    if t !in s.pred && t != s.source && Capacity(g, e) > Flow(g, e) {
      var a := Arc(e, s.cur, t);
      s' := s'.(pred := s.pred[a.to := a], u := s.u + [a.to]);
      tr' := tr.(rank := tr.rank[a.to := if a.from == s.source then 0 else tr.rank[a.from] + 1], pushed := tr.pushed + [a.to]);
      SearchGrows(s, tr, g, a, s', tr');
    } else {
      KeepCommon(s, tr, g, s', tr', []);
    }
    r := Some(StepResult([10, 11], s'.u, [], false));
    assert After(g, r) == g by {
      assert ApplyAll(g, []) == g;
    }
    ExaminedValid(s', tr', g);
  }

  /** What an examined edge leaves behind is the invariant at `EdgeExamined`. */
  lemma {:induction false} ExaminedValid(s: Frame, tr: Trace, g: Graph)
    requires Common(s, tr, g) && ResidualArcs(g, s.pred)
    requires OutFlow(g, s.source) == tr.base + s.flow
    requires s.pc == EdgeExamined && (s.cur == s.source || s.cur in s.pred)
    requires s.outgoing == OutgoingEdges(g, s.cur) && s.k < |s.outgoing|
    ensures Valid(s, tr, g)
  {
  }

  /** After an edge is examined: the scan stops if its target is the sink, else moves on. */
  method AfterEdge(s: Frame, ghost tr: Trace, g: Graph) returns (s': Frame, ghost tr': Trace, r: Option<StepResult>)
    requires Valid(s, tr, g) && s.pc == EdgeExamined && s.k < |s.outgoing|
    ensures Valid(s', tr', After(g, r)) && Reports(s', r)
    ensures s'.source == s.source && s'.sink == s.sink && s'.flow == s.flow
    ensures TargetOf(g, s.outgoing[s.k]) == s.sink && s.sink in s.pred ==> s'.pc == PathShown
    ensures TargetOf(g, s.outgoing[s.k]) == s.sink && s.sink !in s.pred && |s.u| == 0 ==> s'.pc == Finished
    ensures TargetOf(g, s.outgoing[s.k]) == s.sink && s.sink !in s.pred && |s.u| > 0 ==>
      s'.pc == EdgeHighlighted || (s'.pc == NodePopped && s'.cur == s.u[|s.u| - 1])
    ensures TargetOf(g, s.outgoing[s.k]) != s.sink && s.k + 1 < |s.outgoing| ==>
      s'.pc == EdgeExamined && s'.cur == s.cur && s'.k == s.k + 1
    ensures tr'.base == tr.base
  {
    if TargetOf(g, s.outgoing[s.k]) == s.sink {
      s', tr', r := SearchLoop(s, tr, g);
    } else {
      s', tr', r := ScanEdge(s.(k := s.k + 1), tr, g);
    }
  }

  /**
   * Resuming after the path is shown: computes the bottleneck `df` along the path, which is
   * positive and at most every path edge's residual capacity, and emits the flow deltas of
   * the path edge into the sink.
   */
  method BeginAugment(s: Frame, ghost tr: Trace, g: Graph) returns (s': Frame, ghost tr': Trace, r: Option<StepResult>)
    requires Valid(s, tr, g) && s.pc == PathShown
    requires Forest(s.pred, tr.rank, s.source) && s.sink in s.pred
    ensures Valid(s', tr', After(g, r)) && Reports(s', r)
    ensures s'.pc == Augmented && s'.current == Some(s.pred[s.sink])
    ensures s'.source == s.source && s'.sink == s.sink && s'.flow == s.flow && s'.u == s.u && s'.pred == s.pred
    ensures MinAlong(None, PathFrom(s.pred, tr.rank, s.source, s.sink), e => Residual(g, e)) == Some(s'.df)
    ensures s'.df > 0
    ensures forall a :: a in PathFrom(s.pred, tr.rank, s.source, s.sink) ==> s'.df <= Residual(g, a.key)
    ensures tr'.base == tr.base
  {
    var path := PathFrom(s.pred, tr.rank, s.source, s.sink);
    PathReachesRoot(s.pred, tr.rank, s.source, s.sink);
    BottleneckPositive(path, e => Residual(g, e));
    BottleneckBounds(path, e => Residual(g, e));
    var d := Bottleneck(s.pred, tr.rank, s.source, s.sink, e => Residual(g, e));
    assert PathFrom(s.pred, tr.rank, s.source, s.sink) == [s.pred[s.sink]] + PathFrom(s.pred, tr.rank, s.source, s.pred[s.sink].from);
    s', tr', r := AugmentEdge(s.(df := d.value, current := Some(s.pred[s.sink])), tr.(augmented := []), g);
  }

  /** Resuming after a path edge's deltas: moves `current` to the next edge towards the source. */
  method AugmentNext(s: Frame, ghost tr: Trace, g: Graph) returns (s': Frame, ghost tr': Trace, r: Option<StepResult>)
    requires Valid(s, tr, g) && s.pc == Augmented && s.current.Some?
    ensures Valid(s', tr', After(g, r)) && Reports(s', r)
    ensures s'.source == s.source && s'.sink == s.sink
    ensures s.current.value.from in s.pred ==> s'.pc == Augmented && s'.flow == s.flow && s'.current == Some(s.pred[s.current.value.from])
    ensures s.current.value.from !in s.pred ==> s'.pc == PathCleared && s'.flow == s.flow + s.df
    ensures tr'.base == tr.base
  {
    var from := s.current.value.from;
    if from in s.pred {
      assert PathFrom(s.pred, tr.rank, s.source, from) == [s.pred[from]] + PathFrom(s.pred, tr.rank, s.source, s.pred[from].from);
      s', tr', r := AugmentEdge(s.(current := Some(s.pred[from])), tr, g);
    } else {
      s', tr', r := EndAugment(s.(current := None), tr, g);
    }
  }

  /**
   * The path edge `current` gets `+df` and its reverse edge `-df`; the reverse exists because
   * a path edge is never a self-loop.
   */
  method AugmentEdge(s: Frame, ghost tr: Trace, g: Graph) returns (s': Frame, ghost tr': Trace, r: Option<StepResult>)
    requires Common(s, tr, g) && s.df > 0 && s.sink in s.pred
    requires OutFlow(g, s.source) == tr.base + s.flow
    requires s.current.Some? && s.current.value.to in s.pred && s.pred[s.current.value.to] == s.current.value
    requires tr.augmented + PathFrom(s.pred, tr.rank, s.source, s.current.value.to) == PathFrom(s.pred, tr.rank, s.source, s.sink)
    ensures Valid(s', tr', After(g, r)) && Reports(s', r)
    ensures s' == s.(pc := Augmented) && tr'.augmented == tr.augmented + [s.current.value]
    ensures ReverseEdge(g, s.current.value.key).Some?
    ensures r == Some(StepResult([22, 23], s.u,
      [EdgeFlow(s.current.value.key, s.df), EdgeFlow(ReverseEdge(g, s.current.value.key).value, -s.df)], false))
    ensures tr'.base == tr.base
  {
    var a := s.current.value;
    assert a.from != a.to;
    assert g.edges[a.key].source != g.edges[a.key].target;
    var rev := ReverseEdge(g, a.key).value;
    var muts := [EdgeFlow(a.key, s.df), EdgeFlow(rev, -s.df)];
    s', tr' := s.(pc := Augmented), tr.(augmented := tr.augmented + [a]);
    r := Some(StepResult([22, 23], s.u, muts, false));
    var h := ApplyAll(g, muts);
    assert After(g, r) == h;
    assert Common(s', tr', h) by {
      KeepCommon(s, tr, g, s', tr', muts);
    }
    assert OutFlow(h, s.source) == OutFlow(g, s.source) + (if a.from == s.source then s.df else 0) by {
      SetSizeIffDistinct(g.edgeOrder);
      AugmentOutFlow(g, a, rev, s.df, s.source);
    }
    assert AugmentingAt(s.pred, tr.rank, s.source, s.sink, s.current, tr'.augmented) by {
      assert PathFrom(s.pred, tr.rank, s.source, a.to) == [a] + PathFrom(s.pred, tr.rank, s.source, a.from);
      ConcatAssociative(tr.augmented, [a], PathFrom(s.pred, tr.rank, s.source, a.from));
    }
    AugmentedValid(s', tr', h);
  }

  /** What a path edge's deltas leave behind is the invariant at `Augmented`. */
  lemma {:induction false} AugmentedValid(s: Frame, tr: Trace, g: Graph)
    requires Common(s, tr, g) && s.pc == Augmented && s.sink in s.pred && s.df > 0
    requires AugmentingAt(s.pred, tr.rank, s.source, s.sink, s.current, tr.augmented)
    requires OutFlow(g, s.source) == tr.base + s.flow + (if s.current.value.from == s.source then s.df else 0)
    ensures Valid(s, tr, g)
  {
  }

  /**
   * The deltas of a path edge change the flow out of the source by `df` exactly when the edge
   * leaves the source: its reverse edge starts at the edge's target, which is never the source.
   */
  lemma {:induction false} AugmentOutFlow(g: Graph, a: Arc<Id>, rev: Id, df: int, source: Id)
    requires Distinct(g.edgeOrder) && a.key in g.edges && a.key in g.edgeOrder
    requires g.edges[a.key].source == a.from && g.edges[a.key].target == a.to && a.to != source
    requires rev in g.edgeOrder && AntiParallel(g, a.key, rev)
    ensures OutFlow(ApplyAll(g, [EdgeFlow(a.key, df), EdgeFlow(rev, -df)]), source)
         == OutFlow(g, source) + (if a.from == source then df else 0)
  {
    var m1, m2 := EdgeFlow(a.key, df), EdgeFlow(rev, -df);
    var g1 := Applied(g, m1);
    assert [m1, m2][..1] == [m1] && [m1][..0] == [];
    assert ApplyAll(g, [m1]) == g1;
    assert ApplyAll(g, [m1, m2]) == Applied(g1, m2);
    OutFlowEdgeFlow(g, a.key, df, source);
    AppliedKeepsShape(g, EdgeFlow(a.key, df));
    OutFlowEdgeFlow(g1, rev, -df, source);
  }

  /** The path is exhausted: the total flow grows by `df` and the path highlights are undone. */
  method EndAugment(s: Frame, ghost tr: Trace, g: Graph) returns (s': Frame, ghost tr': Trace, r: Option<StepResult>)
    requires Common(s, tr, g) && s.df > 0 && s.sink in s.pred
    requires OutFlow(g, s.source) == tr.base + s.flow + s.df
    requires tr.augmented == PathFrom(s.pred, tr.rank, s.source, s.sink)
    ensures Valid(s', tr', After(g, r)) && Reports(s', r)
    ensures s' == s.(pc := PathCleared, flow := s.flow + s.df) && tr' == tr
    ensures r == Some(StepResult([25], s.u, s.undoUpdate, false))
    ensures tr'.base == tr.base
  {
    s', tr' := s.(pc := PathCleared, flow := s.flow + s.df), tr;
    r := Some(StepResult([25], s.u, s.undoUpdate, false));
    AfterMutations(g, s.undoUpdate, s.pred, s.source);
    KeepCommon(s, tr, g, s', tr', s.undoUpdate);
  }
}
