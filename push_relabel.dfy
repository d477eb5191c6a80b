/**
 * Generic Goldberg–Tarjan push-relabel: the push and relabel operations, which build
 * mutation values from the current graph, and the generator that tries pushes before
 * relabels and undoes the previous operation's highlights at the start of each step.
 */
module PushRelabel {
  import opened Wrappers
  import opened Seqs
  import opened CyGraph
  import opened GraphMutations
  import opened Accounting
  import opened AlgorithmStep

  // ----- Push -----

  /**
   * `pushApplicable`: the edge leaves a node other than the sink that holds excess, has
   * residual capacity, and runs exactly one level downhill.
   */
  predicate PushApplicable(g: Graph, e: Id) {
    var u, v := SourceOf(g, e), TargetOf(g, e);
    && TypeOf(g, u) != Sink
    && Excess(g, u) > 0
    && Capacity(g, e) > Flow(g, e)
    && Height(g, u) == Height(g, v) + 1
  }

  /** `Math.min(excess(u), capacity - flow)`: what a push along `e` moves. */
  function PushAmount(g: Graph, e: Id): (df: int)
    ensures df <= Excess(g, SourceOf(g, e)) && df <= Residual(g, e)
    ensures df == Excess(g, SourceOf(g, e)) || df == Residual(g, e)
  {
    var ex, res := Excess(g, SourceOf(g, e)), Residual(g, e);
    if ex < res then ex else res
  }

  /**
   * `push`: `df` more flow along the edge and `df` less along its reverse edge, `df` excess
   * moved from the edge's source to its target, and all four elements highlighted. The
   * reverse edge must exist: the facade cannot build mutations for a missing element.
   */
  function Push(g: Graph, e: Id): Mutation
    requires ReverseEdge(g, e).Some?
  {
    var u, v, r, df := SourceOf(g, e), TargetOf(g, e), ReverseEdge(g, e).value, PushAmount(g, e);
    Combined([
      EdgeFlow(e, df), EdgeHighlight(e, Add),
      EdgeFlow(r, -df), EdgeHighlight(r, Add),
      NodeExcess(u, -df), NodeHighlight(u, Add),
      NodeExcess(v, df), NodeHighlight(v, Add)])
  }

  /** An applicable edge is a real edge, not a self-loop, and the push moves a positive amount. */
  lemma {:induction false} PushApplicableEdge(g: Graph, e: Id)
    requires PushApplicable(g, e)
    ensures e in g.edges && g.edges[e].source != g.edges[e].target
    ensures SourceOf(g, e) in g.nodes
    ensures PushAmount(g, e) > 0
    ensures Paired(g) ==> ReverseEdge(g, e).Some?
  {
    assert ReverseEdge(g, e) == ReverseEdge(g, e);
  }

  /** A reverse edge only exists for an edge that is not a self-loop. */
  lemma {:induction false} ReverseEdgeNotSelfLoop(g: Graph, e: Id)
    requires ReverseEdge(g, e).Some?
    ensures e in g.edges && g.edges[e].source != g.edges[e].target
  {
  }

  /**
   * What a push moves: `df` onto the edge and `-df` onto its reverse and nothing onto any
   * other edge; `-df` excess at the edge's source, `df` at its target, none elsewhere; and no
   * excess in total over the nodes that exist.
   */
  lemma {:induction false} PushMoves(g: Graph, e: Id)
    requires ReverseEdge(g, e).Some?
    ensures var m, r, df := Push(g, e), ReverseEdge(g, e).value, PushAmount(g, e);
      && FlowDelta(m, e) == df
      && FlowDelta(m, r) == -df
      && (forall x :: x != e && x != r ==> FlowDelta(m, x) == 0)
      && ExcessDelta(m, SourceOf(g, e)) == -df
      && ExcessDelta(m, TargetOf(g, e)) == df
      && (forall n :: n != SourceOf(g, e) && n != TargetOf(g, e) ==> ExcessDelta(m, n) == 0)
      && (SourceOf(g, e) in g.nodes && TargetOf(g, e) in g.nodes ==> NetExcess(m, g.nodes.Keys) == 0)
  {
    var u, v, r, df := SourceOf(g, e), TargetOf(g, e), ReverseEdge(g, e).value, PushAmount(g, e);
    var ps := Push(g, e).parts;
    assert u != v && r != e;
    forall x ensures FlowDeltaAll(ps, x) == (if x == e then df else 0) + (if x == r then -df else 0) {
      PartsFlow(ps, x);
    }
    forall n ensures ExcessDeltaAll(ps, n) == (if n == u then -df else 0) + (if n == v then df else 0) {
      PartsExcess(ps, n);
    }
    PartsNet(ps, g.nodes.Keys);
  }

  /** The flow deltas of the eight parts of a push, one part at a time. */
  lemma {:induction false} PartsFlow(ps: seq<Mutation>, x: Id)
    requires |ps| == 8 && ps[0].EdgeFlow? && ps[2].EdgeFlow?
    requires !ps[1].EdgeFlow? && !ps[1].Combined? && !ps[3].EdgeFlow? && !ps[3].Combined?
    requires forall i :: 4 <= i < 8 ==> !ps[i].EdgeFlow? && !ps[i].Combined?
    ensures FlowDeltaAll(ps, x) == FlowDelta(ps[0], x) + FlowDelta(ps[2], x)
  {
    assert ps[..8] == ps;
    FlowDeltaPrefix(ps, 1, x); FlowDeltaPrefix(ps, 2, x); FlowDeltaPrefix(ps, 3, x); FlowDeltaPrefix(ps, 4, x);
    FlowDeltaPrefix(ps, 5, x); FlowDeltaPrefix(ps, 6, x); FlowDeltaPrefix(ps, 7, x); FlowDeltaPrefix(ps, 8, x);
  }

  lemma {:induction false} PartsExcess(ps: seq<Mutation>, n: Id)
    requires |ps| == 8 && ps[4].NodeExcess? && ps[6].NodeExcess?
    requires forall i :: 0 <= i < 8 && i != 4 && i != 6 ==> !ps[i].NodeExcess? && !ps[i].Combined?
    ensures ExcessDeltaAll(ps, n) == ExcessDelta(ps[4], n) + ExcessDelta(ps[6], n)
  {
    assert ps[..8] == ps;
    ExcessDeltaPrefix(ps, 1, n); ExcessDeltaPrefix(ps, 2, n); ExcessDeltaPrefix(ps, 3, n); ExcessDeltaPrefix(ps, 4, n);
    ExcessDeltaPrefix(ps, 5, n); ExcessDeltaPrefix(ps, 6, n); ExcessDeltaPrefix(ps, 7, n); ExcessDeltaPrefix(ps, 8, n);
  }

  lemma {:induction false} PartsNet(ps: seq<Mutation>, keys: set<Id>)
    requires |ps| == 8 && ps[4].NodeExcess? && ps[6].NodeExcess?
    requires forall i :: 0 <= i < 8 && i != 4 && i != 6 ==> !ps[i].NodeExcess? && !ps[i].Combined?
    ensures NetExcessAll(ps, keys) == NetExcess(ps[4], keys) + NetExcess(ps[6], keys)
  {
    assert ps[..8] == ps;
    NetExcessPrefix(ps, 1, keys); NetExcessPrefix(ps, 2, keys); NetExcessPrefix(ps, 3, keys); NetExcessPrefix(ps, 4, keys);
    NetExcessPrefix(ps, 5, keys); NetExcessPrefix(ps, 6, keys); NetExcessPrefix(ps, 7, keys); NetExcessPrefix(ps, 8, keys);
  }

  /** Every edge carries at most its capacity. */
  ghost predicate FlowWithin(g: Graph) {
    forall e :: e in g.edges ==> g.edges[e].flow <= g.edges[e].capacity
  }

  /**
   * A push computed on `g` and applied to a graph `h` of the same shape and flows (the graph
   * once the previous step's highlights are undone) keeps every flow within its capacity:
   * the edge gains at most its residual, the reverse edge only loses flow.
   */
  lemma {:induction false} PushKeepsFlowWithin(g: Graph, h: Graph, e: Id)
    requires PushApplicable(g, e) && ReverseEdge(g, e).Some? && FlowWithin(g)
    requires SameShape(h, g) && forall x :: x in g.edges ==> Flow(h, x) == Flow(g, x)
    ensures FlowWithin(Applied(h, Push(g, e)))
  {
    var h' := Applied(h, Push(g, e));
    AppliedKeepsShape(h, Push(g, e));
    PushMoves(g, e);
    forall x | x in h'.edges ensures h'.edges[x].flow <= h'.edges[x].capacity {
      FlowAccounting(h, Push(g, e), x);
    }
  }

  /**
   * On a well-formed graph a push moves excess and creates none: the total excess is the same
   * before and after, whatever graph of the same shape it is applied to.
   */
  lemma {:induction false} PushConservesExcess(g: Graph, h: Graph, e: Id)
    requires PushApplicable(g, e) && ReverseEdge(g, e).Some?
    requires WellFormed(h) && SameShape(h, g)
    ensures TotalExcess(Applied(h, Push(g, e))) == TotalExcess(h)
  {
    PushApplicableEdge(g, e);
    PushMoves(g, e);
    TotalExcessAccounting(h, Push(g, e));
  }

  /**
   * Once a push is applied, the same push would move nothing: it used up either the
   * excess of the edge's source or the edge's residual capacity.
   */
  lemma {:induction false} PushExhausts(g: Graph, h: Graph, e: Id)
    requires PushApplicable(g, e) && ReverseEdge(g, e).Some?
    requires SameShape(h, g) && Flow(h, e) == Flow(g, e)
    requires Excess(h, SourceOf(g, e)) == Excess(g, SourceOf(g, e))
    ensures PushAmount(Applied(h, Push(g, e)), e) == 0
  {
    var h', u := Applied(h, Push(g, e)), SourceOf(g, e);
    PushApplicableEdge(g, e);
    PushMoves(g, e);
    AppliedKeepsShape(h, Push(g, e));
    FlowAccounting(h, Push(g, e), e);
    ExcessAccounting(h, Push(g, e), u);
    assert SourceOf(h', e) == u;
    assert Excess(h', u) == Excess(g, u) - PushAmount(g, e);
    assert Residual(h', e) == Residual(g, e) - PushAmount(g, e);
  }

  /** A push that moves nothing only toggles highlights. */
  lemma {:induction false} EmptyPushNeutral(g: Graph, e: Id)
    requires ReverseEdge(g, e).Some? && PushAmount(g, e) == 0
    ensures Neutral(Push(g, e)) && MovesNothing(Push(g, e))
  {
    PushMoves(g, e);
  }

  // ----- Relabel -----

  /** The node's outgoing edges with residual capacity, in `getOutgoingEdges` order. */
  function ResidualEdges(g: Graph, u: Id): seq<Id> {
    Filter(OutgoingEdges(g, u), e => Capacity(g, e) > Flow(g, e))
  }

  /**
   * `relabelApplicable`: the node holds excess and no residual edge leaves it downhill
   * (vacuously so when it has no residual edge).
   */
  predicate RelabelApplicable(g: Graph, u: Id) {
    && Excess(g, u) > 0
    && forall e :: e in ResidualEdges(g, u) ==> Height(g, u) <= Height(g, TargetOf(g, e))
  }

  /** The heights of the edges' targets, in order. */
  function TargetHeights(g: Graph, es: seq<Id>): (hs: seq<int>)
    ensures |hs| == |es| && forall i :: 0 <= i < |es| ==> hs[i] == Height(g, TargetOf(g, es[i]))
  {
    seq(|es|, i requires 0 <= i < |es| => Height(g, TargetOf(g, es[i])))
  }

  /** `arr.reduce((min, val) => (min < val ? min : val), acc)`. */
  function MinFrom(acc: int, arr: seq<int>): int
    decreases |arr|
  {
    if arr == [] then acc else MinFrom(if acc < arr[0] then acc else arr[0], arr[1..])
  }

  /** `min`: the reduce seeded with the first element; undefined (None) for an empty list. */
  function Min(arr: seq<int>): Option<int> {
    if arr == [] then None else Some(MinFrom(arr[0], arr))
  }

  lemma {:induction false} MinFromBounds(acc: int, arr: seq<int>)
    ensures MinFrom(acc, arr) <= acc
    ensures forall i :: 0 <= i < |arr| ==> MinFrom(acc, arr) <= arr[i]
    ensures MinFrom(acc, arr) == acc || MinFrom(acc, arr) in arr
    decreases |arr|
  {
    if arr != [] {
      var acc' := if acc < arr[0] then acc else arr[0];
      MinFromBounds(acc', arr[1..]);
      forall i | 0 < i < |arr| ensures MinFrom(acc, arr) <= arr[i] {
        assert arr[1..][i - 1] == arr[i];
      }
      if MinFrom(acc, arr) != acc' {
        assert MinFrom(acc, arr) in arr[1..];
      }
    }
  }

  /** `min` is the least element of a non-empty list, and undefined exactly for the empty list. */
  lemma {:induction false} MinIsLeast(arr: seq<int>)
    ensures Min(arr).Some? <==> arr != []
    ensures Min(arr).Some? ==> Min(arr).value in arr && forall i :: 0 <= i < |arr| ==> Min(arr).value <= arr[i]
  {
    if arr != [] {
      MinFromBounds(arr[0], arr);
    }
  }

  /** The mutation of a relabel by `d` levels: the height delta and a highlight. */
  function Raise(u: Id, d: int): Mutation {
    Combined([NodeHeight(u, d), NodeHighlight(u, Add)])
  }

  /**
   * `relabel`: the height that puts the node one above its lowest residual neighbour, and a
   * highlight. None when the node has no residual edge: `min` of the empty list is undefined.
   */
  function Relabel(g: Graph, u: Id): Option<Mutation> {
    RelabelOver(g, u, ResidualEdges(g, u))
  }

  /** The relabel of `u` over the given residual edges. */
  function RelabelOver(g: Graph, u: Id, es: seq<Id>): Option<Mutation> {
    match Min(TargetHeights(g, es))
    case None => None
    case Some(least) => Some(Raise(u, 1 + least - Height(g, u)))
  }

  /** The lowest target height over a non-empty list of residual edges, and an edge that reaches it. */
  lemma {:induction false} LeastTarget(g: Graph, es: seq<Id>)
    requires es != []
    ensures Min(TargetHeights(g, es)).Some?
    ensures forall e :: e in es ==> Min(TargetHeights(g, es)).value <= Height(g, TargetOf(g, e))
    ensures exists e :: e in es && Min(TargetHeights(g, es)).value == Height(g, TargetOf(g, e))
  {
    var hs := TargetHeights(g, es);
    MinIsLeast(hs);
    var least := Min(hs).value;
    var k :| 0 <= k < |hs| && hs[k] == least;
    assert es[k] in es;
    forall e | e in es ensures least <= Height(g, TargetOf(g, e)) {
      var i :| 0 <= i < |es| && es[i] == e;
      assert hs[i] == Height(g, TargetOf(g, e));
    }
  }

  /** The relabel mutation exists exactly when the node has a residual edge. */
  lemma {:induction false} RelabelDefined(g: Graph, u: Id)
    ensures Relabel(g, u).Some? <==> ResidualEdges(g, u) != []
  {
    MinIsLeast(TargetHeights(g, ResidualEdges(g, u)));
  }

  /** Applying a relabel by `d` levels to a node that exists. */
  lemma {:induction false} RaiseApplied(g: Graph, u: Id, d: int)
    requires u in g.nodes
    ensures var g' := Applied(g, Raise(u, d));
      && g'.edges == g.edges
      && g'.nodes.Keys == g.nodes.Keys
      && Height(g', u) == Height(g, u) + d
      && (forall n :: n != u ==> Height(g', n) == Height(g, n))
      && (forall n :: Excess(g', n) == Excess(g, n))
  {
    var ps := [NodeHeight(u, d), NodeHighlight(u, Add)];
    ApplyAllSnoc(g, ps, 0);
    ApplyAllSnoc(g, ps, 1);
    assert ps[..2] == ps && ps[..0] == [];
  }

  /** A relabel moves no flow and no excess. */
  lemma {:induction false} RaiseMovesNothing(u: Id, d: int)
    ensures MovesNothing(Raise(u, d))
  {
    var ps := [NodeHeight(u, d), NodeHighlight(u, Add)];
    assert ps[..2] == ps;
    forall x ensures FlowDelta(Raise(u, d), x) == 0 {
      FlowDeltaPrefix(ps, 1, x);
      FlowDeltaPrefix(ps, 2, x);
    }
    forall n ensures ExcessDelta(Raise(u, d), n) == 0 {
      ExcessDeltaPrefix(ps, 1, n);
      ExcessDeltaPrefix(ps, 2, n);
    }
  }

  /**
   * An applicable relabel raises the node: to one above the lowest target of its residual
   * edges, so some residual edge now runs exactly one level downhill and none runs further.
   */
  lemma {:induction false} RelabelRaises(g: Graph, u: Id)
    requires RelabelApplicable(g, u) && u in g.nodes && ResidualEdges(g, u) != []
    ensures Relabel(g, u).Some?
    ensures var h' := Height(Applied(g, Relabel(g, u).value), u);
      && h' > Height(g, u)
      && (forall e :: e in ResidualEdges(g, u) ==> h' <= Height(g, TargetOf(g, e)) + 1)
      && (exists e :: e in ResidualEdges(g, u) && h' == Height(g, TargetOf(g, e)) + 1)
  {
    RelabelOverRaises(g, u, ResidualEdges(g, u));
  }

  lemma {:induction false} RelabelOverRaises(g: Graph, u: Id, es: seq<Id>)
    requires u in g.nodes && es != []
    requires forall e :: e in es ==> Height(g, u) <= Height(g, TargetOf(g, e))
    ensures RelabelOver(g, u, es).Some?
    ensures var h' := Height(Applied(g, RelabelOver(g, u, es).value), u);
      && h' > Height(g, u)
      && (forall e :: e in es ==> h' <= Height(g, TargetOf(g, e)) + 1)
      && (exists e :: e in es && h' == Height(g, TargetOf(g, e)) + 1)
  {
    LeastTarget(g, es);
    var least := Min(TargetHeights(g, es)).value;
    RaiseApplied(g, u, 1 + least - Height(g, u));
    var e :| e in es && least == Height(g, TargetOf(g, e));
    assert Height(g, u) <= least;
  }

  /** A relabel moves no flow and no excess. */
  lemma {:induction false} RelabelMovesNothing(g: Graph, u: Id)
    requires Relabel(g, u).Some?
    ensures MovesNothing(Relabel(g, u).value)
  {
    RelabelOverMovesNothing(g, u, ResidualEdges(g, u));
  }

  lemma {:induction false} RelabelOverMovesNothing(g: Graph, u: Id, es: seq<Id>)
    requires RelabelOver(g, u, es).Some?
    ensures MovesNothing(RelabelOver(g, u, es).value)
  {
    var least := Min(TargetHeights(g, es)).value;
    RaiseMovesNothing(u, 1 + least - Height(g, u));
  }

  /** Graphs of the same shape and flows give every node the same residual edges. */
  lemma {:induction false} ResidualEdgesSame(a: Graph, b: Graph, u: Id)
    requires SameShape(a, b) && forall x :: x in b.edges ==> Flow(a, x) == Flow(b, x)
    ensures ResidualEdges(a, u) == ResidualEdges(b, u)
  {
    SameShapeKeepsOutgoing(a, b, u);
    var out := OutgoingEdges(a, u);
    FilterSame(out, e => Capacity(a, e) > Flow(a, e), e => Capacity(b, e) > Flow(b, e));
  }

  /** Target heights agree when each listed edge's target has the same height in both graphs. */
  lemma {:induction false} TargetHeightsSame(a: Graph, b: Graph, es: seq<Id>)
    requires forall e :: e in es ==> Height(a, TargetOf(a, e)) == Height(b, TargetOf(b, e))
    ensures TargetHeights(a, es) == TargetHeights(b, es)
  {
  }

  /**
   * Once a relabel is applied, the same relabel would change the height by nothing, provided
   * the node has no residual self-loop (whose target height the relabel itself moves). The
   * relabel is computed on `g` and may be applied to any `h` that reads the same numbers.
   */
  lemma {:induction false} RelabelAgainIsZero(g: Graph, h: Graph, u: Id)
    requires u in g.nodes && Relabel(g, u).Some? && SameNumbers(h, g)
    requires forall e :: e in ResidualEdges(g, u) ==> TargetOf(g, e) != u
    ensures Relabel(Applied(h, Relabel(g, u).value), u) == Some(Raise(u, 0))
  {
    var es := ResidualEdges(g, u);
    RelabelOverAgainIsZero(g, h, u, es);
    ResidualEdgesSame(Applied(h, RelabelOver(g, u, es).value), g, u);
  }

  lemma {:induction false} RelabelOverAgainIsZero(g: Graph, h: Graph, u: Id, es: seq<Id>)
    requires u in g.nodes && RelabelOver(g, u, es).Some? && SameNumbers(h, g)
    requires forall e :: e in es ==> TargetOf(g, e) != u
    ensures var h' := Applied(h, RelabelOver(g, u, es).value);
      && RelabelOver(h', u, es) == Some(Raise(u, 0))
      && SameShape(h', g) && forall x :: x in g.edges ==> Flow(h', x) == Flow(g, x)
  {
    var least := Min(TargetHeights(g, es)).value;
    var d := 1 + least - Height(g, u);
    RaiseAgain(g, h, u, d, es);
    assert Min(TargetHeights(Applied(h, Raise(u, d)), es)) == Some(least);
  }

  /**
   * Raising `u` in a graph with the numbers of `g` leaves the target heights of edges that
   * do not end at `u` as they are in `g`, and the shape and flows as well.
   */
  lemma {:induction false} RaiseAgain(g: Graph, h: Graph, u: Id, d: int, es: seq<Id>)
    requires u in g.nodes && SameNumbers(h, g)
    requires forall e :: e in es ==> TargetOf(g, e) != u
    ensures var h' := Applied(h, Raise(u, d));
      && TargetHeights(h', es) == TargetHeights(g, es)
      && Height(h', u) == Height(g, u) + d
      && SameShape(h', g) && forall x :: x in g.edges ==> Flow(h', x) == Flow(g, x)
  {
    var h' := Applied(h, Raise(u, d));
    RaiseApplied(h, u, d);
    AppliedKeepsShape(h, Raise(u, d));
    forall e | e in es ensures Height(h', TargetOf(h', e)) == Height(g, TargetOf(g, e)) {
      assert TargetOf(h', e) == TargetOf(g, e);
    }
    TargetHeightsSame(h', g, es);
  }

  /** A relabel computed on `g` and applied to a graph of the same shape and flows is defined again there. */
  lemma {:induction false} RelabelStaysDefined(g: Graph, h: Graph, u: Id)
    requires Relabel(g, u).Some? && SameShape(h, g)
    requires forall x :: x in g.edges ==> Flow(h, x) == Flow(g, x)
    ensures var h' := Applied(h, Relabel(g, u).value);
      && Relabel(h', u).Some?
      && SameShape(h', g) && forall x :: x in g.edges ==> Flow(h', x) == Flow(g, x)
  {
    var m := Relabel(g, u).value;
    RelabelMovesNothing(g, u);
    StillAfter(h, m);
    AppliedKeepsShape(h, m);
    ResidualEdgesSame(Applied(h, m), g, u);
    RelabelDefined(g, u);
    RelabelDefined(Applied(h, m), u);
  }

  // ----- Initialisation -----

  /** The first step: a zero height delta and a zero excess delta for each node, in order. */
  function ResetParts(ns: seq<Id>): (ps: seq<Mutation>)
    ensures |ps| == |ns|
  {
    seq(|ns|, i requires 0 <= i < |ns| => Combined([NodeHeight(ns[i], 0), NodeExcess(ns[i], 0)]))
  }

  /** The first step changes no number as the getters read it; it only sets unset values to 0. */
  lemma {:induction false} ResetChangesNothing(g: Graph)
    ensures SameNumbers(ApplyAll(g, ResetParts(g.nodeOrder)), g)
  {
    var ps := ResetParts(g.nodeOrder);
    forall i | 0 <= i < |ps| ensures Neutral(ps[i]) {
      assert ps[i].parts[0].dh == 0 && ps[i].parts[1].de == 0;
    }
    NeutralAllKeepsNumbers(g, ps);
  }

  /** The second step: the source is raised by the number of nodes and highlighted. */
  function LiftParts(g: Graph, source: Id): seq<Mutation> {
    [NodeHeight(source, |g.nodeOrder|), NodeHighlight(source, Add)]
  }

  lemma {:induction false} LiftRaisesSource(g: Graph, source: Id)
    requires source in g.nodes
    ensures var g' := ApplyAll(g, LiftParts(g, source));
      && Height(g', source) == Height(g, source) + |g.nodeOrder|
      && (forall n :: n != source ==> Height(g', n) == Height(g, n))
      && (forall n :: Excess(g', n) == Excess(g, n))
      && g'.edges == g.edges
  {
    var ps := LiftParts(g, source);
    ApplyAllSnoc(g, ps, 0);
    ApplyAllSnoc(g, ps, 1);
    assert ps[..2] == ps && ps[..0] == [];
    assert ApplyAll(g, ps) == Applied(g, Raise(source, |g.nodeOrder|));
    RaiseApplied(g, source, |g.nodeOrder|);
  }

  /** Saturating one edge out of the source: its capacity as flow, as excess at its target, and as deficit at the source. */
  function PreflowPart(g: Graph, source: Id, e: Id): Mutation {
    Combined([
      EdgeFlow(e, Capacity(g, e)),
      NodeExcess(TargetOf(g, e), Capacity(g, e)),
      NodeExcess(source, -Capacity(g, e)),
      EdgeHighlight(e, Add)])
  }

  /** The third step: every outgoing edge of the source saturated, in `getOutgoingEdges` order. */
  function Preflow(g: Graph, source: Id): (ps: seq<Mutation>)
    ensures |ps| == |OutgoingEdges(g, source)|
  {
    var out := OutgoingEdges(g, source);
    seq(|out|, i requires 0 <= i < |out| => PreflowPart(g, source, out[i]))
  }

  lemma {:induction false} PreflowPartMoves(g: Graph, source: Id, e: Id)
    ensures forall x :: FlowDelta(PreflowPart(g, source, e), x) == if x == e then Capacity(g, e) else 0
    ensures e in g.edges && source in g.nodes && TargetOf(g, e) in g.nodes ==>
      NetExcess(PreflowPart(g, source, e), g.nodes.Keys) == 0
  {
    var ps := PreflowPart(g, source, e).parts;
    assert ps[..4] == ps;
    forall x ensures FlowDelta(PreflowPart(g, source, e), x) == if x == e then Capacity(g, e) else 0 {
      FlowDeltaPrefix(ps, 1, x); FlowDeltaPrefix(ps, 2, x); FlowDeltaPrefix(ps, 3, x); FlowDeltaPrefix(ps, 4, x);
    }
    var keys := g.nodes.Keys;
    NetExcessPrefix(ps, 1, keys); NetExcessPrefix(ps, 2, keys); NetExcessPrefix(ps, 3, keys); NetExcessPrefix(ps, 4, keys);
  }

  /** `ps` saturates the edges of `out` one by one, as the preflow does. */
  ghost predicate Saturating(g: Graph, source: Id, out: seq<Id>, ps: seq<Mutation>) {
    |ps| == |out| && forall i :: 0 <= i < |ps| ==> ps[i] == PreflowPart(g, source, out[i])
  }

  lemma {:induction false} PreflowIsSaturating(g: Graph, source: Id)
    ensures Saturating(g, source, OutgoingEdges(g, source), Preflow(g, source))
  {
  }

  /** The flow the first `k` parts of a saturating sequence put on edge `x`. */
  lemma {:induction false} SaturatingFlowPrefix(g: Graph, source: Id, out: seq<Id>, ps: seq<Mutation>, x: Id, k: nat)
    requires Saturating(g, source, out, ps) && k <= |out|
    ensures x !in out[..k] ==> FlowDeltaAll(ps[..k], x) == 0
    ensures Distinct(out) && x in out[..k] ==> FlowDeltaAll(ps[..k], x) == Capacity(g, x)
  {
    if k > 0 {
      SaturatingFlowPrefix(g, source, out, ps, x, k - 1);
      FlowDeltaPrefix(ps, k, x);
      PreflowPartMoves(g, source, out[k - 1]);
      assert out[..k] == out[..k - 1] + [out[k - 1]];
      if Distinct(out) && x == out[k - 1] {
        assert x !in out[..k - 1];
      }
    } else {
      assert ps[..0] == [];
    }
  }

  /** The net excess the first `k` parts of a saturating sequence create: none, when its edges exist. */
  lemma {:induction false} SaturatingNetPrefix(g: Graph, source: Id, out: seq<Id>, ps: seq<Mutation>, k: nat)
    requires Saturating(g, source, out, ps) && k <= |out|
    requires forall e :: e in out ==> e in g.edges && source in g.nodes && TargetOf(g, e) in g.nodes
    ensures NetExcessAll(ps[..k], g.nodes.Keys) == 0
  {
    if k > 0 {
      SaturatingNetPrefix(g, source, out, ps, k - 1);
      NetExcessPrefix(ps, k, g.nodes.Keys);
      assert out[k - 1] in out;
      PreflowPartMoves(g, source, out[k - 1]);
    } else {
      assert ps[..0] == [];
    }
  }

  /** The preflow saturates each outgoing edge of the source, once, on a well-formed graph. */
  lemma {:induction false} PreflowSaturates(g: Graph, source: Id, e: Id)
    requires WellFormed(g) && e in g.edges && g.edges[e].source == source
    ensures Flow(ApplyAll(g, Preflow(g, source)), e) == Flow(g, e) + Capacity(g, e)
  {
    var out, ps := OutgoingEdges(g, source), Preflow(g, source);
    OutgoingEdgesExact(g, source);
    PreflowIsSaturating(g, source);
    SaturatingFlowPrefix(g, source, out, ps, e, |out|);
    assert out[..|out|] == out && ps[..|ps|] == ps;
    FlowAccountingAll(g, ps, e);
  }

  /**
   * The preflow leaves every edge that does not leave the source as it was; in particular
   * the reverse edges of the saturated edges keep their flow.
   */
  lemma {:induction false} PreflowLeavesOthers(g: Graph, source: Id, x: Id)
    requires x in g.edges && g.edges[x].source != source
    ensures Flow(ApplyAll(g, Preflow(g, source)), x) == Flow(g, x)
  {
    var out, ps := OutgoingEdges(g, source), Preflow(g, source);
    if x in out {
      OutgoingEdgesSound(g, source, x);
    }
    PreflowIsSaturating(g, source);
    SaturatingFlowPrefix(g, source, out, ps, x, |out|);
    assert out[..|out|] == out && ps[..|ps|] == ps;
    FlowAccountingAll(g, ps, x);
  }

  /** The preflow moves excess from the source to the targets and creates none. */
  lemma {:induction false} PreflowConservesExcess(g: Graph, source: Id)
    requires WellFormed(g)
    ensures TotalExcess(ApplyAll(g, Preflow(g, source))) == TotalExcess(g)
  {
    var out, ps := OutgoingEdges(g, source), Preflow(g, source);
    PreflowIsSaturating(g, source);
    forall e | e in out ensures e in g.edges && source in g.nodes && TargetOf(g, e) in g.nodes {
      OutgoingEdgesSound(g, source, e);
    }
    SaturatingNetPrefix(g, source, out, ps, |out|);
    assert ps[..|ps|] == ps;
    TotalExcessAccountingAll(g, ps);
  }

  /** Every edge that takes flow out of the source after the preflow was carrying none before. */
  lemma {:induction false} PreflowWithinCapacity(g: Graph, source: Id)
    requires WellFormed(g) && FlowWithin(g)
    requires forall e :: e in OutgoingEdges(g, source) ==> Flow(g, e) <= 0
    ensures FlowWithin(ApplyAll(g, Preflow(g, source)))
  {
    var g' := ApplyAll(g, Preflow(g, source));
    ApplyAllKeepsShape(g, Preflow(g, source));
    OutgoingEdgesExact(g, source);
    forall x | x in g'.edges ensures g'.edges[x].flow <= g'.edges[x].capacity {
      if g.edges[x].source == source {
        PreflowSaturates(g, source, x);
      } else {
        PreflowLeavesOthers(g, source, x);
      }
    }
  }

  // ----- The generator -----

  /** The `yield` the generator is suspended at. */
  datatype Pc =
    | NotStarted            // before the first `next()`
    | HeightsReset          // after the step setting heights and excesses
    | SourceLifted          // after the step raising the source
    | Preflowed             // after the step saturating the source's outgoing edges
    | Pushed(edge: Id)      // after the step pushing along `edge`
    | Relabelled(node: Id)  // after the step relabelling `node`
    | Finished              // after the final `done` step
    | Stuck                 // a relabel found no residual edge, so `min` had nothing to reduce
    | Returned              // the generator has returned

  /**
   * The generator's suspended state. `mutationToUndo` is recomputed when the generator
   * resumes, from the graph it resumes on, so the suspension point determines it.
   */
  datatype Frame = Frame(source: Id, pc: Pc)

  /** The edge highlights of the preflow step, one per edge, in order. */
  function EdgeHighlights(es: seq<Id>): (ps: seq<Mutation>)
    ensures |ps| == |es| && forall i :: 0 <= i < |es| ==> ps[i] == EdgeHighlight(es[i], Add)
  {
    seq(|es|, i requires 0 <= i < |es| => EdgeHighlight(es[i], Add))
  }

  /** The first `mutationToUndo`: the source and its outgoing edges, highlighted by the first steps. */
  function SourceHighlights(g: Graph, source: Id): Mutation {
    Combined([NodeHighlight(source, Add)] + EdgeHighlights(OutgoingEdges(g, source)))
  }

  lemma {:induction false} SourceHighlightsOnly(g: Graph, source: Id)
    ensures HighlightOnly(SourceHighlights(g, source))
  {
    var hs := EdgeHighlights(OutgoingEdges(g, source));
    var ps := [NodeHighlight(source, Add)] + hs;
    forall i | 0 <= i < |ps| ensures HighlightOnly(ps[i]) {
      if i > 0 {
        assert ps[i] == hs[i - 1];
      }
    }
  }

  /** No edge of the graph is a self-loop. */
  ghost predicate NoSelfLoops(g: Graph) {
    forall e :: e in g.edges ==> g.edges[e].source != g.edges[e].target
  }

  /** The generator is inside its `while` loop, about to recompute `mutationToUndo`. */
  predicate InLoop(s: Frame) {
    s.pc.Preflowed? || s.pc.Pushed? || s.pc.Relabelled?
  }

  /**
   * What holds of a suspended generator on the graph `g` the caller holds: every edge but a
   * self-loop has its reverse, the edge just pushed along has nothing left to push, and the
   * node just relabelled can be relabelled again, by nothing when it has no self-loop.
   */
  ghost predicate Valid(s: Frame, g: Graph) {
    && Paired(g)
    && match s.pc
       case Pushed(e) => e in g.edges && g.edges[e].source != g.edges[e].target && PushAmount(g, e) == 0
       case Relabelled(n) =>
         && n in g.nodes && Relabel(g, n).Some?
         && (NoSelfLoops(g) ==> Relabel(g, n) == Some(Raise(n, 0)))
       case _ => true
  }

  /** `mutationToUndo` as the generator recomputes it on resuming inside its loop. */
  function Undo(s: Frame, g: Graph): Mutation
    requires Valid(s, g) && InLoop(s)
  {
    match s.pc
    case Preflowed => SourceHighlights(g, s.source)
    case Pushed(e) => Push(g, e)
    case Relabelled(n) => Relabel(g, n).value
  }

  /** The mutation to undo moves no flow and no excess, and without self-loops changes no number at all. */
  lemma {:induction false} UndoMovesNothing(s: Frame, g: Graph)
    requires Valid(s, g) && InLoop(s)
    ensures MovesNothing(Undo(s, g))
    ensures NoSelfLoops(g) ==> Neutral(Undo(s, g))
  {
    match s.pc
    case Preflowed =>
      SourceHighlightsOnly(g, s.source);
      HighlightOnlyMovesNothing(Undo(s, g));
      HighlightOnlyNeutral(Undo(s, g));
    case Pushed(e) =>
      EmptyPushNeutral(g, e);
    case Relabelled(n) =>
      RelabelMovesNothing(g, n);
      RaiseZeroNeutral(n);
  }

  /** A relabel by zero levels changes no number. */
  lemma {:induction false} RaiseZeroNeutral(u: Id)
    ensures Neutral(Raise(u, 0))
  {
    var ps := Raise(u, 0).parts;
    assert Neutral(ps[0]) && Neutral(ps[1]);
  }

  /** The index of the first edge, in `getEdges` order, a push applies to. */
  function FirstPush(g: Graph): (k: Option<nat>)
    ensures k.Some? ==> k.value < |g.edgeOrder| && PushApplicable(g, g.edgeOrder[k.value])
    ensures k.Some? ==> forall j :: 0 <= j < k.value ==> !PushApplicable(g, g.edgeOrder[j])
    ensures k.None? ==> forall j :: 0 <= j < |g.edgeOrder| ==> !PushApplicable(g, g.edgeOrder[j])
  {
    FindFirst(g.edgeOrder, e => PushApplicable(g, e))
  }

  /** The index of the first node, in `getNodes` order, a relabel applies to. */
  function FirstRelabel(g: Graph): (k: Option<nat>)
    ensures k.Some? ==> k.value < |g.nodeOrder| && RelabelApplicable(g, g.nodeOrder[k.value])
    ensures k.Some? ==> forall j :: 0 <= j < k.value ==> !RelabelApplicable(g, g.nodeOrder[j])
    ensures k.None? ==> forall j :: 0 <= j < |g.nodeOrder| ==> !RelabelApplicable(g, g.nodeOrder[j])
  {
    FindFirst(g.nodeOrder, n => RelabelApplicable(g, n))
  }

  /**
   * One pass of the `while` loop with `undo` as `mutationToUndo`: the first applicable push,
   * else the first applicable relabel, each yielded after undoing the previous highlights;
   * with neither, the final step.
   */
  function Loop(s: Frame, undo: Mutation, g: Graph): (Frame, Option<StepResult>)
    requires Paired(g)
  {
    match FirstPush(g)
    case Some(k) =>
      var e := g.edgeOrder[k];
      PushApplicableEdge(g, e);
      (s.(pc := Pushed(e)), Some(StepResult([13, 19, 20, 21, 22, 23], [], [Inverse(undo), Push(g, e)], false)))
    case None =>
      match FirstRelabel(g)
      case Some(k) =>
        (match Relabel(g, g.nodeOrder[k])
         case Some(m) =>
           (s.(pc := Relabelled(g.nodeOrder[k])), Some(StepResult([13, 27], [], [Inverse(undo), m], false)))
         case None => (s.(pc := Stuck), None))
      case None => (s.(pc := Finished), Some(StepResult([15], [], [Inverse(undo)], true)))
  }

  /** What `next()` does from each suspension point: the new frame and the step it yields. */
  function Step(s: Frame, g: Graph): (Frame, Option<StepResult>)
    requires Valid(s, g)
  {
    match s.pc
    case NotStarted =>
      (s.(pc := HeightsReset), Some(StepResult([2, 3, 4, 5], [], ResetParts(g.nodeOrder), false)))
    case HeightsReset =>
      (s.(pc := SourceLifted), Some(StepResult([6], [], LiftParts(g, s.source), false)))
    case SourceLifted =>
      (s.(pc := Preflowed), Some(StepResult([7, 8, 9, 10, 11], [], Preflow(g, s.source), false)))
    case Preflowed => Loop(s, Undo(s, g), g)
    case Pushed(_) => Loop(s, Undo(s, g), g)
    case Relabelled(_) => Loop(s, Undo(s, g), g)
    case Finished => (s.(pc := Returned), None)
    case Stuck => (s, None)
    case Returned => (s, None)
  }

  /** `implementation(graph)`: the generator is created; nothing runs before the first `next()`. */
  method Create(g: Graph) returns (s: Frame)
    requires Paired(g) && SourceNode(g).Some?
    ensures Valid(s, g) && s == Frame(SourceNode(g).value, NotStarted)
  {
    s := Frame(SourceNode(g).value, NotStarted);
  }

  /**
   * `next()`: resumes the generator suspended in `s` on the graph `g`, the graph with every
   * mutation yielded so far applied, and returns the next step, or None once it has returned
   * (or is stuck). The invariant holds of the new frame on the graph after the step.
   */
  method Next(s: Frame, g: Graph) returns (s': Frame, r: Option<StepResult>)
    requires Valid(s, g)
    ensures (s', r) == Step(s, g)
    ensures Valid(s', After(g, r))
  {
    match s.pc {
      case NotStarted =>
        s', r := s.(pc := HeightsReset), Some(StepResult([2, 3, 4, 5], [], ResetParts(g.nodeOrder), false));
      case HeightsReset =>
        s', r := s.(pc := SourceLifted), Some(StepResult([6], [], LiftParts(g, s.source), false));
      case SourceLifted =>
        s', r := s.(pc := Preflowed), Some(StepResult([7, 8, 9, 10, 11], [], Preflow(g, s.source), false));
      case Preflowed =>
        s', r := RunLoop(s, SourceHighlights(g, s.source), g);
      case Pushed(e) =>
        s', r := RunLoop(s, Push(g, e), g);
      case Relabelled(n) =>
        s', r := RunLoop(s, Relabel(g, n).value, g);
      case Finished =>
        s', r := s.(pc := Returned), None;
      case Stuck =>
        s', r := s, None;
      case Returned =>
        s', r := s, None;
    }
    StepKeepsValid(s, g);
  }

  /** The body of the `while` loop, with its two scans. */
  method RunLoop(s: Frame, undo: Mutation, g: Graph) returns (s': Frame, r: Option<StepResult>)
    requires Paired(g)
    ensures (s', r) == Loop(s, undo, g)
  {
    var k := ScanPush(g);
    if k.Some? {
      var e := g.edgeOrder[k.value];
      PushApplicableEdge(g, e);
      s', r := s.(pc := Pushed(e)), Some(StepResult([13, 19, 20, 21, 22, 23], [], [Inverse(undo), Push(g, e)], false));
      return;
    }
    var j := ScanRelabel(g);
    if j.Some? {
      var n := g.nodeOrder[j.value];
      var m := Relabel(g, n);
      if m.Some? {
        s', r := s.(pc := Relabelled(n)), Some(StepResult([13, 27], [], [Inverse(undo), m.value], false));
      } else {
        s', r := s.(pc := Stuck), None;
      }
    } else {
      s', r := s.(pc := Finished), Some(StepResult([15], [], [Inverse(undo)], true));
    }
  }

  /** The scan over `getEdges` that breaks at the first edge a push applies to. */
  method ScanPush(g: Graph) returns (k: Option<nat>)
    ensures k == FirstPush(g)
  {
    for i := 0 to |g.edgeOrder|
      invariant forall j :: 0 <= j < i ==> !PushApplicable(g, g.edgeOrder[j])
    {
      if PushApplicable(g, g.edgeOrder[i]) {
        return Some(i);
      }
    }
    return None;
  }

  /** The scan over `getNodes` that breaks at the first node a relabel applies to. */
  method ScanRelabel(g: Graph) returns (k: Option<nat>)
    ensures k == FirstRelabel(g)
  {
    for i := 0 to |g.nodeOrder|
      invariant forall j :: 0 <= j < i ==> !RelabelApplicable(g, g.nodeOrder[j])
    {
      if RelabelApplicable(g, g.nodeOrder[i]) {
        return Some(i);
      }
    }
    return None;
  }

  // ----- What each step keeps -----

  lemma {:induction false} ApplyOne(g: Graph, a: Mutation)
    ensures ApplyAll(g, [a]) == Applied(g, a)
  {
    assert [a][..0] == [];
  }

  lemma {:induction false} ApplyTwo(g: Graph, a: Mutation, b: Mutation)
    ensures ApplyAll(g, [a, b]) == Applied(Applied(g, a), b)
  {
    assert [a, b][..1] == [a];
    ApplyOne(g, a);
  }

  /** The suspended generator's invariant holds again after every step. */
  lemma {:induction false} StepKeepsValid(s: Frame, g: Graph)
    requires Valid(s, g)
    ensures Valid(Step(s, g).0, After(g, Step(s, g).1))
  {
    var r := Step(s, g).1;
    if InLoop(s) {
      UndoMovesNothing(s, g);
      LoopKeepsValid(s, Undo(s, g), g);
    } else if r.Some? {
      ApplyAllKeepsShape(g, r.value.graphMutations);
      SameShapeKeepsStructure(After(g, r), g);
    }
  }

  lemma {:induction false} LoopKeepsValid(s: Frame, undo: Mutation, g: Graph)
    requires Paired(g) && MovesNothing(undo) && (NoSelfLoops(g) ==> Neutral(undo))
    ensures Valid(Loop(s, undo, g).0, After(g, Loop(s, undo, g).1))
  {
    match FirstPush(g)
    case Some(k) =>
      PushValid(s, undo, g, g.edgeOrder[k]);
    case None =>
      match FirstRelabel(g)
      case Some(k) =>
        if Relabel(g, g.nodeOrder[k]).Some? {
          RelabelValid(s, undo, g, g.nodeOrder[k]);
        }
      case None =>
        ApplyOne(g, Inverse(undo));
        AppliedKeepsShape(g, Inverse(undo));
        SameShapeKeepsStructure(Applied(g, Inverse(undo)), g);
  }

  /** After undoing the highlights and pushing along `e`, nothing is left to push along `e`. */
  lemma {:induction false} PushValid(s: Frame, undo: Mutation, g: Graph, e: Id)
    requires Paired(g) && MovesNothing(undo) && PushApplicable(g, e)
    ensures ReverseEdge(g, e).Some?
    ensures Valid(s.(pc := Pushed(e)), ApplyAll(g, [Inverse(undo), Push(g, e)]))
  {
    PushApplicableEdge(g, e);
    var h := Applied(g, Inverse(undo));
    MovesNothingInverse(undo);
    StillAfter(g, Inverse(undo));
    AppliedKeepsShape(g, Inverse(undo));
    ApplyTwo(g, Inverse(undo), Push(g, e));
    PushExhausts(g, h, e);
    AppliedKeepsShape(h, Push(g, e));
    SameShapeKeepsStructure(Applied(h, Push(g, e)), g);
  }

  /** After undoing the highlights and relabelling `n`, `n` can be relabelled again, by nothing without self-loops. */
  lemma {:induction false} RelabelValid(s: Frame, undo: Mutation, g: Graph, n: Id)
    requires Paired(g) && MovesNothing(undo) && (NoSelfLoops(g) ==> Neutral(undo))
    requires RelabelApplicable(g, n) && Relabel(g, n).Some?
    ensures Valid(s.(pc := Relabelled(n)), ApplyAll(g, [Inverse(undo), Relabel(g, n).value]))
  {
    var h := Applied(g, Inverse(undo));
    var m := Relabel(g, n).value;
    MovesNothingInverse(undo);
    StillAfter(g, Inverse(undo));
    AppliedKeepsShape(g, Inverse(undo));
    ApplyTwo(g, Inverse(undo), m);
    RelabelStaysDefined(g, h, n);
    SameShapeKeepsStructure(Applied(h, m), g);
    if NoSelfLoops(Applied(h, m)) {
      NeutralInverse(undo);
      NeutralKeepsNumbers(g, Inverse(undo));
      forall e | e in ResidualEdges(g, n) ensures TargetOf(g, e) != n {
        ResidualEdgeLeaves(g, n, e);
      }
      RelabelAgainIsZero(g, h, n);
    }
  }

  /** A residual edge of `n` is an edge out of `n`. */
  lemma {:induction false} ResidualEdgeLeaves(g: Graph, n: Id, e: Id)
    requires e in ResidualEdges(g, n)
    ensures e in g.edges && g.edges[e].source == n && Residual(g, e) > 0
  {
    OutgoingEdgesSound(g, n, e);
  }

  // ----- Excess, capacities and heights -----

  /**
   * No step creates or destroys excess on a well-formed graph: the total over all nodes is
   * the same after the step as before it.
   */
  lemma {:induction false} StepConservesExcess(s: Frame, g: Graph)
    requires Valid(s, g) && WellFormed(g)
    ensures TotalExcess(After(g, Step(s, g).1)) == TotalExcess(g)
  {
    match s.pc
    case NotStarted =>
      ResetChangesNothing(g);
      ExcessSumSame(After(g, Step(s, g).1), g, g.nodeOrder);
    case HeightsReset =>
      var m := Raise(s.source, |g.nodeOrder|);
      assert ApplyAll(g, LiftParts(g, s.source)) == Applied(g, m) by {
        ApplyTwo(g, NodeHeight(s.source, |g.nodeOrder|), NodeHighlight(s.source, Add));
        ApplyTwo(g, NodeHeight(s.source, |g.nodeOrder|), NodeHighlight(s.source, Add));
      }
      RaiseMovesNothing(s.source, |g.nodeOrder|);
      StillAfter(g, m);
    case SourceLifted =>
      PreflowConservesExcess(g, s.source);
    case Preflowed =>
      UndoMovesNothing(s, g);
      LoopConservesExcess(s, Undo(s, g), g);
    case Pushed(_) =>
      UndoMovesNothing(s, g);
      LoopConservesExcess(s, Undo(s, g), g);
    case Relabelled(_) =>
      UndoMovesNothing(s, g);
      LoopConservesExcess(s, Undo(s, g), g);
    case Finished =>
    case Stuck =>
    case Returned =>
  }

  lemma {:induction false} LoopConservesExcess(s: Frame, undo: Mutation, g: Graph)
    requires Paired(g) && MovesNothing(undo) && WellFormed(g)
    ensures TotalExcess(After(g, Loop(s, undo, g).1)) == TotalExcess(g)
  {
    match FirstPush(g)
    case Some(k) =>
      UndoThenPushConserves(g, undo, g.edgeOrder[k]);
    case None =>
      match FirstRelabel(g)
      case Some(k) =>
        var n := g.nodeOrder[k];
        if Relabel(g, n).Some? {
          RelabelMovesNothing(g, n);
          UndoThenConserves(g, undo, Relabel(g, n).value);
        }
      case None =>
        ApplyOne(g, Inverse(undo));
        MovesNothingInverse(undo);
        StillAfter(g, Inverse(undo));
  }

  /** Undoing the highlights and then pushing keeps the total excess. */
  lemma {:induction false} UndoThenPushConserves(g: Graph, undo: Mutation, e: Id)
    requires Paired(g) && MovesNothing(undo) && WellFormed(g) && PushApplicable(g, e)
    ensures TotalExcess(ApplyAll(g, [Inverse(undo), Push(g, e)])) == TotalExcess(g)
  {
    var h := Applied(g, Inverse(undo));
    MovesNothingInverse(undo);
    StillAfter(g, Inverse(undo));
    AppliedKeepsShape(g, Inverse(undo));
    PushApplicableEdge(g, e);
    ApplyTwo(g, Inverse(undo), Push(g, e));
    SameShapeKeepsWellFormed(h, g);
    PushConservesExcess(g, h, e);
  }

  /** Undoing the highlights and then applying a mutation that moves nothing keeps the total excess. */
  lemma {:induction false} UndoThenConserves(g: Graph, undo: Mutation, m: Mutation)
    requires MovesNothing(undo) && MovesNothing(m)
    ensures TotalExcess(ApplyAll(g, [Inverse(undo), m])) == TotalExcess(g)
  {
    var h := Applied(g, Inverse(undo));
    MovesNothingInverse(undo);
    StillAfter(g, Inverse(undo));
    ApplyTwo(g, Inverse(undo), m);
    StillAfter(h, m);
  }

  /** Graphs of the same shape and flows agree on whether every flow is within its capacity. */
  lemma {:induction false} FlowWithinSame(a: Graph, b: Graph)
    requires SameShape(a, b) && forall x :: x in b.edges ==> Flow(a, x) == Flow(b, x)
    ensures FlowWithin(a) <==> FlowWithin(b)
  {
  }

  /** No step of the loop puts more flow on an edge than its capacity. */
  lemma {:induction false} StepKeepsFlowWithin(s: Frame, g: Graph)
    requires Valid(s, g) && InLoop(s) && FlowWithin(g)
    ensures FlowWithin(After(g, Step(s, g).1))
  {
    UndoMovesNothing(s, g);
    var undo := Undo(s, g);
    var h := Applied(g, Inverse(undo));
    MovesNothingInverse(undo);
    StillAfter(g, Inverse(undo));
    AppliedKeepsShape(g, Inverse(undo));
    FlowWithinSame(h, g);
    match FirstPush(g)
    case Some(k) =>
      var e := g.edgeOrder[k];
      PushApplicableEdge(g, e);
      ApplyTwo(g, Inverse(undo), Push(g, e));
      PushKeepsFlowWithin(g, h, e);
    case None =>
      match FirstRelabel(g)
      case Some(k) =>
        var n := g.nodeOrder[k];
        if Relabel(g, n).Some? {
          ApplyTwo(g, Inverse(undo), Relabel(g, n).value);
          RelabelMovesNothing(g, n);
          StillAfter(h, Relabel(g, n).value);
          AppliedKeepsShape(h, Relabel(g, n).value);
          FlowWithinSame(Applied(h, Relabel(g, n).value), h);
        }
      case None =>
        ApplyOne(g, Inverse(undo));
  }

  /**
   * The height function is a valid labelling: no edge with residual capacity runs more than
   * one level downhill.
   */
  ghost predicate Labelled(g: Graph) {
    forall e :: e in g.edges && Residual(g, e) > 0 ==>
      Height(g, g.edges[e].source) <= Height(g, g.edges[e].target) + 1
  }

  lemma {:induction false} LabelledSame(a: Graph, b: Graph)
    requires SameNumbers(a, b)
    ensures Labelled(a) <==> Labelled(b)
  {
  }

  /** A push keeps the labelling valid: the only edge it can give residual capacity runs uphill. */
  lemma {:induction false} PushKeepsLabelling(g: Graph, h: Graph, e: Id)
    requires PushApplicable(g, e) && ReverseEdge(g, e).Some?
    requires SameNumbers(h, g) && Labelled(g)
    ensures Labelled(Applied(h, Push(g, e)))
  {
    var m, r := Push(g, e), ReverseEdge(g, e).value;
    var h' := Applied(h, m);
    assert KeepsHeights(m);
    AppliedKeepsShape(h, m);
    PushMoves(g, e);
    forall x | x in h'.edges && Residual(h', x) > 0
      ensures Height(h', h'.edges[x].source) <= Height(h', h'.edges[x].target) + 1
    {
      var a, b := g.edges[x].source, g.edges[x].target;
      HeightsKept(h, m, a);
      HeightsKept(h, m, b);
      FlowAccounting(h, m, x);
      if x != e && x != r {
        assert Residual(g, x) > 0;
      }
    }
  }

  /**
   * Raising `n` by `d >= 0` keeps the labelling valid as long as no residual edge out of `n`
   * then runs more than one level downhill: rising never breaks an edge into `n`.
   */
  lemma {:induction false} RaiseKeepsLabelling(g: Graph, h: Graph, n: Id, d: int)
    requires Labelled(g) && SameNumbers(h, g) && n in g.nodes && d >= 0
    requires forall x :: x in g.edges && g.edges[x].source == n && Residual(g, x) > 0 ==>
      Height(g, n) + d <= Height(g, g.edges[x].target) + 1
    ensures Labelled(Applied(h, Raise(n, d)))
  {
    var h' := Applied(h, Raise(n, d));
    RaiseApplied(h, n, d);
    AppliedKeepsShape(h, Raise(n, d));
    forall x | x in h'.edges && Residual(h', x) > 0
      ensures Height(h', h'.edges[x].source) <= Height(h', h'.edges[x].target) + 1
    {
      assert Residual(g, x) > 0;
    }
  }

  /**
   * An applicable relabel raises the node by a positive `d`, and by no more than puts it one
   * above the target of each of its residual edges.
   */
  lemma {:induction false} RelabelIsRaise(g: Graph, n: Id) returns (d: int)
    requires RelabelApplicable(g, n) && Relabel(g, n).Some?
    ensures Relabel(g, n).value == Raise(n, d) && d > 0
    ensures forall e :: e in ResidualEdges(g, n) ==> Height(g, n) + d <= Height(g, TargetOf(g, e)) + 1
  {
    RelabelDefined(g, n);
    d := RelabelOverIsRaise(g, n, ResidualEdges(g, n));
  }

  lemma {:induction false} RelabelOverIsRaise(g: Graph, u: Id, es: seq<Id>) returns (d: int)
    requires es != [] && forall e :: e in es ==> Height(g, u) <= Height(g, TargetOf(g, e))
    ensures RelabelOver(g, u, es) == Some(Raise(u, d)) && d > 0
    ensures forall e :: e in es ==> Height(g, u) + d <= Height(g, TargetOf(g, e)) + 1
  {
    LeastTarget(g, es);
    var least := Min(TargetHeights(g, es)).value;
    d := 1 + least - Height(g, u);
    var e :| e in es && least == Height(g, TargetOf(g, e));
  }

  /** The bound of `RelabelIsRaise` for every edge out of `n` with residual capacity, on a well-formed graph. */
  lemma {:induction false} RelabelDelta(g: Graph, n: Id) returns (d: int)
    requires WellFormed(g) && n in g.nodes && RelabelApplicable(g, n) && Relabel(g, n).Some?
    ensures Relabel(g, n).value == Raise(n, d) && d > 0
    ensures forall x :: x in g.edges && g.edges[x].source == n && Residual(g, x) > 0 ==>
      Height(g, n) + d <= Height(g, g.edges[x].target) + 1
  {
    d := RelabelIsRaise(g, n);
    forall x | x in g.edges && g.edges[x].source == n && Residual(g, x) > 0
      ensures Height(g, n) + d <= Height(g, g.edges[x].target) + 1
    {
      ResidualEdgeIn(g, n, x);
    }
  }

  /** An edge out of `n` with residual capacity is one of `n`'s residual edges, on a well-formed graph. */
  lemma {:induction false} ResidualEdgeIn(g: Graph, n: Id, x: Id)
    requires WellFormed(g) && x in g.edges && g.edges[x].source == n && Residual(g, x) > 0
    ensures x in ResidualEdges(g, n)
  {
    var out := OutgoingEdges(g, n);
    OutgoingEdgesExact(g, n);
    var i :| 0 <= i < |out| && out[i] == x;
  }

  /**
   * Without self-loops, every step of the loop keeps the labelling valid: the highlights it
   * undoes change no number, and the push or relabel it applies keeps the labelling.
   */
  lemma {:induction false} StepKeepsLabelling(s: Frame, g: Graph)
    requires Valid(s, g) && InLoop(s) && WellFormed(g) && NoSelfLoops(g) && Labelled(g)
    ensures Labelled(After(g, Step(s, g).1))
  {
    UndoMovesNothing(s, g);
    var undo := Undo(s, g);
    match FirstPush(g)
    case Some(k) =>
      UndoThenPushLabels(g, undo, g.edgeOrder[k]);
    case None =>
      match FirstRelabel(g)
      case Some(k) =>
        var n := g.nodeOrder[k];
        if Relabel(g, n).Some? {
          UndoThenRelabelLabels(g, undo, n);
        }
      case None =>
        ApplyOne(g, Inverse(undo));
        NeutralInverse(undo);
        NeutralKeepsNumbers(g, Inverse(undo));
        LabelledSame(Applied(g, Inverse(undo)), g);
  }

  /** Undoing the highlights and then pushing keeps the labelling valid. */
  lemma {:induction false} UndoThenPushLabels(g: Graph, undo: Mutation, e: Id)
    requires Paired(g) && Neutral(undo) && Labelled(g) && PushApplicable(g, e)
    ensures Labelled(ApplyAll(g, [Inverse(undo), Push(g, e)]))
  {
    var h := Applied(g, Inverse(undo));
    NeutralInverse(undo);
    NeutralKeepsNumbers(g, Inverse(undo));
    PushApplicableEdge(g, e);
    ApplyTwo(g, Inverse(undo), Push(g, e));
    PushKeepsLabelling(g, h, e);
  }

  /** Undoing the highlights and then relabelling keeps the labelling valid. */
  lemma {:induction false} UndoThenRelabelLabels(g: Graph, undo: Mutation, n: Id)
    requires WellFormed(g) && Neutral(undo) && Labelled(g)
    requires n in g.nodes && RelabelApplicable(g, n) && Relabel(g, n).Some?
    ensures Labelled(ApplyAll(g, [Inverse(undo), Relabel(g, n).value]))
  {
    var h := Applied(g, Inverse(undo));
    NeutralInverse(undo);
    NeutralKeepsNumbers(g, Inverse(undo));
    ApplyTwo(g, Inverse(undo), Relabel(g, n).value);
    var d := RelabelDelta(g, n);
    RaiseKeepsLabelling(g, h, n, d);
  }

  /**
   * The three initial steps, on a graph whose heights all read 0 and whose edges out of the
   * source carry no negative flow, leave a valid labelling: the source sits |V| high with
   * every edge out of it saturated, and every other node sits at 0.
   */
  lemma {:induction false} InitialisationLabels(g: Graph, source: Id)
    requires WellFormed(g) && source in g.nodes
    requires forall n :: n in g.nodes ==> Height(g, n) == 0
    requires forall e :: e in g.edges && g.edges[e].source == source ==> Flow(g, e) >= 0
    ensures var g1 := ApplyAll(g, ResetParts(g.nodeOrder));
      var g2 := ApplyAll(g1, LiftParts(g1, source));
      Labelled(ApplyAll(g2, Preflow(g2, source)))
  {
    var g1 := ApplyAll(g, ResetParts(g.nodeOrder));
    var g2 := ApplyAll(g1, LiftParts(g1, source));
    ResetChangesNothing(g);
    SameShapeKeepsWellFormed(g1, g);
    LiftRaisesSource(g1, source);
    ApplyAllKeepsShape(g1, LiftParts(g1, source));
    SameShapeKeepsWellFormed(g2, g1);
    assert forall n :: n != source ==> Height(g2, n) == 0;
    PreflowLabels(g2, source);
  }

  /**
   * The preflow step leaves a valid labelling when every node but the source sits at 0, no
   * node sits below 0, and no edge out of the source carries negative flow.
   */
  lemma {:induction false} PreflowLabels(g: Graph, source: Id)
    requires WellFormed(g)
    requires forall n :: Height(g, n) >= 0 && (n != source ==> Height(g, n) == 0)
    requires forall e :: e in g.edges && g.edges[e].source == source ==> Flow(g, e) >= 0
    ensures Labelled(ApplyAll(g, Preflow(g, source)))
  {
    var g' := ApplyAll(g, Preflow(g, source));
    ApplyAllKeepsShape(g, Preflow(g, source));
    forall x | x in g'.edges && Residual(g', x) > 0
      ensures Height(g', g'.edges[x].source) <= Height(g', g'.edges[x].target) + 1
    {
      var a, b := g.edges[x].source, g.edges[x].target;
      PreflowKeepsHeights(g, source, a);
      PreflowKeepsHeights(g, source, b);
      if a == source {
        PreflowSaturates(g, source, x);
      }
    }
  }

  /** The preflow carries no height delta. */
  lemma {:induction false} PreflowKeepsHeights(g: Graph, source: Id, n: Id)
    ensures Height(ApplyAll(g, Preflow(g, source)), n) == Height(g, n)
  {
    var out, ps := OutgoingEdges(g, source), Preflow(g, source);
    PreflowIsSaturating(g, source);
    forall i | 0 <= i < |ps| ensures KeepsHeights(ps[i]) {
      PartKeepsHeights(g, source, out[i]);
    }
    HeightsKeptAll(g, ps, n);
  }

  lemma {:induction false} PartKeepsHeights(g: Graph, source: Id, e: Id)
    ensures KeepsHeights(PreflowPart(g, source, e))
  {
    var qs := PreflowPart(g, source, e).parts;
    assert forall i :: 0 <= i < |qs| ==> KeepsHeights(qs[i]);
  }

  // ----- Which operation a step chooses -----

  /**
   * Each pass of the loop tries pushes before relabels, in `getEdges` and `getNodes` order:
   * it pushes along the first edge a push applies to; relabels the first node a relabel
   * applies to only when no push applies; is stuck exactly when that node has no residual
   * edge; and finishes, with the one `done` step, exactly when neither applies anywhere.
   */
  lemma {:induction false} StepChooses(s: Frame, g: Graph)
    requires Valid(s, g) && InLoop(s)
    ensures Chooses(g, Step(s, g).0, Step(s, g).1)
  {
    LoopChooses(s, Undo(s, g), g);
  }

  /** `s[k]` satisfies `p` and no element before it does. */
  ghost predicate FirstIn<T>(s: seq<T>, k: nat, p: T -> bool)
    requires k < |s|
  {
    p(s[k]) && forall j :: 0 <= j < k ==> !p(s[j])
  }

  /** The choice a pass of the loop over `g` makes, read off the frame and step it returns. */
  ghost predicate Chooses(g: Graph, s': Frame, r: Option<StepResult>) {
    && (s'.pc.Pushed? ==>
          exists k :: 0 <= k < |g.edgeOrder| && g.edgeOrder[k] == s'.pc.edge && FirstIn(g.edgeOrder, k, e => PushApplicable(g, e)))
    && (s'.pc.Relabelled? || s'.pc.Stuck? ==> forall j :: 0 <= j < |g.edgeOrder| ==> !PushApplicable(g, g.edgeOrder[j]))
    && (s'.pc.Relabelled? ==>
          exists k :: 0 <= k < |g.nodeOrder| && g.nodeOrder[k] == s'.pc.node && FirstIn(g.nodeOrder, k, n => RelabelApplicable(g, n)))
    && (s'.pc.Stuck? <==> r.None?)
    && (s'.pc.Stuck? ==> exists n :: n in g.nodeOrder && RelabelApplicable(g, n) && ResidualEdges(g, n) == [])
    && (s'.pc.Finished? <==>
          && (forall j :: 0 <= j < |g.edgeOrder| ==> !PushApplicable(g, g.edgeOrder[j]))
          && (forall j :: 0 <= j < |g.nodeOrder| ==> !RelabelApplicable(g, g.nodeOrder[j])))
    && (r.Some? ==> (r.value.done <==> s'.pc.Finished?))
  }

  lemma {:induction false} LoopChooses(s: Frame, undo: Mutation, g: Graph)
    requires Paired(g)
    ensures Chooses(g, Loop(s, undo, g).0, Loop(s, undo, g).1)
  {
    match FirstPush(g)
    case Some(k) =>
      PushChosen(g, k, s.(pc := Pushed(g.edgeOrder[k])), Loop(s, undo, g).1);
    case None =>
      match FirstRelabel(g)
      case Some(k) =>
        var n := g.nodeOrder[k];
        RelabelDefined(g, n);
        if Relabel(g, n).Some? {
          RelabelChosen(g, k, s.(pc := Relabelled(n)), Loop(s, undo, g).1);
        } else {
          StuckChosen(g, k, s.(pc := Stuck));
        }
      case None =>
        FinishChosen(g, s.(pc := Finished), Loop(s, undo, g).1);
  }

  lemma {:induction false} PushChosen(g: Graph, k: nat, s': Frame, r: Option<StepResult>)
    requires FirstPush(g) == Some(k) && s'.pc == Pushed(g.edgeOrder[k]) && r.Some? && !r.value.done
    ensures Chooses(g, s', r)
  {
    assert FirstIn(g.edgeOrder, k, e => PushApplicable(g, e));
  }

  lemma {:induction false} RelabelChosen(g: Graph, k: nat, s': Frame, r: Option<StepResult>)
    requires FirstPush(g).None? && FirstRelabel(g) == Some(k)
    requires s'.pc == Relabelled(g.nodeOrder[k]) && r.Some? && !r.value.done
    ensures Chooses(g, s', r)
  {
    assert FirstIn(g.nodeOrder, k, n => RelabelApplicable(g, n));
  }

  lemma {:induction false} StuckChosen(g: Graph, k: nat, s': Frame)
    requires FirstPush(g).None? && FirstRelabel(g) == Some(k) && ResidualEdges(g, g.nodeOrder[k]) == []
    requires s'.pc == Stuck
    ensures Chooses(g, s', None)
  {
    assert g.nodeOrder[k] in g.nodeOrder;
  }

  lemma {:induction false} FinishChosen(g: Graph, s': Frame, r: Option<StepResult>)
    requires FirstPush(g).None? && FirstRelabel(g).None?
    requires s'.pc == Finished && r.Some? && r.value.done
    ensures Chooses(g, s', r)
  {
  }
}
