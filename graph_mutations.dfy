/**
 * The mutation algebra of the graph facade: flow, height and excess deltas, highlight
 * toggles and combined mutations, each with its effect on the arena and its inverse.
 * Mutations name their element by id and are resolved against the arena when applied.
 */
module GraphMutations {
  import opened Wrappers
  import opened Seqs
  import opened CyGraph

  datatype Mode = Add | Remove

  datatype Mutation =
    | EdgeFlow(edge: Id, df: int)
    | EdgeHighlight(edge: Id, mode: Mode)
    | NodeHighlight(node: Id, mode: Mode)
    | NodeHeight(node: Id, dh: int)
    | NodeExcess(node: Id, de: int)
    | Combined(parts: seq<Mutation>)

  function Flip(mode: Mode): Mode {
    if mode == Add then Remove else Add
  }

  /** `inverse()`: deltas are negated, toggles flip their mode, combined lists are reversed and inverted. */
  function Inverse(m: Mutation): Mutation
    decreases m
  {
    match m
    case EdgeFlow(e, d) => EdgeFlow(e, -d)
    case EdgeHighlight(e, mode) => EdgeHighlight(e, Flip(mode))
    case NodeHighlight(n, mode) => NodeHighlight(n, Flip(mode))
    case NodeHeight(n, d) => NodeHeight(n, -d)
    case NodeExcess(n, d) => NodeExcess(n, -d)
    case Combined(ps) => Combined(InverseAll(ps))
  }

  /** `[...ms].reverse().map(m => m.inverse())`. */
  function InverseAll(ps: seq<Mutation>): (r: seq<Mutation>)
    ensures |r| == |ps|
    decreases ps
  {
    if ps == [] then []
    else [Inverse(ps[|ps| - 1])] + InverseAll(ps[..|ps| - 1])
  }

  /** `apply()` on the arena; a mutation whose element is not in the arena changes nothing. */
  function Applied(g: Graph, m: Mutation): Graph
    decreases m
  {
    match m
    case EdgeFlow(e, d) =>
      if e in g.edges then g.(edges := g.edges[e := g.edges[e].(flow := g.edges[e].flow + d)]) else g
    case EdgeHighlight(e, mode) =>
      if e in g.edges then g.(edges := g.edges[e := g.edges[e].(highlighted := mode == Add)]) else g
    case NodeHighlight(n, mode) =>
      if n in g.nodes then g.(nodes := g.nodes[n := g.nodes[n].(highlighted := mode == Add)]) else g
    case NodeHeight(n, d) =>
      if n in g.nodes then g.(nodes := g.nodes[n := g.nodes[n].(height := Some(Height(g, n) + d))]) else g
    case NodeExcess(n, d) =>
      if n in g.nodes then g.(nodes := g.nodes[n := g.nodes[n].(excess := Some(Excess(g, n) + d))]) else g
    case Combined(ps) => ApplyAll(g, ps)
  }

  /** Applies the mutations one after the other, in list order. */
  function ApplyAll(g: Graph, ps: seq<Mutation>): Graph
    decreases ps
  {
    if ps == [] then g
    else Applied(ApplyAll(g, ps[..|ps| - 1]), ps[|ps| - 1])
  }

  // ----- Observable state -----

  /** The graphs have the same elements, endpoints, capacities, labels and types. */
  ghost predicate SameShape(a: Graph, b: Graph) {
    && a.nodeOrder == b.nodeOrder
    && a.edgeOrder == b.edgeOrder
    && a.nodes.Keys == b.nodes.Keys
    && a.edges.Keys == b.edges.Keys
    && (forall n :: n in a.nodes ==>
          a.nodes[n].nodeLabel == b.nodes[n].nodeLabel && a.nodes[n].kind == b.nodes[n].kind)
    && (forall e :: e in a.edges ==>
          && a.edges[e].source == b.edges[e].source
          && a.edges[e].target == b.edges[e].target
          && a.edges[e].capacity == b.edges[e].capacity)
  }

  /** Same shape, and every flow, height and excess reads the same through the getters. */
  ghost predicate SameNumbers(a: Graph, b: Graph) {
    && SameShape(a, b)
    && (forall e :: e in a.edges ==> a.edges[e].flow == b.edges[e].flow)
    && (forall n :: n in a.nodes ==> Height(a, n) == Height(b, n) && Excess(a, n) == Excess(b, n))
  }

  /** Same numbers, and the same elements are highlighted: nothing observable differs. */
  ghost predicate SameView(a: Graph, b: Graph) {
    SameNumbers(a, b) && SameHighlights(a, b)
  }

  /** Every element present in both graphs has the same highlight flag in both. */
  ghost predicate SameHighlights(a: Graph, b: Graph) {
    && (forall e :: e in a.edges && e in b.edges ==> a.edges[e].highlighted == b.edges[e].highlighted)
    && (forall n :: n in a.nodes && n in b.nodes ==> a.nodes[n].highlighted == b.nodes[n].highlighted)
  }

  // ----- The algebra -----

  /** The inverse of the inverse is the mutation itself. */
  lemma {:induction false} InverseInvolutive(m: Mutation)
    ensures Inverse(Inverse(m)) == m
    decreases m
  {
    match m
    case Combined(ps) => InverseAllInvolutive(ps);
    case _ =>
  }

  lemma {:induction false} InverseAllInvolutive(ps: seq<Mutation>)
    ensures InverseAll(InverseAll(ps)) == ps
    decreases ps
  {
    if ps != [] {
      var init, last := ps[..|ps| - 1], ps[|ps| - 1];
      InverseAllAppend([Inverse(last)], InverseAll(init));
      InverseAllInvolutive(init);
      InverseInvolutive(last);
      assert InverseAll([Inverse(last)]) == [Inverse(Inverse(last))];
      assert ps == init + [last];
    }
  }

  /** Inverting a concatenation inverts each part and swaps them. */
  lemma {:induction false} InverseAllAppend(a: seq<Mutation>, b: seq<Mutation>)
    ensures InverseAll(a + b) == InverseAll(b) + InverseAll(a)
    decreases b
  {
    if b == [] {
      assert a + b == a;
    } else {
      var binit := b[..|b| - 1];
      assert (a + b)[..|a + b| - 1] == a + binit;
      assert (a + b)[|a + b| - 1] == b[|b| - 1];
      InverseAllAppend(a, binit);
    }
  }

  /** Applying a concatenation applies the first list, then the second. */
  lemma {:induction false} ApplyAllAppend(g: Graph, a: seq<Mutation>, b: seq<Mutation>)
    ensures ApplyAll(g, a + b) == ApplyAll(ApplyAll(g, a), b)
    decreases b
  {
    if b == [] {
      assert a + b == a;
    } else {
      var binit := b[..|b| - 1];
      assert (a + b)[..|a + b| - 1] == a + binit;
      assert (a + b)[|a + b| - 1] == b[|b| - 1];
      ApplyAllAppend(g, a, binit);
    }
  }

  /** Applying one more mutation after a prefix: the step a `forEach` over the list takes. */
  lemma {:induction false} ApplyAllSnoc(g: Graph, ps: seq<Mutation>, i: nat)
    requires i < |ps|
    ensures ApplyAll(g, ps[..i + 1]) == Applied(ApplyAll(g, ps[..i]), ps[i])
  {
    assert ps[..i + 1][..i] == ps[..i];
  }

  /** No mutation adds or removes elements or changes endpoints, capacities, labels or types. */
  lemma {:induction false} AppliedKeepsShape(g: Graph, m: Mutation)
    ensures SameShape(Applied(g, m), g)
    decreases m
  {
    match m
    case Combined(ps) => ApplyAllKeepsShape(g, ps);
    case _ =>
  }

  lemma {:induction false} ApplyAllKeepsShape(g: Graph, ps: seq<Mutation>)
    ensures SameShape(ApplyAll(g, ps), g)
    decreases ps
  {
    if ps != [] {
      ApplyAllKeepsShape(g, ps[..|ps| - 1]);
      AppliedKeepsShape(ApplyAll(g, ps[..|ps| - 1]), ps[|ps| - 1]);
    }
  }

  /** Graphs of the same shape are well formed together and paired together. */
  lemma {:induction false} SameShapeKeepsStructure(a: Graph, b: Graph)
    requires SameShape(a, b)
    ensures WellFormed(a) <==> WellFormed(b)
    ensures forall e :: ReverseEdge(a, e) == ReverseEdge(b, e)
    ensures Paired(a) <==> Paired(b)
    ensures SourceNode(a) == SourceNode(b) && SinkNode(a) == SinkNode(b)
    ensures forall n :: OutgoingEdges(a, n) == OutgoingEdges(b, n)
  {
    SameShapeKeepsWellFormed(a, b);
    SameShapeKeepsPairs(a, b);
    SameShapeKeepsTerminals(a, b);
    forall n ensures OutgoingEdges(a, n) == OutgoingEdges(b, n) {
      SameShapeKeepsOutgoing(a, b, n);
    }
  }

  lemma {:induction false} SameShapeKeepsWellFormed(a: Graph, b: Graph)
    requires SameShape(a, b)
    ensures WellFormed(a) <==> WellFormed(b)
  {
  }

  lemma {:induction false} SameShapeKeepsPairs(a: Graph, b: Graph)
    requires SameShape(a, b)
    ensures forall e :: ReverseEdge(a, e) == ReverseEdge(b, e)
    ensures Paired(a) <==> Paired(b)
  {
    forall e ensures ReverseEdge(a, e) == ReverseEdge(b, e) {
      FindFirstSame(a.edgeOrder, x => AntiParallel(a, e, x), x => AntiParallel(b, e, x));
    }
  }

  lemma {:induction false} SameShapeKeepsTerminals(a: Graph, b: Graph)
    requires SameShape(a, b)
    ensures SourceNode(a) == SourceNode(b) && SinkNode(a) == SinkNode(b)
  {
    FindFirstSame(a.nodeOrder, n => HasKind(a, "source", n), n => HasKind(b, "source", n));
    FindFirstSame(a.nodeOrder, n => HasKind(a, "sink", n), n => HasKind(b, "sink", n));
  }

  lemma {:induction false} SameShapeKeepsOutgoing(a: Graph, b: Graph, n: Id)
    requires SameShape(a, b)
    ensures OutgoingEdges(a, n) == OutgoingEdges(b, n)
  {
    FilterSame(a.edgeOrder, e => IsOutgoing(a, n, e), e => IsOutgoing(b, n, e));
    SortSame(a, b, Filter(a.edgeOrder, e => IsOutgoing(a, n, e)));
  }

  lemma {:induction false} SortSame(a: Graph, b: Graph, s: seq<Id>)
    requires SameShape(a, b)
    ensures SortByTarget(a, s) == SortByTarget(b, s)
  {
    if s != [] {
      SortSame(a, b, s[..|s| - 1]);
      InsertSame(a, b, s[|s| - 1], SortByTarget(a, s[..|s| - 1]));
    }
  }

  lemma {:induction false} InsertSame(a: Graph, b: Graph, x: Id, s: seq<Id>)
    requires SameShape(a, b) && SortedByTarget(a, s) && SortedByTarget(b, s)
    ensures InsertByTarget(a, x, s) == InsertByTarget(b, x, s)
  {
    assert forall e :: TargetLabel(a, e) == TargetLabel(b, e);
    if s != [] {
      SortedTail(a, s);
      SortedTail(b, s);
      InsertSame(a, b, x, s[1..]);
    }
  }

  /** Graphs with the same numbers keep the same numbers under any mutation. */
  lemma {:induction false} AppliedRespectsNumbers(a: Graph, b: Graph, m: Mutation)
    requires SameNumbers(a, b)
    ensures SameNumbers(Applied(a, m), Applied(b, m))
    decreases m
  {
    match m
    case Combined(ps) => ApplyAllRespectsNumbers(a, b, ps);
    case EdgeFlow(e, d) => FlowRespectsNumbers(a, b, e, d);
    case EdgeHighlight(e, mode) => EdgeHighlightRespectsNumbers(a, b, e, mode);
    case NodeHighlight(n, mode) => NodeHighlightRespectsNumbers(a, b, n, mode);
    case NodeHeight(n, d) => HeightRespectsNumbers(a, b, n, d);
    case NodeExcess(n, d) => ExcessRespectsNumbers(a, b, n, d);
  }

  lemma {:induction false} ApplyAllRespectsNumbers(a: Graph, b: Graph, ps: seq<Mutation>)
    requires SameNumbers(a, b)
    ensures SameNumbers(ApplyAll(a, ps), ApplyAll(b, ps))
    decreases ps
  {
    if ps != [] {
      ApplyAllRespectsNumbers(a, b, ps[..|ps| - 1]);
      AppliedRespectsNumbers(ApplyAll(a, ps[..|ps| - 1]), ApplyAll(b, ps[..|ps| - 1]), ps[|ps| - 1]);
    }
  }

  /** Graphs that look the same keep looking the same under any mutation. */
  lemma {:induction false} AppliedRespectsView(a: Graph, b: Graph, m: Mutation)
    requires SameView(a, b)
    ensures SameView(Applied(a, m), Applied(b, m))
    decreases m
  {
    match m
    case Combined(ps) => ApplyAllRespectsView(a, b, ps);
    case EdgeFlow(e, d) => FlowRespectsView(a, b, e, d);
    case EdgeHighlight(e, mode) => EdgeHighlightRespectsView(a, b, e, mode);
    case NodeHighlight(n, mode) => NodeHighlightRespectsView(a, b, n, mode);
    case NodeHeight(n, d) => HeightRespectsView(a, b, n, d);
    case NodeExcess(n, d) => ExcessRespectsView(a, b, n, d);
  }

  lemma {:induction false} ApplyAllRespectsView(a: Graph, b: Graph, ps: seq<Mutation>)
    requires SameView(a, b)
    ensures SameView(ApplyAll(a, ps), ApplyAll(b, ps))
    decreases ps
  {
    if ps != [] {
      ApplyAllRespectsView(a, b, ps[..|ps| - 1]);
      AppliedRespectsView(ApplyAll(a, ps[..|ps| - 1]), ApplyAll(b, ps[..|ps| - 1]), ps[|ps| - 1]);
    }
  }

  lemma {:induction false} FlowRespectsNumbers(a: Graph, b: Graph, e: Id, d: int)
    requires SameNumbers(a, b)
    ensures SameNumbers(Applied(a, EdgeFlow(e, d)), Applied(b, EdgeFlow(e, d)))
  {
    if e in a.edges {
      var x, y := a.edges[e].(flow := a.edges[e].flow + d), b.edges[e].(flow := b.edges[e].flow + d);
      assert Applied(a, EdgeFlow(e, d)) == a.(edges := a.edges[e := x]);
      assert Applied(b, EdgeFlow(e, d)) == b.(edges := b.edges[e := y]);
      EdgeWriteRespectsNumbers(a, b, e, x, y);
    }
  }

  lemma {:induction false} FlowRespectsView(a: Graph, b: Graph, e: Id, d: int)
    requires SameView(a, b)
    ensures SameView(Applied(a, EdgeFlow(e, d)), Applied(b, EdgeFlow(e, d)))
  {
    if e in a.edges {
      var x, y := a.edges[e].(flow := a.edges[e].flow + d), b.edges[e].(flow := b.edges[e].flow + d);
      assert Applied(a, EdgeFlow(e, d)) == a.(edges := a.edges[e := x]);
      assert Applied(b, EdgeFlow(e, d)) == b.(edges := b.edges[e := y]);
      EdgeWriteRespectsView(a, b, e, x, y);
    }
  }

  lemma {:induction false} EdgeHighlightRespectsNumbers(a: Graph, b: Graph, e: Id, mode: Mode)
    requires SameNumbers(a, b)
    ensures SameNumbers(Applied(a, EdgeHighlight(e, mode)), Applied(b, EdgeHighlight(e, mode)))
  {
    if e in a.edges {
      var x, y := a.edges[e].(highlighted := mode == Add), b.edges[e].(highlighted := mode == Add);
      assert Applied(a, EdgeHighlight(e, mode)) == a.(edges := a.edges[e := x]);
      assert Applied(b, EdgeHighlight(e, mode)) == b.(edges := b.edges[e := y]);
      EdgeWriteRespectsNumbers(a, b, e, x, y);
    }
  }

  lemma {:induction false} EdgeHighlightRespectsView(a: Graph, b: Graph, e: Id, mode: Mode)
    requires SameView(a, b)
    ensures SameView(Applied(a, EdgeHighlight(e, mode)), Applied(b, EdgeHighlight(e, mode)))
  {
    if e in a.edges {
      var x, y := a.edges[e].(highlighted := mode == Add), b.edges[e].(highlighted := mode == Add);
      assert Applied(a, EdgeHighlight(e, mode)) == a.(edges := a.edges[e := x]);
      assert Applied(b, EdgeHighlight(e, mode)) == b.(edges := b.edges[e := y]);
      EdgeWriteRespectsView(a, b, e, x, y);
    }
  }

  /**
   * Writing the same edge in two graphs with the same numbers, keeping its endpoints and
   * capacity and giving it the same flow in both, keeps the numbers the same.
   */
  lemma {:induction false} EdgeWriteRespectsNumbers(a: Graph, b: Graph, e: Id, x: EdgeData, y: EdgeData)
    requires SameNumbers(a, b) && e in a.edges
    requires x.source == a.edges[e].source && x.target == a.edges[e].target && x.capacity == a.edges[e].capacity
    requires y.source == b.edges[e].source && y.target == b.edges[e].target && y.capacity == b.edges[e].capacity
    requires x.flow == y.flow
    ensures SameNumbers(a.(edges := a.edges[e := x]), b.(edges := b.edges[e := y]))
  {
    var a', b' := a.(edges := a.edges[e := x]), b.(edges := b.edges[e := y]);
    assert a'.edges.Keys == b'.edges.Keys;
    forall f | f in a'.edges
      ensures a'.edges[f].source == b'.edges[f].source && a'.edges[f].target == b'.edges[f].target
      ensures a'.edges[f].capacity == b'.edges[f].capacity && a'.edges[f].flow == b'.edges[f].flow
    {
      if f != e {
        assert a'.edges[f] == a.edges[f] && b'.edges[f] == b.edges[f];
      }
    }
  }

  /** As above, with the same highlight flag too: the view stays the same. */
  lemma {:induction false} EdgeWriteRespectsView(a: Graph, b: Graph, e: Id, x: EdgeData, y: EdgeData)
    requires SameView(a, b) && e in a.edges
    requires x.source == a.edges[e].source && x.target == a.edges[e].target && x.capacity == a.edges[e].capacity
    requires y.source == b.edges[e].source && y.target == b.edges[e].target && y.capacity == b.edges[e].capacity
    requires x.flow == y.flow && x.highlighted == y.highlighted
    ensures SameView(a.(edges := a.edges[e := x]), b.(edges := b.edges[e := y]))
  {
    EdgeWriteRespectsNumbers(a, b, e, x, y);
    var a', b' := a.(edges := a.edges[e := x]), b.(edges := b.edges[e := y]);
    forall f | f in a'.edges && f in b'.edges ensures a'.edges[f].highlighted == b'.edges[f].highlighted {
      if f != e {
        assert a'.edges[f] == a.edges[f] && b'.edges[f] == b.edges[f];
      }
    }
  }

  lemma {:induction false} NodeHighlightRespectsNumbers(a: Graph, b: Graph, n: Id, mode: Mode)
    requires SameNumbers(a, b)
    ensures SameNumbers(Applied(a, NodeHighlight(n, mode)), Applied(b, NodeHighlight(n, mode)))
  {
    if n in a.nodes {
      var x, y := a.nodes[n].(highlighted := mode == Add), b.nodes[n].(highlighted := mode == Add);
      assert Applied(a, NodeHighlight(n, mode)) == a.(nodes := a.nodes[n := x]);
      assert Applied(b, NodeHighlight(n, mode)) == b.(nodes := b.nodes[n := y]);
      assert Height(a, n) == Height(b, n) && Excess(a, n) == Excess(b, n);
      NodeWriteRespectsNumbers(a, b, n, x, y);
    }
  }

  lemma {:induction false} NodeHighlightRespectsView(a: Graph, b: Graph, n: Id, mode: Mode)
    requires SameView(a, b)
    ensures SameView(Applied(a, NodeHighlight(n, mode)), Applied(b, NodeHighlight(n, mode)))
  {
    if n in a.nodes {
      var x, y := a.nodes[n].(highlighted := mode == Add), b.nodes[n].(highlighted := mode == Add);
      assert Applied(a, NodeHighlight(n, mode)) == a.(nodes := a.nodes[n := x]);
      assert Applied(b, NodeHighlight(n, mode)) == b.(nodes := b.nodes[n := y]);
      assert Height(a, n) == Height(b, n) && Excess(a, n) == Excess(b, n);
      NodeWriteRespectsView(a, b, n, x, y);
    }
  }

  lemma {:induction false} HeightRespectsNumbers(a: Graph, b: Graph, n: Id, d: int)
    requires SameNumbers(a, b)
    ensures SameNumbers(Applied(a, NodeHeight(n, d)), Applied(b, NodeHeight(n, d)))
  {
    if n in a.nodes {
      var x, y := a.nodes[n].(height := Some(Height(a, n) + d)), b.nodes[n].(height := Some(Height(b, n) + d));
      assert Applied(a, NodeHeight(n, d)) == a.(nodes := a.nodes[n := x]);
      assert Applied(b, NodeHeight(n, d)) == b.(nodes := b.nodes[n := y]);
      NodeWriteRespectsNumbers(a, b, n, x, y);
    }
  }

  lemma {:induction false} HeightRespectsView(a: Graph, b: Graph, n: Id, d: int)
    requires SameView(a, b)
    ensures SameView(Applied(a, NodeHeight(n, d)), Applied(b, NodeHeight(n, d)))
  {
    if n in a.nodes {
      var x, y := a.nodes[n].(height := Some(Height(a, n) + d)), b.nodes[n].(height := Some(Height(b, n) + d));
      assert Applied(a, NodeHeight(n, d)) == a.(nodes := a.nodes[n := x]);
      assert Applied(b, NodeHeight(n, d)) == b.(nodes := b.nodes[n := y]);
      NodeWriteRespectsView(a, b, n, x, y);
    }
  }

  lemma {:induction false} ExcessRespectsNumbers(a: Graph, b: Graph, n: Id, d: int)
    requires SameNumbers(a, b)
    ensures SameNumbers(Applied(a, NodeExcess(n, d)), Applied(b, NodeExcess(n, d)))
  {
    if n in a.nodes {
      var x, y := a.nodes[n].(excess := Some(Excess(a, n) + d)), b.nodes[n].(excess := Some(Excess(b, n) + d));
      assert Applied(a, NodeExcess(n, d)) == a.(nodes := a.nodes[n := x]);
      assert Applied(b, NodeExcess(n, d)) == b.(nodes := b.nodes[n := y]);
      NodeWriteRespectsNumbers(a, b, n, x, y);
    }
  }

  /**
   * Writing the same node in two graphs with the same numbers, keeping its label and type and
   * giving it the same height and excess in both, keeps the numbers the same.
   */
  lemma {:induction false} NodeWriteRespectsNumbers(a: Graph, b: Graph, n: Id, x: NodeData, y: NodeData)
    requires SameNumbers(a, b) && n in a.nodes
    requires x.nodeLabel == a.nodes[n].nodeLabel && x.kind == a.nodes[n].kind
    requires y.nodeLabel == b.nodes[n].nodeLabel && y.kind == b.nodes[n].kind
    requires x.height.GetOr(0) == y.height.GetOr(0) && x.excess.GetOr(0) == y.excess.GetOr(0)
    ensures SameNumbers(a.(nodes := a.nodes[n := x]), b.(nodes := b.nodes[n := y]))
  {
    var a', b' := a.(nodes := a.nodes[n := x]), b.(nodes := b.nodes[n := y]);
    assert a'.nodes.Keys == b'.nodes.Keys;
    forall m | m in a'.nodes
      ensures a'.nodes[m].nodeLabel == b'.nodes[m].nodeLabel && a'.nodes[m].kind == b'.nodes[m].kind
      ensures Height(a', m) == Height(b', m) && Excess(a', m) == Excess(b', m)
    {
      if m != n {
        assert a'.nodes[m] == a.nodes[m] && b'.nodes[m] == b.nodes[m];
      }
    }
  }

  /** As above, with the same highlight flag too: the view stays the same. */
  lemma {:induction false} NodeWriteRespectsView(a: Graph, b: Graph, n: Id, x: NodeData, y: NodeData)
    requires SameView(a, b) && n in a.nodes
    requires x.nodeLabel == a.nodes[n].nodeLabel && x.kind == a.nodes[n].kind
    requires y.nodeLabel == b.nodes[n].nodeLabel && y.kind == b.nodes[n].kind
    requires x.height.GetOr(0) == y.height.GetOr(0) && x.excess.GetOr(0) == y.excess.GetOr(0)
    requires x.highlighted == y.highlighted
    ensures SameView(a.(nodes := a.nodes[n := x]), b.(nodes := b.nodes[n := y]))
  {
    NodeWriteRespectsNumbers(a, b, n, x, y);
    var a', b' := a.(nodes := a.nodes[n := x]), b.(nodes := b.nodes[n := y]);
    forall m | m in a'.nodes && m in b'.nodes ensures a'.nodes[m].highlighted == b'.nodes[m].highlighted {
      if m != n {
        assert a'.nodes[m] == a.nodes[m] && b'.nodes[m] == b.nodes[m];
      }
    }
  }

  lemma {:induction false} ExcessRespectsView(a: Graph, b: Graph, n: Id, d: int)
    requires SameView(a, b)
    ensures SameView(Applied(a, NodeExcess(n, d)), Applied(b, NodeExcess(n, d)))
  {
    if n in a.nodes {
      var x, y := a.nodes[n].(excess := Some(Excess(a, n) + d)), b.nodes[n].(excess := Some(Excess(b, n) + d));
      assert Applied(a, NodeExcess(n, d)) == a.(nodes := a.nodes[n := x]);
      assert Applied(b, NodeExcess(n, d)) == b.(nodes := b.nodes[n := y]);
      NodeWriteRespectsView(a, b, n, x, y);
    }
  }

  lemma {:induction false} SameNumbersTransitive(a: Graph, b: Graph, c: Graph)
    requires SameNumbers(a, b) && SameNumbers(b, c)
    ensures SameNumbers(a, c)
  {
  }

  lemma {:induction false} SameViewTransitive(a: Graph, b: Graph, c: Graph)
    requires SameView(a, b) && SameView(b, c)
    ensures SameView(a, c)
  {
  }

  /**
   * Applying a mutation and then its inverse restores every flow, height and excess, whatever
   * the mutation: the deltas cancel, and highlight toggles touch no number.
   */
  lemma {:induction false} UndoRestoresNumbers(g: Graph, m: Mutation)
    ensures SameNumbers(Applied(Applied(g, m), Inverse(m)), g)
    decreases m
  {
    if m.Combined? {
      UndoAllRestoresNumbers(g, m.parts);
    } else if m.EdgeHighlight? || m.NodeHighlight? {
      ToggleUndoNumbers(g, m);
    } else {
      DeltaUndo(g, m);
    }
  }

  /** A flow, height or excess delta and its negation restore everything observable. */
  lemma {:induction false} DeltaUndo(g: Graph, m: Mutation)
    requires m.EdgeFlow? || m.NodeHeight? || m.NodeExcess?
    ensures SameView(Applied(Applied(g, m), Inverse(m)), g)
  {
    if m.EdgeFlow? {
      FlowUndo(g, m);
      SameViewReflexive(g);
    } else if m.NodeHeight? {
      HeightUndo(g, m);
    } else {
      ExcessUndo(g, m);
    }
  }

  /** An effective highlight toggle and its flip restore the graph exactly. */
  lemma {:induction false} ToggleUndo(g: Graph, m: Mutation)
    requires (m.EdgeHighlight? || m.NodeHighlight?) && Effective(g, m)
    ensures Applied(Applied(g, m), Inverse(m)) == g
  {
    match m
    case EdgeHighlight(e, mode) => EdgeHighlightUndo(g, e, mode);
    case NodeHighlight(n, mode) => NodeHighlightUndo(g, n, mode);
  }

  /** A highlight toggle and its flip leave every number as it was, effective or not. */
  lemma {:induction false} ToggleUndoNumbers(g: Graph, m: Mutation)
    requires m.EdgeHighlight? || m.NodeHighlight?
    ensures SameNumbers(Applied(Applied(g, m), Inverse(m)), g)
  {
    HighlightOnlyKeepsNumbers(g, m);
    HighlightOnlyKeepsNumbers(Applied(g, m), Inverse(m));
    SameNumbersTransitive(Applied(Applied(g, m), Inverse(m)), Applied(g, m), g);
  }

  lemma {:induction false} UndoAllRestoresNumbers(g: Graph, ps: seq<Mutation>)
    ensures SameNumbers(ApplyAll(ApplyAll(g, ps), InverseAll(ps)), g)
    decreases ps
  {
    if ps == [] {
    } else {
      var init, last := ps[..|ps| - 1], ps[|ps| - 1];
      var h := ApplyAll(g, init);
      var back := Applied(Applied(h, last), Inverse(last));
      ApplyAllAppend(Applied(h, last), [Inverse(last)], InverseAll(init));
      assert ApplyAll(Applied(h, last), [Inverse(last)]) == back by {
        assert [Inverse(last)][..0] == [];
      }
      UndoRestoresNumbers(h, last);
      ApplyAllRespectsNumbers(back, h, InverseAll(init));
      UndoAllRestoresNumbers(g, init);
      SameNumbersTransitive(ApplyAll(back, InverseAll(init)), ApplyAll(h, InverseAll(init)), g);
    }
  }

  /**
   * A mutation is effective in a state when each highlight toggle in it, met in list order,
   * changes the flag: "add" meets an unhighlighted element and "remove" a highlighted one.
   */
  ghost predicate Effective(g: Graph, m: Mutation)
    decreases m
  {
    match m
    case EdgeHighlight(e, mode) => e in g.edges ==> g.edges[e].highlighted == (mode == Remove)
    case NodeHighlight(n, mode) => n in g.nodes ==> g.nodes[n].highlighted == (mode == Remove)
    case Combined(ps) => EffectiveAll(g, ps)
    case _ => true
  }

  ghost predicate EffectiveAll(g: Graph, ps: seq<Mutation>)
    decreases ps
  {
    ps == [] ||
    (EffectiveAll(g, ps[..|ps| - 1]) && Effective(ApplyAll(g, ps[..|ps| - 1]), ps[|ps| - 1]))
  }

  /** Applying an effective mutation and then its inverse restores everything observable. */
  lemma {:induction false} UndoRestoresView(g: Graph, m: Mutation)
    requires Effective(g, m)
    ensures SameView(Applied(Applied(g, m), Inverse(m)), g)
    decreases m
  {
    if m.Combined? {
      UndoAllRestoresView(g, m.parts);
    } else if m.EdgeHighlight? || m.NodeHighlight? {
      ToggleUndo(g, m);
      SameViewReflexive(g);
    } else {
      DeltaUndo(g, m);
    }
  }

  lemma {:induction false} SameViewReflexive(g: Graph)
    ensures SameView(g, g)
  {
  }

  /** A flow delta and its negation cancel exactly. */
  lemma {:induction false} FlowUndo(g: Graph, m: Mutation)
    requires m.EdgeFlow?
    ensures Applied(Applied(g, m), Inverse(m)) == g
  {
    var e, d := m.edge, m.df;
    assert Inverse(m) == EdgeFlow(e, -d);
    if e in g.edges {
      var back := Applied(Applied(g, m), EdgeFlow(e, -d));
      assert back.edges == g.edges[e := g.edges[e]];
      assert g.edges[e := g.edges[e]] == g.edges;
    }
  }

  /** An effective edge toggle and its flip restore the graph exactly. */
  lemma {:induction false} EdgeHighlightUndo(g: Graph, e: Id, mode: Mode)
    requires e in g.edges ==> g.edges[e].highlighted == (mode == Remove)
    ensures Applied(Applied(g, EdgeHighlight(e, mode)), EdgeHighlight(e, Flip(mode))) == g
  {
    if e in g.edges {
      var back := Applied(Applied(g, EdgeHighlight(e, mode)), EdgeHighlight(e, Flip(mode)));
      assert back.edges == g.edges[e := g.edges[e]];
      assert g.edges[e := g.edges[e]] == g.edges;
    }
  }

  /** An effective node toggle and its flip restore the graph exactly. */
  lemma {:induction false} NodeHighlightUndo(g: Graph, n: Id, mode: Mode)
    requires n in g.nodes ==> g.nodes[n].highlighted == (mode == Remove)
    ensures Applied(Applied(g, NodeHighlight(n, mode)), NodeHighlight(n, Flip(mode))) == g
  {
    if n in g.nodes {
      var back := Applied(Applied(g, NodeHighlight(n, mode)), NodeHighlight(n, Flip(mode)));
      assert back.nodes == g.nodes[n := g.nodes[n]];
      assert g.nodes[n := g.nodes[n]] == g.nodes;
    }
  }

  /** A height delta and its negation restore the height as read; an unset height reads 0 again. */
  lemma {:induction false} HeightUndo(g: Graph, m: Mutation)
    requires m.NodeHeight?
    ensures SameView(Applied(Applied(g, m), Inverse(m)), g)
  {
    var n, d := m.node, m.dh;
    assert Inverse(m) == NodeHeight(n, -d);
    if n in g.nodes {
      var back := Applied(Applied(g, m), NodeHeight(n, -d));
      assert back.edges == g.edges;
      assert back.nodes == g.nodes[n := g.nodes[n].(height := Some(Height(g, n)))];
      assert forall x :: Height(back, x) == Height(g, x) && Excess(back, x) == Excess(g, x);
    }
  }


  /** An excess delta and its negation restore the excess as read. */
  lemma {:induction false} ExcessUndo(g: Graph, m: Mutation)
    requires m.NodeExcess?
    ensures SameView(Applied(Applied(g, m), Inverse(m)), g)
  {
    var n, d := m.node, m.de;
    assert Inverse(m) == NodeExcess(n, -d);
    if n in g.nodes {
      var back := Applied(Applied(g, m), NodeExcess(n, -d));
      assert back.edges == g.edges;
      assert back.nodes == g.nodes[n := g.nodes[n].(excess := Some(Excess(g, n)))];
      assert forall x :: Height(back, x) == Height(g, x) && Excess(back, x) == Excess(g, x);
    }
  }


  lemma {:induction false} UndoAllRestoresView(g: Graph, ps: seq<Mutation>)
    requires EffectiveAll(g, ps)
    ensures SameView(ApplyAll(ApplyAll(g, ps), InverseAll(ps)), g)
    decreases ps
  {
    if ps == [] {
    } else {
      var init, last := ps[..|ps| - 1], ps[|ps| - 1];
      var h := ApplyAll(g, init);
      var back := Applied(Applied(h, last), Inverse(last));
      ApplyAllAppend(Applied(h, last), [Inverse(last)], InverseAll(init));
      assert ApplyAll(Applied(h, last), [Inverse(last)]) == back by {
        assert [Inverse(last)][..0] == [];
      }
      UndoRestoresView(h, last);
      ApplyAllRespectsView(back, h, InverseAll(init));
      UndoAllRestoresView(g, init);
      SameViewTransitive(ApplyAll(back, InverseAll(init)), ApplyAll(h, InverseAll(init)), g);
    }
  }

  /**
   * Highlighting is a flag, not a counter: toggling an edge and toggling it back restores the
   * graph exactly when the first toggle changed the flag.
   */
  lemma {:induction false} EdgeHighlightRoundTrip(g: Graph, e: Id, mode: Mode)
    ensures SameView(Applied(Applied(g, EdgeHighlight(e, mode)), Inverse(EdgeHighlight(e, mode))), g)
        <==> (e in g.edges ==> g.edges[e].highlighted == (mode == Remove))
  {
    var back := Applied(Applied(g, EdgeHighlight(e, mode)), Inverse(EdgeHighlight(e, mode)));
    if e in g.edges && g.edges[e].highlighted != (mode == Remove) {
      assert back.edges[e].highlighted == (mode == Remove);
      assert !SameHighlights(back, g);
    } else {
      EdgeHighlightUndo(g, e, mode);
      SameViewReflexive(g);
    }
  }

  /** The same law for node highlights. */
  lemma {:induction false} NodeHighlightRoundTrip(g: Graph, n: Id, mode: Mode)
    ensures SameView(Applied(Applied(g, NodeHighlight(n, mode)), Inverse(NodeHighlight(n, mode))), g)
        <==> (n in g.nodes ==> g.nodes[n].highlighted == (mode == Remove))
  {
    var back := Applied(Applied(g, NodeHighlight(n, mode)), Inverse(NodeHighlight(n, mode)));
    if n in g.nodes && g.nodes[n].highlighted != (mode == Remove) {
      assert back.nodes[n].highlighted == (mode == Remove);
      assert !SameHighlights(back, g);
    } else {
      NodeHighlightUndo(g, n, mode);
      SameViewReflexive(g);
    }
  }

  /** A mutation built only from flow, height and excess deltas. */
  predicate DeltaOnly(m: Mutation)
    decreases m
  {
    match m
    case EdgeHighlight(_, _) => false
    case NodeHighlight(_, _) => false
    case Combined(ps) => forall i :: 0 <= i < |ps| ==> DeltaOnly(ps[i])
    case _ => true
  }

  /** Delta-only mutations are effective in every state, so undoing them restores the view. */
  lemma {:induction false} DeltaOnlyEffective(g: Graph, m: Mutation)
    requires DeltaOnly(m)
    ensures Effective(g, m)
    decreases m
  {
    match m
    case Combined(ps) => DeltaOnlyAllEffective(g, ps);
    case _ =>
  }

  lemma {:induction false} DeltaOnlyAllEffective(g: Graph, ps: seq<Mutation>)
    requires forall i :: 0 <= i < |ps| ==> DeltaOnly(ps[i])
    ensures EffectiveAll(g, ps)
    decreases ps
  {
    if ps != [] {
      DeltaOnlyAllEffective(g, ps[..|ps| - 1]);
      DeltaOnlyEffective(ApplyAll(g, ps[..|ps| - 1]), ps[|ps| - 1]);
    }
  }

  /** A flow mutation adds exactly its delta to its edge's flow and changes nothing else. */
  lemma {:induction false} EdgeFlowEffect(g: Graph, e: Id, d: int)
    requires e in g.edges
    ensures Flow(Applied(g, EdgeFlow(e, d)), e) == Flow(g, e) + d
    ensures forall x :: x in g.edges && x != e ==> Applied(g, EdgeFlow(e, d)).edges[x] == g.edges[x]
    ensures Applied(g, EdgeFlow(e, d)).nodes == g.nodes
    ensures Applied(g, EdgeFlow(e, d)).edges[e].(flow := 0) == g.edges[e].(flow := 0)
  {
  }

  /** A height mutation adds its delta to the height as read, an unset height counting as 0. */
  lemma {:induction false} NodeHeightEffect(g: Graph, n: Id, d: int)
    requires n in g.nodes
    ensures Height(Applied(g, NodeHeight(n, d)), n) == Height(g, n) + d
    ensures forall x :: x != n ==> Height(Applied(g, NodeHeight(n, d)), x) == Height(g, x)
    ensures forall x :: Excess(Applied(g, NodeHeight(n, d)), x) == Excess(g, x)
    ensures Applied(g, NodeHeight(n, d)).edges == g.edges
  {
  }

  /** An excess mutation adds its delta to the excess as read, an unset excess counting as 0. */
  lemma {:induction false} NodeExcessEffect(g: Graph, n: Id, d: int)
    requires n in g.nodes
    ensures Excess(Applied(g, NodeExcess(n, d)), n) == Excess(g, n) + d
    ensures forall x :: x != n ==> Excess(Applied(g, NodeExcess(n, d)), x) == Excess(g, x)
    ensures forall x :: Height(Applied(g, NodeExcess(n, d)), x) == Height(g, x)
    ensures Applied(g, NodeExcess(n, d)).edges == g.edges
  {
  }

  /** A mutation built only from highlight toggles. */
  predicate HighlightOnly(m: Mutation)
    decreases m
  {
    match m
    case EdgeHighlight(_, _) => true
    case NodeHighlight(_, _) => true
    case Combined(ps) => forall i :: 0 <= i < |ps| ==> HighlightOnly(ps[i])
    case _ => false
  }

  /** Highlight toggles change no flow, height or excess. */
  lemma {:induction false} HighlightOnlyKeepsNumbers(g: Graph, m: Mutation)
    requires HighlightOnly(m)
    ensures SameNumbers(Applied(g, m), g)
    decreases m
  {
    match m
    case Combined(ps) => HighlightOnlyAllKeepsNumbers(g, ps);
    case _ =>
  }

  lemma {:induction false} HighlightOnlyAllKeepsNumbers(g: Graph, ps: seq<Mutation>)
    requires forall i :: 0 <= i < |ps| ==> HighlightOnly(ps[i])
    ensures SameNumbers(ApplyAll(g, ps), g)
    decreases ps
  {
    if ps != [] {
      HighlightOnlyAllKeepsNumbers(g, ps[..|ps| - 1]);
      HighlightOnlyKeepsNumbers(ApplyAll(g, ps[..|ps| - 1]), ps[|ps| - 1]);
      SameNumbersTransitive(ApplyAll(g, ps), ApplyAll(g, ps[..|ps| - 1]), g);
    }
  }

  /**
   * The cytoscape.js store the mutations write to, updated in place. `nodes` and `edges`
   * hold the element data; the enumeration orders never change.
   */
  class Cy {
    var nodes: map<Id, NodeData>
    var edges: map<Id, EdgeData>
    const nodeOrder: seq<Id>
    const edgeOrder: seq<Id>

    function Snapshot(): Graph
      reads this
    {
      Graph(nodes, edges, nodeOrder, edgeOrder)
    }

    constructor (g: Graph)
      ensures Snapshot() == g
    {
      nodes, edges := g.nodes, g.edges;
      nodeOrder, edgeOrder := g.nodeOrder, g.edgeOrder;
    }

    /** `apply()`: writes the element's data or class in place; a combined mutation runs its list. */
    method Apply(m: Mutation)
      modifies this
      ensures Snapshot() == Applied(old(Snapshot()), m)
      decreases m
    {
      match m
      case EdgeFlow(e, d) =>
        if e in edges {
          edges := edges[e := edges[e].(flow := edges[e].flow + d)];
        }
      case EdgeHighlight(e, mode) =>
        if e in edges {
          edges := edges[e := edges[e].(highlighted := mode == Add)];
        }
      case NodeHighlight(n, mode) =>
        if n in nodes {
          nodes := nodes[n := nodes[n].(highlighted := mode == Add)];
        }
      case NodeHeight(n, d) =>
        if n in nodes {
          var h := if nodes[n].height.Some? then nodes[n].height.value else 0;
          nodes := nodes[n := nodes[n].(height := Some(h + d))];
        }
      case NodeExcess(n, d) =>
        if n in nodes {
          var x := if nodes[n].excess.Some? then nodes[n].excess.value else 0;
          nodes := nodes[n := nodes[n].(excess := Some(x + d))];
        }
      case Combined(ps) =>
        ApplyEach(ps);
    }

    /** `graphMutations.forEach(m => m.apply())`. */
    method ApplyEach(ps: seq<Mutation>)
      modifies this
      ensures Snapshot() == ApplyAll(old(Snapshot()), ps)
      decreases ps
    {
      for i := 0 to |ps|
        invariant Snapshot() == ApplyAll(old(Snapshot()), ps[..i])
      {
        ApplyAllSnoc(old(Snapshot()), ps, i);
        Apply(ps[i]);
      }
      assert ps[..|ps|] == ps;
    }
  }
}
