/**
 * What a mutation does to the numbers, summed over its parts: the net flow it adds to an
 * edge, the net excess it adds to a node, and its net effect on the total excess. These turn
 * a combined mutation of many parts into one number per element.
 */
module Accounting {
  import opened Wrappers
  import opened Seqs
  import opened CyGraph
  import opened GraphMutations

  // ----- Flow -----

  /** The sum of the flow deltas `m` carries for edge `x`. */
  function FlowDelta(m: Mutation, x: Id): int
    decreases m
  {
    match m
    case EdgeFlow(e, d) => if e == x then d else 0
    case Combined(ps) => FlowDeltaAll(ps, x)
    case _ => 0
  }

  function FlowDeltaAll(ps: seq<Mutation>, x: Id): int
    decreases ps
  {
    if ps == [] then 0 else FlowDeltaAll(ps[..|ps| - 1], x) + FlowDelta(ps[|ps| - 1], x)
  }

  /** Applying `m` adds to an edge's flow exactly the flow deltas `m` carries for it. */
  lemma {:induction false} FlowAccounting(g: Graph, m: Mutation, x: Id)
    requires x in g.edges
    ensures Flow(Applied(g, m), x) == Flow(g, x) + FlowDelta(m, x)
    decreases m
  {
    if m.Combined? {
      FlowAccountingAll(g, m.parts, x);
    } else if m.EdgeFlow? {
      EdgeFlowAccounting(g, m, x);
    } else {
      OtherFlowAccounting(g, m, x);
    }
  }

  lemma {:induction false} EdgeFlowAccounting(g: Graph, m: Mutation, x: Id)
    requires x in g.edges && m.EdgeFlow?
    ensures Flow(Applied(g, m), x) == Flow(g, x) + FlowDelta(m, x)
  {
    var e, d := m.edge, m.df;
    if e in g.edges {
      assert Applied(g, m) == g.(edges := g.edges[e := g.edges[e].(flow := g.edges[e].flow + d)]);
    }
  }

  lemma {:induction false} OtherFlowAccounting(g: Graph, m: Mutation, x: Id)
    requires x in g.edges && !m.EdgeFlow? && !m.Combined?
    ensures Flow(Applied(g, m), x) == Flow(g, x) && FlowDelta(m, x) == 0
  {
    match m
    case EdgeHighlight(e, mode) =>
      if e in g.edges {
        assert Applied(g, m) == g.(edges := g.edges[e := g.edges[e].(highlighted := mode == Add)]);
      }
    case NodeHighlight(n, mode) =>
    case NodeHeight(n, d) =>
    case NodeExcess(n, d) =>
  }

  lemma {:induction false} FlowAccountingAll(g: Graph, ps: seq<Mutation>, x: Id)
    requires x in g.edges
    ensures Flow(ApplyAll(g, ps), x) == Flow(g, x) + FlowDeltaAll(ps, x)
    decreases ps
  {
    if ps != [] {
      var init := ps[..|ps| - 1];
      FlowAccountingAll(g, init, x);
      ApplyAllKeepsShape(g, init);
      FlowAccounting(ApplyAll(g, init), ps[|ps| - 1], x);
    }
  }

  // ----- Excess of one node -----

  /** The sum of the excess deltas `m` carries for node `n`. */
  function ExcessDelta(m: Mutation, n: Id): int
    decreases m
  {
    match m
    case NodeExcess(x, d) => if x == n then d else 0
    case Combined(ps) => ExcessDeltaAll(ps, n)
    case _ => 0
  }

  function ExcessDeltaAll(ps: seq<Mutation>, n: Id): int
    decreases ps
  {
    if ps == [] then 0 else ExcessDeltaAll(ps[..|ps| - 1], n) + ExcessDelta(ps[|ps| - 1], n)
  }

  /** Applying `m` adds to a node's excess exactly the excess deltas `m` carries for it. */
  lemma {:induction false} ExcessAccounting(g: Graph, m: Mutation, n: Id)
    requires n in g.nodes
    ensures Excess(Applied(g, m), n) == Excess(g, n) + ExcessDelta(m, n)
    decreases m
  {
    if m.Combined? {
      ExcessAccountingAll(g, m.parts, n);
    } else if m.NodeExcess? {
      NodeExcessAccounting(g, m, n);
    } else {
      OtherExcessAccounting(g, m, n);
    }
  }

  lemma {:induction false} NodeExcessAccounting(g: Graph, m: Mutation, n: Id)
    requires n in g.nodes && m.NodeExcess?
    ensures Excess(Applied(g, m), n) == Excess(g, n) + ExcessDelta(m, n)
  {
    var x, d := m.node, m.de;
    if x in g.nodes {
      assert Applied(g, m) == g.(nodes := g.nodes[x := g.nodes[x].(excess := Some(Excess(g, x) + d))]);
    }
  }

  lemma {:induction false} OtherExcessAccounting(g: Graph, m: Mutation, n: Id)
    requires n in g.nodes && !m.NodeExcess? && !m.Combined?
    ensures Excess(Applied(g, m), n) == Excess(g, n) && ExcessDelta(m, n) == 0
  {
    match m
    case EdgeFlow(e, d) =>
    case EdgeHighlight(e, mode) =>
    case NodeHighlight(x, mode) =>
      if x in g.nodes {
        assert Applied(g, m) == g.(nodes := g.nodes[x := g.nodes[x].(highlighted := mode == Add)]);
      }
    case NodeHeight(x, d) =>
      if x in g.nodes {
        assert Applied(g, m) == g.(nodes := g.nodes[x := g.nodes[x].(height := Some(Height(g, x) + d))]);
      }
  }

  lemma {:induction false} ExcessAccountingAll(g: Graph, ps: seq<Mutation>, n: Id)
    requires n in g.nodes
    ensures Excess(ApplyAll(g, ps), n) == Excess(g, n) + ExcessDeltaAll(ps, n)
    decreases ps
  {
    if ps != [] {
      var init := ps[..|ps| - 1];
      ExcessAccountingAll(g, init, n);
      ApplyAllKeepsShape(g, init);
      ExcessAccounting(ApplyAll(g, init), ps[|ps| - 1], n);
    }
  }

  // ----- Total excess -----

  /** The sum of the excesses of the nodes of `ns`, as the getter reads them. */
  function ExcessSum(g: Graph, ns: seq<Id>): int
    decreases ns
  {
    if ns == [] then 0 else Excess(g, ns[0]) + ExcessSum(g, ns[1..])
  }

  /** The total excess over the nodes of the graph. */
  function TotalExcess(g: Graph): int {
    ExcessSum(g, g.nodeOrder)
  }

  /** The sum of the excess deltas `m` carries for nodes of `keys`, the nodes it can change. */
  function NetExcess(m: Mutation, keys: set<Id>): int
    decreases m
  {
    match m
    case NodeExcess(n, d) => if n in keys then d else 0
    case Combined(ps) => NetExcessAll(ps, keys)
    case _ => 0
  }

  function NetExcessAll(ps: seq<Mutation>, keys: set<Id>): int
    decreases ps
  {
    if ps == [] then 0 else NetExcessAll(ps[..|ps| - 1], keys) + NetExcess(ps[|ps| - 1], keys)
  }

  /** Writing one node changes the sum over a list holding it once by its change of excess. */
  lemma {:induction false} ExcessSumWrite(g: Graph, n: Id, x: NodeData, ns: seq<Id>)
    requires n in g.nodes && Distinct(ns)
    ensures ExcessSum(g.(nodes := g.nodes[n := x]), ns)
      == ExcessSum(g, ns) + (if n in ns then x.excess.GetOr(0) - Excess(g, n) else 0)
    decreases ns
  {
    if ns != [] {
      assert Distinct(ns[1..]) by {
        forall i, j | 0 <= i < j < |ns[1..]| ensures ns[1..][i] != ns[1..][j] {
          assert ns[1..][i] == ns[i + 1] && ns[1..][j] == ns[j + 1];
        }
      }
      ExcessSumWrite(g, n, x, ns[1..]);
      assert n in ns <==> n == ns[0] || n in ns[1..] by {
        assert ns == [ns[0]] + ns[1..];
      }
      assert n == ns[0] ==> n !in ns[1..];
    }
  }

  /** A change that leaves every excess as it was leaves every sum as it was. */
  lemma {:induction false} ExcessSumSame(a: Graph, b: Graph, ns: seq<Id>)
    requires forall n :: n in ns ==> Excess(a, n) == Excess(b, n)
    ensures ExcessSum(a, ns) == ExcessSum(b, ns)
    decreases ns
  {
    if ns != [] {
      ExcessSumSame(a, b, ns[1..]);
    }
  }

  /**
   * On a well-formed graph, applying `m` changes the total excess by the net of its excess
   * deltas on existing nodes: excess is moved around, never created, unless `m` says so.
   */
  lemma {:induction false} TotalExcessAccounting(g: Graph, m: Mutation)
    requires WellFormed(g)
    ensures TotalExcess(Applied(g, m)) == TotalExcess(g) + NetExcess(m, g.nodes.Keys)
    decreases m
  {
    AppliedKeepsShape(g, m);
    if m.Combined? {
      TotalExcessAccountingAll(g, m.parts);
    } else if m.NodeExcess? {
      var n, d := m.node, m.de;
      if n in g.nodes {
        assert Applied(g, m) == g.(nodes := g.nodes[n := g.nodes[n].(excess := Some(Excess(g, n) + d))]);
        ExcessSumWrite(g, n, g.nodes[n].(excess := Some(Excess(g, n) + d)), g.nodeOrder);
      }
    } else {
      forall n | n in g.nodeOrder ensures Excess(Applied(g, m), n) == Excess(g, n) {
        OtherExcessAccounting(g, m, n);
      }
      ExcessSumSame(Applied(g, m), g, g.nodeOrder);
    }
  }

  lemma {:induction false} TotalExcessAccountingAll(g: Graph, ps: seq<Mutation>)
    requires WellFormed(g)
    ensures TotalExcess(ApplyAll(g, ps)) == TotalExcess(g) + NetExcessAll(ps, g.nodes.Keys)
    decreases ps
  {
    if ps != [] {
      var init := ps[..|ps| - 1];
      var h := ApplyAll(g, init);
      TotalExcessAccountingAll(g, init);
      ApplyAllKeepsShape(g, init);
      SameShapeKeepsStructure(h, g);
      TotalExcessAccounting(h, ps[|ps| - 1]);
    }
  }

  // ----- Mutations that move nothing -----

  /** Every delta in `m` is zero: applying it can only toggle highlights. */
  predicate Neutral(m: Mutation)
    decreases m
  {
    match m
    case EdgeFlow(_, d) => d == 0
    case NodeHeight(_, d) => d == 0
    case NodeExcess(_, d) => d == 0
    case Combined(ps) => forall i :: 0 <= i < |ps| ==> Neutral(ps[i])
    case _ => true
  }

  /** A neutral mutation changes no flow, height or excess as the getters read them. */
  lemma {:induction false} NeutralKeepsNumbers(g: Graph, m: Mutation)
    requires Neutral(m)
    ensures SameNumbers(Applied(g, m), g)
    decreases m
  {
    if m.Combined? {
      NeutralAllKeepsNumbers(g, m.parts);
    } else if m.EdgeHighlight? || m.NodeHighlight? {
      HighlightOnlyKeepsNumbers(g, m);
    } else {
      ZeroDeltaKeepsNumbers(g, m);
    }
  }

  lemma {:induction false} ZeroDeltaKeepsNumbers(g: Graph, m: Mutation)
    requires (m.EdgeFlow? && m.df == 0) || (m.NodeHeight? && m.dh == 0) || (m.NodeExcess? && m.de == 0)
    ensures SameNumbers(Applied(g, m), g)
  {
    match m
    case EdgeFlow(e, d) =>
      if e in g.edges {
        assert g.edges[e := g.edges[e].(flow := g.edges[e].flow + d)] == g.edges;
      }
    case NodeHeight(n, d) =>
      if n in g.nodes {
        var g' := Applied(g, m);
        assert g'.edges == g.edges && g'.nodes.Keys == g.nodes.Keys;
        assert forall x :: x in g.nodes ==> g'.nodes[x] == if x == n then g.nodes[n].(height := Some(Height(g, n))) else g.nodes[x];
      }
    case NodeExcess(n, d) =>
      if n in g.nodes {
        var g' := Applied(g, m);
        assert g'.edges == g.edges && g'.nodes.Keys == g.nodes.Keys;
        assert forall x :: x in g.nodes ==> g'.nodes[x] == if x == n then g.nodes[n].(excess := Some(Excess(g, n))) else g.nodes[x];
      }
  }

  lemma {:induction false} NeutralAllKeepsNumbers(g: Graph, ps: seq<Mutation>)
    requires forall i :: 0 <= i < |ps| ==> Neutral(ps[i])
    ensures SameNumbers(ApplyAll(g, ps), g)
    decreases ps
  {
    if ps != [] {
      NeutralAllKeepsNumbers(g, ps[..|ps| - 1]);
      NeutralKeepsNumbers(ApplyAll(g, ps[..|ps| - 1]), ps[|ps| - 1]);
      SameNumbersTransitive(ApplyAll(g, ps), ApplyAll(g, ps[..|ps| - 1]), g);
    }
  }

  /** The inverse of a neutral mutation is neutral: negating zero gives zero. */
  lemma {:induction false} NeutralInverse(m: Mutation)
    requires Neutral(m)
    ensures Neutral(Inverse(m))
    decreases m
  {
    if m.Combined? {
      NeutralInverseAll(m.parts);
    }
  }

  lemma {:induction false} NeutralInverseAll(ps: seq<Mutation>)
    requires forall i :: 0 <= i < |ps| ==> Neutral(ps[i])
    ensures forall i :: 0 <= i < |InverseAll(ps)| ==> Neutral(InverseAll(ps)[i])
    decreases ps
  {
    if ps != [] {
      var init := ps[..|ps| - 1];
      NeutralInverseAll(init);
      NeutralInverse(ps[|ps| - 1]);
      var r := InverseAll(ps);
      assert r == [Inverse(ps[|ps| - 1])] + InverseAll(init);
      forall i | 0 < i < |r| ensures Neutral(r[i]) {
        assert r[i] == InverseAll(init)[i - 1];
      }
    }
  }

  // ----- Inverses move everything back -----

  lemma {:induction false} FlowDeltaAllAppend(a: seq<Mutation>, b: seq<Mutation>, x: Id)
    ensures FlowDeltaAll(a + b, x) == FlowDeltaAll(a, x) + FlowDeltaAll(b, x)
    decreases b
  {
    if b != [] {
      var init := b[..|b| - 1];
      assert (a + b)[..|a + b| - 1] == a + init;
      FlowDeltaAllAppend(a, init, x);
    } else {
      assert a + b == a;
    }
  }

  lemma {:induction false} ExcessDeltaAllAppend(a: seq<Mutation>, b: seq<Mutation>, n: Id)
    ensures ExcessDeltaAll(a + b, n) == ExcessDeltaAll(a, n) + ExcessDeltaAll(b, n)
    decreases b
  {
    if b != [] {
      var init := b[..|b| - 1];
      assert (a + b)[..|a + b| - 1] == a + init;
      ExcessDeltaAllAppend(a, init, n);
    } else {
      assert a + b == a;
    }
  }

  /** The inverse carries the opposite flow delta for every edge. */
  lemma {:induction false} FlowDeltaInverse(m: Mutation, x: Id)
    ensures FlowDelta(Inverse(m), x) == -FlowDelta(m, x)
    decreases m
  {
    if m.Combined? {
      FlowDeltaInverseAll(m.parts, x);
    }
  }

  lemma {:induction false} FlowDeltaInverseAll(ps: seq<Mutation>, x: Id)
    ensures FlowDeltaAll(InverseAll(ps), x) == -FlowDeltaAll(ps, x)
    decreases ps
  {
    if ps != [] {
      var init, last := ps[..|ps| - 1], ps[|ps| - 1];
      FlowDeltaInverseAll(init, x);
      FlowDeltaInverse(last, x);
      FlowDeltaAllAppend([Inverse(last)], InverseAll(init), x);
      assert [Inverse(last)][..0] == [];
    }
  }

  /** The inverse carries the opposite excess delta for every node. */
  lemma {:induction false} ExcessDeltaInverse(m: Mutation, n: Id)
    ensures ExcessDelta(Inverse(m), n) == -ExcessDelta(m, n)
    decreases m
  {
    if m.Combined? {
      ExcessDeltaInverseAll(m.parts, n);
    }
  }

  lemma {:induction false} ExcessDeltaInverseAll(ps: seq<Mutation>, n: Id)
    ensures ExcessDeltaAll(InverseAll(ps), n) == -ExcessDeltaAll(ps, n)
    decreases ps
  {
    if ps != [] {
      var init, last := ps[..|ps| - 1], ps[|ps| - 1];
      ExcessDeltaInverseAll(init, n);
      ExcessDeltaInverse(last, n);
      ExcessDeltaAllAppend([Inverse(last)], InverseAll(init), n);
      assert [Inverse(last)][..0] == [];
    }
  }

  /** `m` carries no net flow for any edge and no net excess for any node. */
  ghost predicate MovesNothing(m: Mutation) {
    && (forall x :: FlowDelta(m, x) == 0)
    && (forall n :: ExcessDelta(m, n) == 0)
  }

  lemma {:induction false} MovesNothingInverse(m: Mutation)
    requires MovesNothing(m)
    ensures MovesNothing(Inverse(m))
  {
    forall x ensures FlowDelta(Inverse(m), x) == 0 {
      FlowDeltaInverse(m, x);
    }
    forall n ensures ExcessDelta(Inverse(m), n) == 0 {
      ExcessDeltaInverse(m, n);
    }
  }

  /** Highlight toggles move no flow and no excess. */
  lemma {:induction false} HighlightOnlyMovesNothing(m: Mutation)
    requires HighlightOnly(m)
    ensures MovesNothing(m)
    decreases m
  {
    if m.Combined? {
      HighlightOnlyAllMovesNothing(m.parts);
      assert forall x :: FlowDelta(m, x) == FlowDeltaAll(m.parts, x);
      assert forall n :: ExcessDelta(m, n) == ExcessDeltaAll(m.parts, n);
    }
  }

  lemma {:induction false} HighlightOnlyAllMovesNothing(ps: seq<Mutation>)
    requires forall i :: 0 <= i < |ps| ==> HighlightOnly(ps[i])
    ensures forall x :: FlowDeltaAll(ps, x) == 0
    ensures forall n :: ExcessDeltaAll(ps, n) == 0
    decreases ps
  {
    if ps != [] {
      HighlightOnlyAllMovesNothing(ps[..|ps| - 1]);
      HighlightOnlyMovesNothing(ps[|ps| - 1]);
    }
  }

  /**
   * After a mutation that moves nothing, every flow and every excess reads as before, and so
   * does the total excess.
   */
  lemma {:induction false} StillAfter(g: Graph, m: Mutation)
    requires MovesNothing(m)
    ensures forall x :: x in g.edges ==> Flow(Applied(g, m), x) == Flow(g, x)
    ensures forall n :: n in g.nodes ==> Excess(Applied(g, m), n) == Excess(g, n)
    ensures TotalExcess(Applied(g, m)) == TotalExcess(g)
  {
    forall x | x in g.edges ensures Flow(Applied(g, m), x) == Flow(g, x) {
      FlowAccounting(g, m, x);
    }
    forall n | n in g.nodes ensures Excess(Applied(g, m), n) == Excess(g, n) {
      ExcessAccounting(g, m, n);
    }
    AppliedKeepsShape(g, m);
    ExcessSumSame(Applied(g, m), g, g.nodeOrder);
  }

  // ----- Flow out of a node -----

  /** The flows of the edges of `es` that leave `n`, summed. */
  function OutFlowOver(g: Graph, n: Id, es: seq<Id>): int
    decreases es
  {
    if es == [] then 0
    else (if IsOutgoing(g, n, es[0]) then Flow(g, es[0]) else 0) + OutFlowOver(g, n, es[1..])
  }

  /** The total flow on the edges leaving `n`: the value of a flow when `n` is the source. */
  function OutFlow(g: Graph, n: Id): int {
    OutFlowOver(g, n, g.edgeOrder)
  }

  /**
   * Two graphs that agree on which edges leave `n` and on every flow but that of `e` have
   * sums apart by the change on `e`, when `e` is listed and leaves `n`.
   */
  lemma {:induction false} OutFlowOverWrite(a: Graph, b: Graph, n: Id, e: Id, es: seq<Id>)
    requires Distinct(es)
    requires forall x :: x in es ==> (IsOutgoing(a, n, x) <==> IsOutgoing(b, n, x))
    requires forall x :: x in es && x != e ==> Flow(a, x) == Flow(b, x)
    ensures OutFlowOver(b, n, es)
         == OutFlowOver(a, n, es) + (if e in es && IsOutgoing(a, n, e) then Flow(b, e) - Flow(a, e) else 0)
    decreases es
  {
    if es != [] {
      assert Distinct(es[1..]) by {
        forall i, j | 0 <= i < j < |es[1..]| ensures es[1..][i] != es[1..][j] {
          assert es[1..][i] == es[i + 1] && es[1..][j] == es[j + 1];
        }
      }
      OutFlowOverWrite(a, b, n, e, es[1..]);
      assert e in es <==> e == es[0] || e in es[1..] by {
        assert es == [es[0]] + es[1..];
      }
      assert e == es[0] ==> e !in es[1..];
    }
  }

  /** Two graphs with the same outgoing edges and flows have the same sums. */
  lemma {:induction false} OutFlowOverSame(a: Graph, b: Graph, n: Id, es: seq<Id>)
    requires forall x :: x in es ==> (IsOutgoing(a, n, x) <==> IsOutgoing(b, n, x)) && Flow(a, x) == Flow(b, x)
    ensures OutFlowOver(b, n, es) == OutFlowOver(a, n, es)
    decreases es
  {
    if es != [] {
      OutFlowOverSame(a, b, n, es[1..]);
    }
  }

  /**
   * When the enumeration lists each edge once, a flow delta on a listed edge changes the flow
   * out of a node by the delta exactly when the edge leaves that node.
   */
  lemma {:induction false} OutFlowEdgeFlow(g: Graph, e: Id, d: int, n: Id)
    requires Distinct(g.edgeOrder) && e in g.edgeOrder && e in g.edges
    ensures OutFlow(Applied(g, EdgeFlow(e, d)), n) == OutFlow(g, n) + (if g.edges[e].source == n then d else 0)
  {
    var h := Applied(g, EdgeFlow(e, d));
    EdgeFlowEffect(g, e, d);
    AppliedKeepsShape(g, EdgeFlow(e, d));
    OutFlowOverWrite(g, h, n, e, g.edgeOrder);
  }

  /** Highlight toggles leave the flow out of every node as it was. */
  lemma {:induction false} OutFlowHighlightOnly(g: Graph, ps: seq<Mutation>, n: Id)
    requires forall i :: 0 <= i < |ps| ==> HighlightOnly(ps[i])
    ensures OutFlow(ApplyAll(g, ps), n) == OutFlow(g, n)
  {
    HighlightOnlyAllKeepsNumbers(g, ps);
    OutFlowOverSame(g, ApplyAll(g, ps), n, g.edgeOrder);
  }

  // ----- Heights -----

  /** `m` carries no height delta. */
  predicate KeepsHeights(m: Mutation)
    decreases m
  {
    match m
    case NodeHeight(_, _) => false
    case Combined(ps) => forall i :: 0 <= i < |ps| ==> KeepsHeights(ps[i])
    case _ => true
  }

  /** A mutation without height deltas leaves every height as the getter reads it. */
  lemma {:induction false} HeightsKept(g: Graph, m: Mutation, n: Id)
    requires KeepsHeights(m)
    ensures Height(Applied(g, m), n) == Height(g, n)
    decreases m
  {
    if m.Combined? {
      HeightsKeptAll(g, m.parts, n);
    } else {
      OtherHeight(g, m, n);
    }
  }

  lemma {:induction false} OtherHeight(g: Graph, m: Mutation, n: Id)
    requires !m.NodeHeight? && !m.Combined?
    ensures Height(Applied(g, m), n) == Height(g, n)
  {
    match m
    case EdgeFlow(e, d) =>
    case EdgeHighlight(e, mode) =>
    case NodeHighlight(x, mode) =>
      if x in g.nodes {
        assert Applied(g, m) == g.(nodes := g.nodes[x := g.nodes[x].(highlighted := mode == Add)]);
      }
    case NodeExcess(x, d) =>
      if x in g.nodes {
        assert Applied(g, m) == g.(nodes := g.nodes[x := g.nodes[x].(excess := Some(Excess(g, x) + d))]);
      }
  }

  lemma {:induction false} HeightsKeptAll(g: Graph, ps: seq<Mutation>, n: Id)
    requires forall i :: 0 <= i < |ps| ==> KeepsHeights(ps[i])
    ensures Height(ApplyAll(g, ps), n) == Height(g, n)
    decreases ps
  {
    if ps != [] {
      HeightsKeptAll(g, ps[..|ps| - 1], n);
      HeightsKept(ApplyAll(g, ps[..|ps| - 1]), ps[|ps| - 1], n);
    }
  }

  /** Highlight toggles carry no delta of any kind. */
  lemma {:induction false} HighlightOnlyNeutral(m: Mutation)
    requires HighlightOnly(m)
    ensures Neutral(m)
    decreases m
  {
    if m.Combined? {
      forall i | 0 <= i < |m.parts| ensures Neutral(m.parts[i]) {
        HighlightOnlyNeutral(m.parts[i]);
      }
    }
  }

  // ----- Sums over prefixes -----

  lemma {:induction false} FlowDeltaPrefix(ps: seq<Mutation>, k: nat, x: Id)
    requires 0 < k <= |ps|
    ensures FlowDeltaAll(ps[..k], x) == FlowDeltaAll(ps[..k - 1], x) + FlowDelta(ps[k - 1], x)
  {
    assert ps[..k][..k - 1] == ps[..k - 1];
  }

  lemma {:induction false} ExcessDeltaPrefix(ps: seq<Mutation>, k: nat, n: Id)
    requires 0 < k <= |ps|
    ensures ExcessDeltaAll(ps[..k], n) == ExcessDeltaAll(ps[..k - 1], n) + ExcessDelta(ps[k - 1], n)
  {
    assert ps[..k][..k - 1] == ps[..k - 1];
  }

  lemma {:induction false} NetExcessPrefix(ps: seq<Mutation>, k: nat, keys: set<Id>)
    requires 0 < k <= |ps|
    ensures NetExcessAll(ps[..k], keys) == NetExcessAll(ps[..k - 1], keys) + NetExcess(ps[k - 1], keys)
  {
    assert ps[..k][..k - 1] == ps[..k - 1];
  }
}
