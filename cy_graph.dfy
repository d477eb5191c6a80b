/**
 * The graph facade the algorithms read: an arena of nodes and edges keyed by their ids,
 * standing for the cytoscape.js store that the Node, Edge and Graph wrappers consult.
 */
module CyGraph {
  import opened Wrappers
  import opened Seqs

  type Id = string

  /**
   * A node's data. `kind` is the raw `type` field; `height` and `excess` are None when
   * the field is unset or not a number, which the getters read as 0.
   */
  datatype NodeData = NodeData(
    nodeLabel: string,
    kind: string,
    height: Option<int>,
    excess: Option<int>,
    highlighted: bool)

  /** An edge's data: its endpoints, integer capacity and flow, and the highlight class flag. */
  datatype EdgeData = EdgeData(source: Id, target: Id, capacity: int, flow: int, highlighted: bool)

  datatype NodeType = Source | Sink | Default

  /** The arena. The two orders are the enumeration orders of `nodes()` and `edges()`. */
  datatype Graph = Graph(
    nodes: map<Id, NodeData>,
    edges: map<Id, EdgeData>,
    nodeOrder: seq<Id>,
    edgeOrder: seq<Id>)

  /** Each element is enumerated exactly once and every edge joins two nodes of the graph. */
  ghost predicate WellFormed(g: Graph) {
    && Distinct(g.nodeOrder)
    && Distinct(g.edgeOrder)
    && (forall n :: n in g.nodes <==> n in g.nodeOrder)
    && (forall e :: e in g.edges <==> e in g.edgeOrder)
    && (forall e :: e in g.edges ==> g.edges[e].source in g.nodes && g.edges[e].target in g.nodes)
  }

  // ----- Node getters -----

  /** `getHeight`: the stored height, or 0 when it is unset or not a number. */
  function Height(g: Graph, n: Id): int {
    if n in g.nodes && g.nodes[n].height.Some? then g.nodes[n].height.value else 0
  }

  /** `getExcess`: the stored excess, or 0 when it is unset or not a number. */
  function Excess(g: Graph, n: Id): int {
    if n in g.nodes && g.nodes[n].excess.Some? then g.nodes[n].excess.value else 0
  }

  /** `getType`: "source" and "sink" are recognised, anything else is a default node. */
  function TypeOf(g: Graph, n: Id): (t: NodeType)
    ensures t == Source <==> n in g.nodes && g.nodes[n].kind == "source"
    ensures t == Sink <==> n in g.nodes && g.nodes[n].kind == "sink"
  {
    if n in g.nodes && g.nodes[n].kind == "source" then Source
    else if n in g.nodes && g.nodes[n].kind == "sink" then Sink
    else Default
  }

  function Label(g: Graph, n: Id): string {
    if n in g.nodes then g.nodes[n].nodeLabel else ""
  }

  // ----- Edge getters -----

  function Capacity(g: Graph, e: Id): int {
    if e in g.edges then g.edges[e].capacity else 0
  }

  function Flow(g: Graph, e: Id): int {
    if e in g.edges then g.edges[e].flow else 0
  }

  /** Residual capacity `capacity - flow`. */
  function Residual(g: Graph, e: Id): int {
    Capacity(g, e) - Flow(g, e)
  }

  function SourceOf(g: Graph, e: Id): Id {
    if e in g.edges then g.edges[e].source else ""
  }

  function TargetOf(g: Graph, e: Id): Id {
    if e in g.edges then g.edges[e].target else ""
  }

  // ----- Graph lookups -----

  predicate HasKind(g: Graph, kind: string, n: Id) {
    n in g.nodes && g.nodes[n].kind == kind
  }

  /** The first node, in enumeration order, whose type field is `kind`. */
  function FirstOfKind(g: Graph, kind: string): (r: Option<Id>)
    ensures r.Some? ==> r.value in g.nodeOrder && HasKind(g, kind, r.value)
    ensures r.None? ==> forall i :: 0 <= i < |g.nodeOrder| ==> !HasKind(g, kind, g.nodeOrder[i])
  {
    match FindFirst(g.nodeOrder, n => HasKind(g, kind, n))
    case None => None
    case Some(k) => Some(g.nodeOrder[k])
  }

  /** `Graph.getSourceNode`. */
  function SourceNode(g: Graph): Option<Id> {
    FirstOfKind(g, "source")
  }

  /** `Graph.getSinkNode`. */
  function SinkNode(g: Graph): Option<Id> {
    FirstOfKind(g, "sink")
  }

  // ----- Outgoing edges, sorted by the label of their target -----

  /**
   * The order the outgoing-edge sort uses, standing for JavaScript's `<` on strings: the first
   * differing character decides, by Unicode scalar value, and a proper prefix comes first.
   */
  predicate StrLess(a: string, b: string) {
    if |a| == 0 then |b| > 0
    else if |b| == 0 then false
    else if a[0] != b[0] then a[0] < b[0]
    else StrLess(a[1..], b[1..])
  }

  lemma {:induction false} StrLessAsymmetric(a: string, b: string)
    ensures StrLess(a, b) ==> !StrLess(b, a)
  {
    if |a| > 0 && |b| > 0 && a[0] == b[0] {
      StrLessAsymmetric(a[1..], b[1..]);
    }
  }

  lemma {:induction false} StrLessTotal(a: string, b: string)
    ensures a == b || StrLess(a, b) || StrLess(b, a)
  {
    if |a| > 0 && |b| > 0 && a[0] == b[0] {
      StrLessTotal(a[1..], b[1..]);
      if a[1..] == b[1..] {
        assert a == [a[0]] + a[1..] && b == [b[0]] + b[1..];
      }
    }
  }

  lemma {:induction false} StrLessTransitive(a: string, b: string, c: string)
    requires StrLess(a, b) && StrLess(b, c)
    ensures StrLess(a, c)
  {
    if |a| > 0 && a[0] == b[0] && b[0] == c[0] {
      StrLessTransitive(a[1..], b[1..], c[1..]);
    }
  }

  /** "Not less" on labels is transitive: the order used by the sort is a total preorder. */
  lemma {:induction false} NotLessTransitive(a: string, b: string, c: string)
    requires !StrLess(b, a) && !StrLess(c, b)
    ensures !StrLess(c, a)
  {
    StrLessTotal(a, b);
    StrLessTotal(b, c);
    if StrLess(c, a) {
      if a != b {
        StrLessTransitive(c, a, b);
      }
    }
  }

  /** The label of the edge's target node, the sort key of `getOutgoingEdges`. */
  function TargetLabel(g: Graph, e: Id): string {
    Label(g, TargetOf(g, e))
  }

  /** The sort key of the `i`-th edge of `s`. */
  function KeyAt(g: Graph, s: seq<Id>, i: int): string
    requires 0 <= i < |s|
  {
    TargetLabel(g, s[i])
  }

  /** No edge of `s` has a target label smaller than that of an edge before it. */
  ghost predicate SortedByTarget(g: Graph, s: seq<Id>) {
    forall i, j :: 0 <= i < j < |s| ==> !StrLess(KeyAt(g, s, j), KeyAt(g, s, i))
  }

  /** Inserts `x` into sorted `s` after every edge whose target label is not greater. */
  function InsertByTarget(g: Graph, x: Id, s: seq<Id>): (r: seq<Id>)
    requires SortedByTarget(g, s)
    ensures multiset(r) == multiset(s) + multiset{x}
    ensures SortedByTarget(g, r)
  {
    if s == [] then [x]
    else if StrLess(TargetLabel(g, x), TargetLabel(g, s[0])) then
      InsertFrontSorted(g, x, s);
      [x] + s
    else
      SortedTail(g, s);
      var rest := InsertByTarget(g, x, s[1..]);
      assert s == [s[0]] + s[1..];
      InsertBehindSorted(g, s[0], s[1..], x, rest);
      [s[0]] + rest
  }

  /** The tail of a sorted list is sorted. */
  lemma {:induction false} SortedTail(g: Graph, s: seq<Id>)
    requires SortedByTarget(g, s) && s != []
    ensures SortedByTarget(g, s[1..])
  {
    forall i, j | 0 <= i < j < |s| - 1 ensures !StrLess(KeyAt(g, s[1..], j), KeyAt(g, s[1..], i)) {
      assert KeyAt(g, s[1..], i) == KeyAt(g, s, i + 1) && KeyAt(g, s[1..], j) == KeyAt(g, s, j + 1);
    }
  }

  lemma {:induction false} InsertFrontSorted(g: Graph, x: Id, s: seq<Id>)
    requires SortedByTarget(g, s) && s != []
    requires StrLess(TargetLabel(g, x), TargetLabel(g, s[0]))
    ensures SortedByTarget(g, [x] + s)
  {
    var r := [x] + s;
    forall i, j | 0 <= i < j < |r| ensures !StrLess(KeyAt(g, r, j), KeyAt(g, r, i)) {
      if i == 0 {
        var a, b, c := KeyAt(g, r, 0), KeyAt(g, s, 0), KeyAt(g, r, j);
        StrLessAsymmetric(a, b);
        if j > 1 {
          assert KeyAt(g, s, j - 1) == c;
          if StrLess(c, a) {
            StrLessTransitive(c, a, b);
            assert false;
          }
        }
      } else {
        assert r[i] == s[i - 1] && r[j] == s[j - 1];
        assert KeyAt(g, s, i - 1) == KeyAt(g, r, i) && KeyAt(g, s, j - 1) == KeyAt(g, r, j);
      }
    }
  }

  lemma {:induction false} InsertBehindSorted(g: Graph, head: Id, tail: seq<Id>, x: Id, rest: seq<Id>)
    requires SortedByTarget(g, [head] + tail)
    requires !StrLess(TargetLabel(g, x), TargetLabel(g, head))
    requires SortedByTarget(g, rest)
    requires multiset(rest) == multiset(tail) + multiset{x}
    ensures SortedByTarget(g, [head] + rest)
  {
    var s := [head] + tail;
    var r := [head] + rest;
    forall i, j | 0 <= i < j < |r| ensures !StrLess(KeyAt(g, r, j), KeyAt(g, r, i)) {
      if i == 0 {
        assert r[j] in multiset(rest);
        if r[j] != x {
          assert r[j] in multiset(tail);
          var k :| 0 <= k < |tail| && tail[k] == r[j];
          assert s[0] == head && s[k + 1] == r[j];
          assert !StrLess(KeyAt(g, s, k + 1), KeyAt(g, s, 0));
        }
      } else {
        assert KeyAt(g, rest, i - 1) == KeyAt(g, r, i) && KeyAt(g, rest, j - 1) == KeyAt(g, r, j);
      }
    }
  }

  /**
   * An insertion sort by target label. It gives the same order as the comparator of
   * `getOutgoingEdges`, which answers 0 for equal labels and so keeps their original order
   * (`SortByTargetStable`).
   */
  function SortByTarget(g: Graph, s: seq<Id>): (r: seq<Id>)
    ensures multiset(r) == multiset(s)
    ensures SortedByTarget(g, r)
  {
    if s == [] then []
    else
      assert s == s[..|s| - 1] + [s[|s| - 1]];
      InsertByTarget(g, s[|s| - 1], SortByTarget(g, s[..|s| - 1]))
  }

  /** Whether an edge's target label is `k`. */
  function HasLabel(g: Graph, k: string): Id -> bool {
    (e: Id) => TargetLabel(g, e) == k
  }

  /**
   * Inserting `x` puts it behind every edge with the same target label: among the edges of
   * any one label, the order is the old order followed by `x`.
   */
  lemma {:induction false} InsertByTargetStable(g: Graph, x: Id, s: seq<Id>, k: string)
    requires SortedByTarget(g, s)
    ensures Filter(InsertByTarget(g, x, s), HasLabel(g, k))
         == Filter(s, HasLabel(g, k)) + (if TargetLabel(g, x) == k then [x] else [])
    decreases |s|
  {
    if s == [] {
      assert InsertByTarget(g, x, s) == [x];
      FilterCons([x], HasLabel(g, k));
    } else if StrLess(TargetLabel(g, x), TargetLabel(g, s[0])) {
      InsertFrontStable(g, x, s, k);
    } else {
      SortedTail(g, s);
      InsertByTargetStable(g, x, s[1..], k);
      InsertBehindStable(g, x, s, k);
    }
  }

  lemma {:induction false} InsertFrontStable(g: Graph, x: Id, s: seq<Id>, k: string)
    requires SortedByTarget(g, s) && s != []
    requires StrLess(TargetLabel(g, x), TargetLabel(g, s[0]))
    ensures Filter(InsertByTarget(g, x, s), HasLabel(g, k))
         == Filter(s, HasLabel(g, k)) + (if TargetLabel(g, x) == k then [x] else [])
  {
    var labelled := HasLabel(g, k);
    assert InsertByTarget(g, x, s) == [x] + s;
    FilterCons([x] + s, labelled);
    assert ([x] + s)[1..] == s;
    if TargetLabel(g, x) == k {
      LabelBelowAbsent(g, x, s);
      FilterEmpty(s, labelled);
    }
  }

  lemma {:induction false} InsertBehindStable(g: Graph, x: Id, s: seq<Id>, k: string)
    requires SortedByTarget(g, s) && s != []
    requires !StrLess(TargetLabel(g, x), TargetLabel(g, s[0]))
    requires SortedByTarget(g, s[1..])
    requires Filter(InsertByTarget(g, x, s[1..]), HasLabel(g, k))
          == Filter(s[1..], HasLabel(g, k)) + (if TargetLabel(g, x) == k then [x] else [])
    ensures Filter(InsertByTarget(g, x, s), HasLabel(g, k))
         == Filter(s, HasLabel(g, k)) + (if TargetLabel(g, x) == k then [x] else [])
  {
    InsertBehindUnfolds(g, x, s);
    FilterConsSame(InsertByTarget(g, x, s[1..]), s, HasLabel(g, k), if TargetLabel(g, x) == k then [x] else []);
  }

  lemma {:induction false} InsertBehindUnfolds(g: Graph, x: Id, s: seq<Id>)
    requires SortedByTarget(g, s) && s != []
    requires !StrLess(TargetLabel(g, x), TargetLabel(g, s[0]))
    requires SortedByTarget(g, s[1..])
    ensures InsertByTarget(g, x, s) == [s[0]] + InsertByTarget(g, x, s[1..])
  {
  }

  /** No edge of a sorted list has a target label below that of its first edge. */
  lemma {:induction false} LabelBelowAbsent(g: Graph, x: Id, s: seq<Id>)
    requires SortedByTarget(g, s) && s != []
    requires StrLess(TargetLabel(g, x), TargetLabel(g, s[0]))
    ensures forall i :: 0 <= i < |s| ==> TargetLabel(g, s[i]) != TargetLabel(g, x)
  {
    StrLessAsymmetric(TargetLabel(g, x), TargetLabel(g, s[0]));
    forall i | 0 < i < |s| ensures TargetLabel(g, s[i]) != TargetLabel(g, x) {
      assert !StrLess(KeyAt(g, s, i), KeyAt(g, s, 0));
    }
  }

  /**
   * The sort is stable: the edges of any one target label come out in the order they went
   * in, as they do under a comparator that answers 0 for equal labels.
   */
  lemma {:induction false} SortByTargetStable(g: Graph, s: seq<Id>, k: string)
    ensures Filter(SortByTarget(g, s), HasLabel(g, k)) == Filter(s, HasLabel(g, k))
    decreases |s|
  {
    if s != [] {
      var front := s[..|s| - 1];
      SortByTargetStable(g, front, k);
      InsertByTargetStable(g, s[|s| - 1], SortByTarget(g, front), k);
      FilterSnoc(s, HasLabel(g, k));
    }
  }

  predicate IsOutgoing(g: Graph, n: Id, e: Id) {
    e in g.edges && g.edges[e].source == n
  }

  /** `Node.getOutgoingEdges`: the node's outgoing edges, ordered by target label ascending. */
  function OutgoingEdges(g: Graph, n: Id): (r: seq<Id>)
    ensures multiset(r) == multiset(Filter(g.edgeOrder, e => IsOutgoing(g, n, e)))
    ensures SortedByTarget(g, r)
  {
    SortByTarget(g, Filter(g.edgeOrder, e => IsOutgoing(g, n, e)))
  }

  /** Every edge `getOutgoingEdges` returns leaves the node. */
  lemma {:induction false} OutgoingEdgesSound(g: Graph, n: Id, e: Id)
    requires e in OutgoingEdges(g, n)
    ensures IsOutgoing(g, n, e) && e in g.edgeOrder
  {
    assert e in multiset(OutgoingEdges(g, n));
  }

  /** The edges `getOutgoingEdges` returns are exactly the node's outgoing edges, each once. */
  lemma {:induction false} OutgoingEdgesExact(g: Graph, n: Id)
    requires WellFormed(g)
    ensures forall e :: e in OutgoingEdges(g, n) <==> IsOutgoing(g, n, e)
    ensures Distinct(OutgoingEdges(g, n))
  {
    var f := Filter(g.edgeOrder, e => IsOutgoing(g, n, e));
    var r := OutgoingEdges(g, n);
    forall e ensures e in r <==> IsOutgoing(g, n, e) {
      assert e in r <==> e in multiset(r);
      assert e in f <==> e in multiset(f);
      if IsOutgoing(g, n, e) {
        var k :| 0 <= k < |g.edgeOrder| && g.edgeOrder[k] == e;
      }
    }
    FilterDistinct(g.edgeOrder, e => IsOutgoing(g, n, e));
    DistinctByMultiset(f, r);
  }

  lemma {:induction false} DistinctByMultiset<T>(a: seq<T>, b: seq<T>)
    requires Distinct(a) && multiset(a) == multiset(b)
    ensures Distinct(b)
  {
    forall x | x in multiset(a) ensures multiset(a)[x] == 1 {
      DistinctCount(a, x);
    }
    forall i, j | 0 <= i < j < |b| ensures b[i] != b[j] {
      RepeatedCount(b, i, j);
      assert b[i] in multiset(a);
    }
  }

  lemma {:induction false} RepeatedCount<T>(b: seq<T>, i: nat, j: nat)
    requires i < j < |b|
    ensures b[i] == b[j] ==> multiset(b)[b[i]] >= 2
  {
    assert b == b[..i] + [b[i]] + b[i + 1..j] + [b[j]] + b[j + 1..];
  }

  lemma {:induction false} DistinctCount<T>(a: seq<T>, x: T)
    requires Distinct(a) && x in a
    ensures multiset(a)[x] == 1
  {
    assert a == [a[0]] + a[1..];
    if a[0] == x {
      assert x !in a[1..];
    } else {
      assert Distinct(a[1..]) by {
        forall i, j | 0 <= i < j < |a[1..]| ensures a[1..][i] != a[1..][j] {
          assert a[1..][i] == a[i + 1];
        }
      }
      DistinctCount(a[1..], x);
    }
  }

  // ----- Reverse edge -----

  /**
   * `x` runs parallel to `e` (it joins the same two nodes) but is not codirected with it:
   * the members of `parallelEdges().difference(codirectedEdges())`.
   */
  predicate AntiParallel(g: Graph, e: Id, x: Id) {
    && e in g.edges && x in g.edges
    && g.edges[x].source == g.edges[e].target
    && g.edges[x].target == g.edges[e].source
    && !(g.edges[x].source == g.edges[e].source && g.edges[x].target == g.edges[e].target)
  }

  /** `Edge.getReverseEdge`: the first anti-parallel edge, in enumeration order. */
  function ReverseEdge(g: Graph, e: Id): (r: Option<Id>)
    ensures r.Some? ==> r.value in g.edgeOrder && AntiParallel(g, e, r.value)
    ensures r.Some? ==> r.value != e
    ensures r.None? ==> forall i :: 0 <= i < |g.edgeOrder| ==> !AntiParallel(g, e, g.edgeOrder[i])
  {
    match FindFirst(g.edgeOrder, x => AntiParallel(g, e, x))
    case None => None
    case Some(k) => Some(g.edgeOrder[k])
  }

  /** A self-loop has no reverse edge; a reverse edge reverses the endpoints. */
  lemma {:induction false} ReverseEdgeOfSelfLoop(g: Graph, e: Id)
    requires e in g.edges && g.edges[e].source == g.edges[e].target
    ensures ReverseEdge(g, e).None?
  {
  }

  /** Every edge that is not a self-loop has an anti-parallel partner (the paired reverse edge). */
  ghost predicate Paired(g: Graph) {
    forall e {:trigger ReverseEdge(g, e)} :: e in g.edges && g.edges[e].source != g.edges[e].target ==> ReverseEdge(g, e).Some?
  }
}
