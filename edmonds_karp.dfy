/**
 * The breadth-first Edmonds–Karp driver over the `FlowGraph` store. Unlike the other two
 * drivers it changes link flows in place and yields only what to highlight, so it is
 * modelled as methods that run to the end and return the highlights in the order the
 * generator yields them.
 *
 * A search records in `pred`, for every node it reaches, the index of the link it was
 * reached by; the link at that index is the object the source keeps in `pred` and later
 * writes through.
 */
module EdmondsKarp {
  import opened Wrappers
  import opened Seqs
  import opened FlowGraphs
  import opened PathSearch

  /** One item of a yielded list: a node or a link to highlight. */
  datatype Visualisation = HighlightNode(node: Node) | HighlightLink(link: FlowLink)

  /** How a run ends. */
  datatype Ending =
    | Finished        // a search left the sink unreached: the generator returns
    | OutOfFuel       // every search allowed by the fuel found a path
    | MissingReverse  // a path link had no reverse link: writing its flow throws

  function Residual(l: FlowLink): int {
    l.capacity - l.flow
  }

  // ----- What a breadth-first search leaves behind -----

  /**
   * Every entry of `pred` names a link, by index, that runs from the entry's `from` into
   * the node it is filed under and had room for more flow when it was taken.
   */
  ghost predicate Arcs(links: seq<FlowLink>, pred: map<NodeId, Arc<nat>>) {
    forall t {:trigger pred[t]} :: t in pred ==>
      && pred[t].key < |links|
      && links[pred[t].key].source == pred[t].from
      && links[pred[t].key].target == t
      && Residual(links[pred[t].key]) > 0
  }

  /** The search has reached `x`: it is the source or has a `pred` entry. */
  predicate Reached(pred: map<NodeId, Arc<nat>>, source: NodeId, x: NodeId) {
    x == source || x in pred
  }

  /** The number of links from the source to a reached node along `pred`. */
  ghost function Dist(rank: map<NodeId, nat>, x: NodeId): nat {
    if x in rank then rank[x] + 1 else 0
  }

  /** Each node lies exactly one link further from the source than the node it was reached from. */
  ghost predicate Exact(pred: map<NodeId, Arc<nat>>, rank: map<NodeId, nat>) {
    forall t {:trigger pred[t]} :: t in pred ==> t in rank && rank[t] == Dist(rank, pred[t].from)
  }

  /**
   * The link at index `k`, if it has room, leads to a reached node at most one link
   * further from the source than `u`.
   */
  ghost predicate Covered(links: seq<FlowLink>, pred: map<NodeId, Arc<nat>>, rank: map<NodeId, nat>, source: NodeId, u: NodeId, k: nat)
    requires k < |links|
  {
    Residual(links[k]) > 0 ==>
      Reached(pred, source, links[k].target) && Dist(rank, links[k].target) <= Dist(rank, u) + 1
  }

  /** Every link leaving `u` is covered: `u`'s links have been scanned. */
  ghost predicate Scanned(links: seq<FlowLink>, pred: map<NodeId, Arc<nat>>, rank: map<NodeId, nat>, source: NodeId, u: NodeId) {
    forall k :: 0 <= k < |links| && links[k].source == u ==> Covered(links, pred, rank, source, u, k)
  }

  /** Nodes leave the queue in the order of their distance from the source. */
  ghost predicate Layered(rank: map<NodeId, nat>, order: seq<NodeId>) {
    forall a, b :: 0 <= a < b < |order| ==> Dist(rank, order[a]) <= Dist(rank, order[b])
  }

  /** `order`, the nodes in the order they entered the queue, starts at the source and holds each reached node once. */
  ghost predicate Enqueued(pred: map<NodeId, Arc<nat>>, source: NodeId, order: seq<NodeId>) {
    && |order| > 0
    && order[0] == source
    && Distinct(order)
    && forall x :: x in order <==> Reached(pred, source, x)
  }

  /** What holds of the search state between two links. */
  ghost predicate Searching(links: seq<FlowLink>, pred: map<NodeId, Arc<nat>>, rank: map<NodeId, nat>, source: NodeId, order: seq<NodeId>) {
    && Forest(pred, rank, source)
    && Exact(pred, rank)
    && Arcs(links, pred)
    && Enqueued(pred, source, order)
    && Layered(rank, order)
  }

  /** What a finished search guarantees: all of the above, and every reached node scanned. */
  ghost predicate Searched(links: seq<FlowLink>, pred: map<NodeId, Arc<nat>>, rank: map<NodeId, nat>, source: NodeId, order: seq<NodeId>) {
    && Searching(links, pred, rank, source, order)
    && forall x :: Reached(pred, source, x) ==> Scanned(links, pred, rank, source, x)
  }

  /** A walk from `from` to `to` over links with room for more flow, given by link indices. */
  ghost predicate Walk(links: seq<FlowLink>, ks: seq<nat>, from: NodeId, to: NodeId)
    decreases |ks|
  {
    if ks == [] then from == to
    else
      && ks[0] < |links|
      && links[ks[0]].source == from
      && Residual(links[ks[0]]) > 0
      && Walk(links, ks[1..], links[ks[0]].target, to)
  }

  // ----- What a search yields -----

  /** The node `getNode` gives for a queued id: the source node itself, else the first node with that id. */
  function Shown(nodes: seq<Node>, source: Node, id: NodeId): Node {
    if id == source.id then source
    else match NodeById(nodes, id)
      case Some(n) => n
      case None => source
  }

  /**
   * What the scan of node `x` yields, among the queued nodes `cs`: for each node filed in
   * `pred` as reached from `x`, in queue order, that node and the link it was reached by.
   */
  function Discovered(nodes: seq<Node>, links: seq<FlowLink>, source: Node, pred: map<NodeId, Arc<nat>>,
                      cs: seq<NodeId>, x: NodeId): seq<seq<Visualisation>>
    decreases |cs|
  {
    if cs == [] then []
    else
      var c := cs[|cs| - 1];
      Discovered(nodes, links, source, pred, cs[..|cs| - 1], x)
        + (if c in pred && pred[c].from == x && pred[c].key < |links|
           then [[HighlightNode(Shown(nodes, source, c)), HighlightLink(links[pred[c].key])]]
           else [])
  }

  /**
   * What a search that has dequeued `order[..n]` has yielded: each dequeued node, followed
   * by the nodes discovered from it with their links.
   */
  function SearchTrace(nodes: seq<Node>, links: seq<FlowLink>, source: Node, pred: map<NodeId, Arc<nat>>,
                       order: seq<NodeId>, n: nat): seq<seq<Visualisation>>
    requires n <= |order|
  {
    if n == 0 then []
    else
      SearchTrace(nodes, links, source, pred, order, n - 1)
        + [[HighlightNode(Shown(nodes, source, order[n - 1]))]]
        + Discovered(nodes, links, source, pred, order, order[n - 1])
  }

  /** No node from `order[nv..]` has been scanned yet: no `pred` entry starts there. */
  ghost predicate Unscanned(pred: map<NodeId, Arc<nat>>, order: seq<NodeId>, nv: nat) {
    forall c, i {:trigger pred[c], order[i]} :: c in pred && nv <= i < |order| ==> pred[c].from != order[i]
  }

  /** What a node yields depends only on the entries of the queued nodes. */
  lemma {:induction false} DiscoveredSame(nodes: seq<Node>, links: seq<FlowLink>, source: Node,
                                          pred: map<NodeId, Arc<nat>>, pred': map<NodeId, Arc<nat>>, cs: seq<NodeId>, x: NodeId)
    requires forall c :: c in cs ==> (c in pred <==> c in pred') && (c in pred ==> pred[c] == pred'[c])
    ensures Discovered(nodes, links, source, pred', cs, x) == Discovered(nodes, links, source, pred, cs, x)
    decreases |cs|
  {
    if cs != [] {
      assert cs[|cs| - 1] in cs;
      forall c | c in cs[..|cs| - 1] ensures c in cs { }
      DiscoveredSame(nodes, links, source, pred, pred', cs[..|cs| - 1], x);
    }
  }

  /** A node without an entry from `x` adds nothing to what `x` yields. */
  lemma {:induction false} DiscoveredNone(nodes: seq<Node>, links: seq<FlowLink>, source: Node,
                                          pred: map<NodeId, Arc<nat>>, cs: seq<NodeId>, x: NodeId)
    requires forall c :: c in cs && c in pred ==> pred[c].from != x
    ensures Discovered(nodes, links, source, pred, cs, x) == []
    decreases |cs|
  {
    if cs != [] {
      assert cs[|cs| - 1] in cs;
      forall c | c in cs[..|cs| - 1] ensures c in cs { }
      DiscoveredNone(nodes, links, source, pred, cs[..|cs| - 1], x);
    }
  }

  /** Filing and queueing a new node adds it to what its `from` node yields, and to nothing else. */
  lemma {:induction false} DiscoveredGrows(nodes: seq<Node>, links: seq<FlowLink>, source: Node,
                                           pred: map<NodeId, Arc<nat>>, cs: seq<NodeId>, x: NodeId, a: Arc<nat>)
    requires a.to !in cs
    ensures Discovered(nodes, links, source, pred[a.to := a], cs + [a.to], x)
         == Discovered(nodes, links, source, pred, cs, x)
            + (if a.from == x && a.key < |links|
               then [[HighlightNode(Shown(nodes, source, a.to)), HighlightLink(links[a.key])]]
               else [])
  {
    assert (cs + [a.to])[..|cs|] == cs;
    DiscoveredSame(nodes, links, source, pred, pred[a.to := a], cs, x);
  }

  /** Filing a node found from an undequeued node leaves what the dequeued nodes yielded unchanged. */
  lemma {:induction false} SearchTraceGrows(nodes: seq<Node>, links: seq<FlowLink>, source: Node,
                                            pred: map<NodeId, Arc<nat>>, order: seq<NodeId>, n: nat, a: Arc<nat>)
    requires n <= |order| && a.to !in order
    requires forall i :: 0 <= i < n ==> order[i] != a.from
    ensures SearchTrace(nodes, links, source, pred[a.to := a], order + [a.to], n)
         == SearchTrace(nodes, links, source, pred, order, n)
    decreases n
  {
    if n > 0 {
      SearchTraceGrows(nodes, links, source, pred, order, n - 1, a);
      assert (order + [a.to])[n - 1] == order[n - 1];
      DiscoveredGrows(nodes, links, source, pred, order, order[n - 1], a);
    }
  }

  /** Filing a node found from `order[nv]` keeps every node after `order[nv]` unscanned. */
  lemma {:induction false} UnscannedGrows(pred: map<NodeId, Arc<nat>>, s: NodeId, order: seq<NodeId>, nv: nat, a: Arc<nat>)
    requires nv < |order| && a.from == order[nv] && Unscanned(pred, order, nv + 1)
    requires Distinct(order + [a.to])
    requires forall c {:trigger pred[c]} :: c in pred ==> pred[c].from in order
    ensures Unscanned(pred[a.to := a], order + [a.to], nv + 1)
  {
    var pred', order' := pred[a.to := a], order + [a.to];
    forall c, i | c in pred' && nv + 1 <= i < |order'| ensures pred'[c].from != order'[i] {
      if c == a.to {
        assert order'[nv] == a.from;
      } else if i == |order| {
        var j :| 0 <= j < |order| && order[j] == pred[c].from;
        assert order'[j] == order[j];
      } else {
        assert order'[i] == order[i] && pred'[c] == pred[c];
      }
    }
  }

  // ----- The search -----

  /** Every queued node is at most one link further from the source than `u`. */
  ghost predicate AllWithin(rank: map<NodeId, nat>, order: seq<NodeId>, u: NodeId) {
    forall a :: 0 <= a < |order| ==> Dist(rank, order[a]) <= Dist(rank, u) + 1
  }

  /** Between two nodes: the first `nv` queued nodes are scanned; `all` bounds the filed nodes. */
  ghost predicate Between(links: seq<FlowLink>, pred: map<NodeId, Arc<nat>>, rank: map<NodeId, nat>, s: NodeId,
                          order: seq<NodeId>, nv: nat, all: set<NodeId>) {
    && nv <= |order|
    && Searching(links, pred, rank, s, order)
    && (nv < |order| ==> AllWithin(rank, order, order[nv]))
    && (forall i :: 0 <= i < nv ==> Scanned(links, pred, rank, s, order[i]))
    && pred.Keys <= all
  }

  /** While scanning node `order[nv]`: the links at the first `j` indices of `out` are covered. */
  ghost predicate Scanning(links: seq<FlowLink>, pred: map<NodeId, Arc<nat>>, rank: map<NodeId, nat>, s: NodeId,
                           order: seq<NodeId>, nv: nat, all: set<NodeId>, out: seq<nat>, j: nat) {
    && nv < |order|
    && j <= |out|
    && Searching(links, pred, rank, s, order)
    && AllWithin(rank, order, order[nv])
    && (forall i :: 0 <= i < nv ==> Scanned(links, pred, rank, s, order[i]))
    && (forall m :: 0 <= m < j ==> out[m] < |links| && Covered(links, pred, rank, s, order[nv], out[m]))
    && pred.Keys <= all
  }

  /**
   * One breadth-first search (lines 51-71): the queue starts as `[source]` and `pred` as
   * empty; each node is taken from the front, highlighted, and each of its links, in order,
   * that leads to a node without a `pred` entry other than the source and has room for
   * more flow is highlighted with its target, filed in `pred` and its target put at the
   * back of the queue. The search runs until the queue is empty.
   *
   * On return `pred` is a search forest of links with room, every reached node was queued
   * exactly once, in order of distance, and every link with room out of a reached node
   * leads to a reached node at most one link further away.
   */
  method Search(nodes: seq<Node>, links: seq<FlowLink>, source: Node)
    returns (pred: map<NodeId, Arc<nat>>, ghost rank: map<NodeId, nat>, ghost order: seq<NodeId>, trace: seq<seq<Visualisation>>)
    requires AllKnown(Ids(nodes), links)
    ensures Searched(links, pred, rank, source.id, order)
    ensures trace == SearchTrace(nodes, links, source, pred, order, |order|)
    ensures |trace| == |order| + |pred|
  {
    var s := source.id;
    var q := [source];
    pred, rank, order, trace := map[], map[], [s], [];
    var nv := 0;
    ghost var all := ToSet(Ids(nodes));
    assert Distinct(order);
    while |q| > 0
      invariant Between(links, pred, rank, s, order, nv, all)
      invariant Ids(q) == order[nv..]
      invariant |trace| == nv + |pred| && |pred| <= |all|
      invariant trace == SearchTrace(nodes, links, source, pred, order, nv)
      invariant Unscanned(pred, order, nv)
      invariant forall n :: n in q ==> n == Shown(nodes, source, n.id)
      decreases |all| - |pred|, |q|
    {
      var cur := q[0];
      ghost var q0, order0, keys0, trace0 := q, order, pred.Keys, trace;
      q := q[1..];
      trace := trace + [[HighlightNode(cur)]];
      // `getLinksFromNode(cur.id)` is the list of links at these indices (`IndicesSelect`).
      var out := Indices(links, Leaving, cur.id);
      Enter(links, pred, rank, s, order, nv, all, q0, out);
      var found, steps;
      assert q0[0] in q0;
      pred, rank, order, found, steps := ScanLinks(nodes, links, source, cur, pred, rank, order, nv, all, out);
      Advance(links, s, q0, order0, nv, all, out, keys0, pred, rank, order, found);
      q, trace := q + found, trace + steps;
      assert trace == SearchTrace(nodes, links, source, pred, order, nv + 1) by {
        assert trace == trace0 + [[HighlightNode(Shown(nodes, source, order[nv]))]] + steps;
      }
      forall n | n in q ensures n == Shown(nodes, source, n.id) {
        if n !in found {
          assert n in q0;
        }
      }
      nv := nv + 1;
    }
    Finish(links, pred, rank, s, order, all);
  }

  /** Entering the scan of the next queued node. */
  lemma {:induction false} Enter(links: seq<FlowLink>, pred: map<NodeId, Arc<nat>>, rank: map<NodeId, nat>, s: NodeId,
              order: seq<NodeId>, nv: nat, all: set<NodeId>, q: seq<Node>, out: seq<nat>)
    requires Between(links, pred, rank, s, order, nv, all) && |q| > 0 && Ids(q) == order[nv..]
    ensures nv < |order| && q[0].id == order[nv]
    ensures Scanning(links, pred, rank, s, order, nv, all, out, 0)
  {
    assert Ids(q)[0] == q[0].id;
  }

  /**
   * Leaving the scan of a node: it is scanned, the queue holds the rest of the order, and
   * either more nodes have a `pred` entry or the queue got shorter.
   */
  lemma {:induction false} Advance(links: seq<FlowLink>, s: NodeId, q0: seq<Node>, order0: seq<NodeId>, nv: nat, all: set<NodeId>,
                out: seq<nat>, keys0: set<NodeId>, pred: map<NodeId, Arc<nat>>, rank: map<NodeId, nat>,
                order: seq<NodeId>, found: seq<Node>)
    requires |q0| > 0 && nv < |order0| && Ids(q0) == order0[nv..] && order == order0 + Ids(found)
    requires out == Indices(links, Leaving, order0[nv]) && Scanning(links, pred, rank, s, order, nv, all, out, |out|)
    requires keys0 <= pred.Keys && |pred| == |keys0| + |found|
    ensures Between(links, pred, rank, s, order, nv + 1, all)
    ensures Ids(q0[1..] + found) == order[nv + 1..]
    ensures |pred| <= |all| && (|pred| > |keys0| || found == [])
  {
    QueueStep(q0, order0, nv, found, order);
    Leave(links, pred, rank, s, order, nv, all, out);
    SubsetCard(pred.Keys, all);
  }

  /** With every queued node scanned, the search is done. */
  lemma {:induction false} Finish(links: seq<FlowLink>, pred: map<NodeId, Arc<nat>>, rank: map<NodeId, nat>, s: NodeId,
               order: seq<NodeId>, all: set<NodeId>)
    requires Between(links, pred, rank, s, order, |order|, all)
    ensures Searched(links, pred, rank, s, order)
  {
    forall x | Reached(pred, s, x) ensures Scanned(links, pred, rank, s, x) {
      var i :| 0 <= i < |order| && order[i] == x;
    }
  }

  /**
   * The scan of one dequeued node's links (lines 57-70): each link, in order, that leads to
   * a node without a `pred` entry other than the source and has room for more flow is
   * highlighted with its target node, filed in `pred`, and the target node is queued.
   * Returns the queued nodes and the highlights, and covers every link scanned.
   */
  method ScanLinks(nodes: seq<Node>, links: seq<FlowLink>, source: Node, cur: Node, pred0: map<NodeId, Arc<nat>>, ghost rank0: map<NodeId, nat>,
                   ghost order0: seq<NodeId>, ghost nv: nat, ghost all: set<NodeId>, out: seq<nat>)
    returns (pred: map<NodeId, Arc<nat>>, ghost rank: map<NodeId, nat>, ghost order: seq<NodeId>,
             found: seq<Node>, steps: seq<seq<Visualisation>>)
    requires AllKnown(Ids(nodes), links) && all == ToSet(Ids(nodes))
    requires nv < |order0| && cur.id == order0[nv] && out == Indices(links, Leaving, cur.id)
    requires Scanning(links, pred0, rank0, source.id, order0, nv, all, out, 0)
    requires Unscanned(pred0, order0, nv)
    ensures Scanning(links, pred, rank, source.id, order, nv, all, out, |out|)
    ensures pred0.Keys <= pred.Keys && |pred| == |pred0| + |found| && |steps| == |found|
    ensures order == order0 + Ids(found)
    ensures forall n :: n in found ==> n == Shown(nodes, source, n.id)
    ensures Unscanned(pred, order, nv + 1)
    ensures SearchTrace(nodes, links, source, pred, order, nv) == SearchTrace(nodes, links, source, pred0, order0, nv)
    ensures steps == Discovered(nodes, links, source, pred, order, cur.id)
  {
    var s := source.id;
    pred, rank, order, found, steps := pred0, rank0, order0, [], [];
    DiscoveredNone(nodes, links, source, pred0, order0, cur.id);
    var j := 0;
    while j < |out|
      invariant Scanning(links, pred, rank, s, order, nv, all, out, j)
      invariant pred0.Keys <= pred.Keys && |pred| == |pred0| + |found| && |steps| == |found|
      invariant order == order0 + Ids(found)
      invariant Yielding(nodes, links, source, cur, pred0, order0, nv, pred, order, found, steps)
    {
      var k := out[j];
      var link := links[k];
      var t := link.target;
      if t !in pred && t != s && link.capacity > link.flow {
        var node := NodeOf(nodes, t);
        var a := Arc(k, cur.id, t);
        ghost var d := Dist(rank, cur.id);
        KnownTarget(nodes, links, k);
        Discover(links, pred, rank, s, order, nv, all, out, j, a, d);
        IdsSnoc(order0, found, node);
        Take(nodes, links, source, cur, pred0, order0, nv, pred, rank, order, found, steps, node, a);
        steps := steps + [[HighlightNode(node), HighlightLink(link)]];
        pred := pred[t := a];
        rank := rank[t := d];
        order := order + [t];
        found := found + [node];
      } else {
        Skip(links, pred, rank, s, order, nv, all, out, j);
      }
      j := j + 1;
    }
  }

  /** What the scan of `cur` has yielded so far, and what the search yielded before it. */
  ghost predicate Yielding(nodes: seq<Node>, links: seq<FlowLink>, source: Node, cur: Node, pred0: map<NodeId, Arc<nat>>,
                           order0: seq<NodeId>, nv: nat, pred: map<NodeId, Arc<nat>>, order: seq<NodeId>,
                           found: seq<Node>, steps: seq<seq<Visualisation>>) {
    && nv < |order0| <= |order|
    && (forall n :: n in found ==> n == Shown(nodes, source, n.id))
    && Unscanned(pred, order, nv + 1)
    && SearchTrace(nodes, links, source, pred, order, nv) == SearchTrace(nodes, links, source, pred0, order0, nv)
    && steps == Discovered(nodes, links, source, pred, order, cur.id)
  }

  /** Taking a link from `cur` to a new node files it, queues it and yields it with the link. */
  lemma {:induction false} Take(nodes: seq<Node>, links: seq<FlowLink>, source: Node, cur: Node, pred0: map<NodeId, Arc<nat>>,
                                order0: seq<NodeId>, nv: nat, pred: map<NodeId, Arc<nat>>, rank: map<NodeId, nat>,
                                order: seq<NodeId>, found: seq<Node>, steps: seq<seq<Visualisation>>, node: Node, a: Arc<nat>)
    requires Forest(pred, rank, source.id) && Enqueued(pred, source.id, order)
    requires Yielding(nodes, links, source, cur, pred0, order0, nv, pred, order, found, steps)
    requires order[nv] == cur.id && a.from == cur.id && a.key < |links|
    requires a.to !in pred && a.to != source.id
    requires NodeById(nodes, a.to) == Some(node) && node.id == a.to
    ensures Yielding(nodes, links, source, cur, pred0, order0, nv, pred[a.to := a], order + [a.to], found + [node],
                     steps + [[HighlightNode(node), HighlightLink(links[a.key])]])
  {
    FileFound(nodes, links, source, pred, rank, order, nv, a);
    assert node == Shown(nodes, source, a.to);
  }

  /** Filing a node found from `order[nv]` keeps what the search has yielded, and adds it to what `order[nv]` yields. */
  lemma {:induction false} FileFound(nodes: seq<Node>, links: seq<FlowLink>, source: Node, pred: map<NodeId, Arc<nat>>,
                                     rank: map<NodeId, nat>, order: seq<NodeId>, nv: nat, a: Arc<nat>)
    requires Forest(pred, rank, source.id) && Enqueued(pred, source.id, order)
    requires nv < |order| && a.from == order[nv] && a.to !in pred && a.to != source.id
    requires Unscanned(pred, order, nv + 1)
    ensures Unscanned(pred[a.to := a], order + [a.to], nv + 1)
    ensures SearchTrace(nodes, links, source, pred[a.to := a], order + [a.to], nv)
         == SearchTrace(nodes, links, source, pred, order, nv)
    ensures Discovered(nodes, links, source, pred[a.to := a], order + [a.to], a.from)
         == Discovered(nodes, links, source, pred, order, a.from)
            + (if a.key < |links| then [[HighlightNode(Shown(nodes, source, a.to)), HighlightLink(links[a.key])]] else [])
  {
    assert a.to !in order;
    assert Distinct(order + [a.to]) by {
      forall x, y | 0 <= x < y < |order| + 1 ensures (order + [a.to])[x] != (order + [a.to])[y] {
        if y == |order| {
          assert order[x] in order;
        }
      }
    }
    forall c | c in pred ensures pred[c].from in order {
      assert Reached(pred, source.id, pred[c].from);
    }
    UnscannedGrows(pred, source.id, order, nv, a);
    SearchTraceGrows(nodes, links, source, pred, order, nv, a);
    DiscoveredGrows(nodes, links, source, pred, order, a.from, a);
  }

  /** Taking the head off the queue and queueing the nodes found keeps the queue the unscanned tail of `order`. */
  lemma {:induction false} QueueStep(q: seq<Node>, order0: seq<NodeId>, nv: nat, found: seq<Node>, order: seq<NodeId>)
    requires |q| > 0 && nv <= |order0| && Ids(q) == order0[nv..] && order == order0 + Ids(found)
    ensures Ids(q[1..] + found) == order[nv + 1..]
  {
    assert Ids(q[1..]) == Ids(q)[1..];
    assert Ids(q[1..] + found) == Ids(q[1..]) + Ids(found);
  }

  lemma {:induction false} IdsSnoc(order0: seq<NodeId>, found: seq<Node>, node: Node)
    ensures order0 + Ids(found + [node]) == order0 + Ids(found) + [node.id]
  {
    assert Ids(found + [node]) == Ids(found) + [node.id];
  }

  /** The node `getNode` finds for an id some node has: the first node with that id. */
  method NodeOf(nodes: seq<Node>, id: NodeId) returns (node: Node)
    requires id in Ids(nodes)
    ensures NodeById(nodes, id) == Some(node)
    ensures node in nodes && node.id == id
  {
    var i :| 0 <= i < |nodes| && Ids(nodes)[i] == id;
    assert nodes[i].id == id;
    node := NodeById(nodes, id).value;
  }

  /** The target of a link whose endpoints are known is among the node ids. */
  lemma {:induction false} KnownTarget(nodes: seq<Node>, links: seq<FlowLink>, k: nat)
    requires AllKnown(Ids(nodes), links) && k < |links|
    ensures links[k].target in ToSet(Ids(nodes))
  {
    assert Known(Ids(nodes), links[k]);
  }

  /** A link into a node already reached, or without room, is covered as it stands. */
  lemma {:induction false} Skip(links: seq<FlowLink>, pred: map<NodeId, Arc<nat>>, rank: map<NodeId, nat>, s: NodeId,
             order: seq<NodeId>, nv: nat, all: set<NodeId>, out: seq<nat>, j: nat)
    requires Scanning(links, pred, rank, s, order, nv, all, out, j) && j < |out| && out[j] < |links|
    requires var l := links[out[j]]; !(l.target !in pred && l.target != s && l.capacity > l.flow)
    ensures Scanning(links, pred, rank, s, order, nv, all, out, j + 1)
  {
    if Residual(links[out[j]]) > 0 {
      assert links[out[j]].target in order;
    }
  }

  /** Once every link leaving the node has been looked at, it is scanned. */
  lemma {:induction false} Leave(links: seq<FlowLink>, pred: map<NodeId, Arc<nat>>, rank: map<NodeId, nat>, s: NodeId,
              order: seq<NodeId>, nv: nat, all: set<NodeId>, out: seq<nat>)
    requires nv < |order| && out == Indices(links, Leaving, order[nv]) && Scanning(links, pred, rank, s, order, nv, all, out, |out|)
    ensures Between(links, pred, rank, s, order, nv + 1, all)
  {
    var u := order[nv];
    assert Scanned(links, pred, rank, s, u) by {
      forall k | 0 <= k < |links| && links[k].source == u ensures Covered(links, pred, rank, s, u, k) {
        IndicesComplete(links, Leaving, u, k);
        var m :| 0 <= m < |out| && out[m] == k;
      }
    }
    if nv + 1 < |order| {
      assert Dist(rank, order[nv]) <= Dist(rank, order[nv + 1]);
    }
  }

  /** A node the search files under `pred` keeps every search invariant. */
  lemma {:induction false} Discover(links: seq<FlowLink>, pred: map<NodeId, Arc<nat>>, rank: map<NodeId, nat>, s: NodeId,
                 order: seq<NodeId>, nv: nat, all: set<NodeId>, out: seq<nat>, j: nat, a: Arc<nat>, d: nat)
    requires Scanning(links, pred, rank, s, order, nv, all, out, j) && j < |out| && out[j] < |links|
    requires a == Arc(out[j], order[nv], links[out[j]].target) && d == Dist(rank, order[nv])
    requires links[out[j]].source == order[nv] && Residual(links[out[j]]) > 0
    requires a.to !in pred && a.to != s && a.to in all
    ensures Scanning(links, pred[a.to := a], rank[a.to := d], s, order + [a.to], nv, all, out, j + 1)
  {
    var t, u := a.to, order[nv];
    var pred', rank', order' := pred[t := a], rank[t := d], order + [t];
    assert u in order;
    ForestExtend(pred, rank, s, a);
    assert rank' == rank[t := if a.from == s then 0 else rank[a.from] + 1];
    Grow(pred, rank, s, t, a, d);
    assert order'[nv] == u;
    assert AllWithin(rank', order', u) by {
      forall x | 0 <= x < |order'| ensures Dist(rank', order'[x]) <= Dist(rank', u) + 1 {
        if x < |order| {
          assert order'[x] == order[x] && order[x] in order;
        }
      }
    }
    forall i | 0 <= i < nv ensures Scanned(links, pred', rank', s, order'[i]) {
      assert order'[i] == order[i] && order[i] in order;
      ScannedGrows(links, pred, rank, s, t, a, d, order[i]);
    }
    forall m | 0 <= m <= j ensures Covered(links, pred', rank', s, u, out[m]) {
      if m < j {
        CoveredGrows(links, pred, rank, s, t, a, d, u, out[m]);
      }
    }
    assert Exact(pred', rank') by {
      forall x | x in pred' ensures x in rank' && rank'[x] == Dist(rank', pred'[x].from) {
        if x != t {
          assert Reached(pred, s, pred[x].from);
        }
      }
    }
    assert Layered(rank', order') by {
      forall x, y | 0 <= x < y < |order'| ensures Dist(rank', order'[x]) <= Dist(rank', order'[y]) {
        assert order[x] in order;
        if y < |order| {
          assert order'[y] == order[y] && order[y] in order;
        }
      }
    }
    assert Enqueued(pred', s, order') by {
      assert t !in order;
      forall x, y | 0 <= x < y < |order'| ensures order'[x] != order'[y] {
        if y == |order| {
          assert order[x] in order;
        }
      }
    }
  }

  /** Filing a new node leaves every reached node reached, at the same distance. */
  lemma {:induction false} Grow(pred: map<NodeId, Arc<nat>>, rank: map<NodeId, nat>, s: NodeId, t: NodeId, a: Arc<nat>, d: nat)
    requires pred.Keys == rank.Keys && t !in pred && t != s
    ensures forall x :: Reached(pred, s, x) ==>
      Reached(pred[t := a], s, x) && Dist(rank[t := d], x) == Dist(rank, x)
  {
  }

  lemma {:induction false} CoveredGrows(links: seq<FlowLink>, pred: map<NodeId, Arc<nat>>, rank: map<NodeId, nat>, s: NodeId,
                     t: NodeId, a: Arc<nat>, d: nat, u: NodeId, k: nat)
    requires pred.Keys == rank.Keys && t !in pred && t != s && Reached(pred, s, u) && k < |links|
    requires Covered(links, pred, rank, s, u, k)
    ensures Covered(links, pred[t := a], rank[t := d], s, u, k)
  {
    Grow(pred, rank, s, t, a, d);
  }

  lemma {:induction false} ScannedGrows(links: seq<FlowLink>, pred: map<NodeId, Arc<nat>>, rank: map<NodeId, nat>, s: NodeId,
                     t: NodeId, a: Arc<nat>, d: nat, u: NodeId)
    requires pred.Keys == rank.Keys && t !in pred && t != s && Reached(pred, s, u)
    requires Scanned(links, pred, rank, s, u)
    ensures Scanned(links, pred[t := a], rank[t := d], s, u)
  {
    forall k | 0 <= k < |links| && links[k].source == u ensures Covered(links, pred[t := a], rank[t := d], s, u, k) {
      CoveredGrows(links, pred, rank, s, t, a, d, u, k);
    }
  }

  /** A subset is no larger than its superset. */
  lemma {:induction false} SubsetCard(a: set<NodeId>, b: set<NodeId>)
    requires a <= b
    ensures |a| <= |b|
    decreases a
  {
    if a != {} {
      var x :| x in a;
      SubsetCard(a - {x}, b - {x});
    }
  }

  // ----- What the search result means -----

  /**
   * Every node a walk over links with room reaches from a reached node is reached, and at
   * most as many links further away as the walk is long.
   */
  lemma {:induction false} WalkStaysReached(links: seq<FlowLink>, pred: map<NodeId, Arc<nat>>, rank: map<NodeId, nat>, s: NodeId,
                                            order: seq<NodeId>, ks: seq<nat>, u: NodeId, x: NodeId)
    requires Searched(links, pred, rank, s, order)
    requires Reached(pred, s, u) && Walk(links, ks, u, x)
    ensures Reached(pred, s, x) && Dist(rank, x) <= Dist(rank, u) + |ks|
    decreases |ks|
  {
    if ks != [] {
      var v := links[ks[0]].target;
      assert Scanned(links, pred, rank, s, u);
      assert Covered(links, pred, rank, s, u, ks[0]);
      WalkStaysReached(links, pred, rank, s, order, ks[1..], v, x);
    }
  }

  /** Following `pred` back from a reached node takes exactly as many links as its distance. */
  lemma {:induction false} PathLength(pred: map<NodeId, Arc<nat>>, rank: map<NodeId, nat>, s: NodeId, t: NodeId)
    requires Forest(pred, rank, s) && Exact(pred, rank)
    ensures |PathFrom(pred, rank, s, t)| == Dist(rank, t)
    decreases if t in rank then rank[t] + 1 else 0
  {
    if t in pred {
      PathLength(pred, rank, s, pred[t].from);
    }
  }

  /** The indices of a path's links, in walking order: the reverse of the order `pred` yields them. */
  function Forward(path: seq<Arc<nat>>): (ks: seq<nat>)
    ensures |ks| == |path|
    ensures forall i :: 0 <= i < |path| ==> ks[i] == path[|path| - 1 - i].key
  {
    if path == [] then [] else Forward(path[1..]) + [path[0].key]
  }

  /** A walk extended by one link with room that leaves its end. */
  lemma {:induction false} WalkSnoc(links: seq<FlowLink>, ks: seq<nat>, u: NodeId, v: NodeId, k: nat)
    requires Walk(links, ks, u, v)
    requires k < |links| && links[k].source == v && Residual(links[k]) > 0
    ensures Walk(links, ks + [k], u, links[k].target)
    decreases |ks|
  {
    if ks == [] {
      assert Walk(links, [k][1..], links[k].target, links[k].target);
    } else {
      WalkSnoc(links, ks[1..], links[ks[0]].target, v, k);
      assert (ks + [k])[1..] == ks[1..] + [k];
    }
  }

  /** The links met following `pred` back from a reached node, taken forwards, are a walk with room from the source. */
  lemma {:induction false} PathIsWalk(links: seq<FlowLink>, pred: map<NodeId, Arc<nat>>, rank: map<NodeId, nat>, s: NodeId, t: NodeId)
    requires Forest(pred, rank, s) && Arcs(links, pred) && Reached(pred, s, t)
    ensures Walk(links, Forward(PathFrom(pred, rank, s, t)), s, t)
    decreases if t in rank then rank[t] + 1 else 0
  {
    if t in pred {
      var a := pred[t];
      var path := PathFrom(pred, rank, s, t);
      assert path == [a] + PathFrom(pred, rank, s, a.from);
      assert path[1..] == PathFrom(pred, rank, s, a.from);
      PathIsWalk(links, pred, rank, s, a.from);
      WalkSnoc(links, Forward(path[1..]), s, a.from, a.key);
    }
  }

  /**
   * Breadth-first search finds a shortest augmenting path: a node any walk with room from
   * the source reaches is reached, and the path `pred` gives to it is a walk with room
   * and no longer than any other.
   */
  lemma {:induction false} ShortestAugmentingPath(links: seq<FlowLink>, pred: map<NodeId, Arc<nat>>, rank: map<NodeId, nat>, s: NodeId,
                               order: seq<NodeId>, t: NodeId, ks: seq<nat>)
    requires Searched(links, pred, rank, s, order)
    requires Walk(links, ks, s, t)
    ensures Reached(pred, s, t)
    ensures Walk(links, Forward(PathFrom(pred, rank, s, t)), s, t)
    ensures |PathFrom(pred, rank, s, t)| <= |ks|
  {
    WalkStaysReached(links, pred, rank, s, order, ks, s, t);
    PathLength(pred, rank, s, t);
    PathIsWalk(links, pred, rank, s, t);
  }

  /** When the search leaves the sink unreached, no walk with room leads from the source to it. */
  lemma {:induction false} NoAugmentingPath(links: seq<FlowLink>, pred: map<NodeId, Arc<nat>>, rank: map<NodeId, nat>, s: NodeId,
                         order: seq<NodeId>, t: NodeId)
    requires Searched(links, pred, rank, s, order)
    requires t != s && t !in pred
    ensures forall ks :: !Walk(links, ks, s, t)
  {
    forall ks | Walk(links, ks, s, t) ensures false {
      WalkStaysReached(links, pred, rank, s, order, ks, s, t);
    }
  }

  // ----- Augmenting in place -----

  predicate KeysBelow(path: seq<Arc<nat>>, n: nat) {
    forall i :: 0 <= i < |path| ==> path[i].key < n
  }

  /** The links with `d` added to the flow of the one at index `k` (`link.flow = link.flow + d`). */
  function Raise(links: seq<FlowLink>, k: nat, d: int): (r: seq<FlowLink>)
    requires k < |links|
    ensures |r| == |links| && r[k] == links[k].(flow := links[k].flow + d)
    ensures forall i :: 0 <= i < |links| && i != k ==> r[i] == links[i]
  {
    links[k := links[k].(flow := links[k].flow + d)]
  }

  /**
   * The links after the augmentation loop (lines 81-92) walks `path`, and what it yields:
   * each path link gains `df` and is highlighted, then the first link back from its target
   * to its source loses `df` and is highlighted. The flag is false when some path link has
   * no link back: the source then throws right after highlighting that link.
   */
  function AugmentAlong(links: seq<FlowLink>, path: seq<Arc<nat>>, df: int): (r: (seq<FlowLink>, bool, seq<seq<Visualisation>>))
    requires KeysBelow(path, |links|)
    ensures |r.0| == |links|
    decreases |path|
  {
    if path == [] then (links, true, [])
    else
      var k := path[0].key;
      var raised := Raise(links, k, df);
      match FindLink(links, links[k].target, links[k].source)
      case None => (raised, false, [[HighlightLink(raised[k])]])
      case Some(b) =>
        var lowered := Raise(raised, b, -df);
        var rest := AugmentAlong(lowered, path[1..], df);
        (rest.0, rest.1, [[HighlightLink(raised[k])], [HighlightLink(lowered[b])]] + rest.2)
  }

  /** One turn of the augmentation loop, as `AugmentAlong` takes it. */
  lemma {:induction false} AugmentStep(links: seq<FlowLink>, path: seq<Arc<nat>>, df: int)
    requires KeysBelow(path, |links|) && path != []
    ensures var k := path[0].key;
      var raised := Raise(links, k, df);
      var back := FindLink(links, links[k].target, links[k].source);
      && (back.None? ==> AugmentAlong(links, path, df) == (raised, false, [[HighlightLink(raised[k])]]))
      && (back.Some? ==>
            var lowered := Raise(raised, back.value, -df);
            var rest := AugmentAlong(lowered, path[1..], df);
            && KeysBelow(path[1..], |lowered|)
            && AugmentAlong(links, path, df)
               == (rest.0, rest.1, [[HighlightLink(raised[k])], [HighlightLink(lowered[back.value])]] + rest.2))
  {
  }

  /**
   * An augmentation yields one link at a time, two for every path link exactly when it
   * completes, and an odd number when it stops at a path link without a link back.
   */
  lemma {:induction false} AugmentTraceLength(links: seq<FlowLink>, path: seq<Arc<nat>>, df: int)
    requires KeysBelow(path, |links|)
    ensures var r := AugmentAlong(links, path, df);
      && |r.2| <= 2 * |path|
      && (r.1 <==> |r.2| == 2 * |path|)
      && (!r.1 ==> |r.2| % 2 == 1)
      && (forall i :: 0 <= i < |r.2| ==> OneLink(r.2[i]))
    decreases |path|
  {
    if path != [] {
      AugmentStep(links, path, df);
      var k := path[0].key;
      var back := FindLink(links, links[k].target, links[k].source);
      if back.Some? {
        AugmentTraceLength(Raise(Raise(links, k, df), back.value, -df), path[1..], df);
      }
    }
  }

  /**
   * The `2i`-th yield highlights the `i`-th path link, and the one after it a link running
   * back between the same two nodes.
   */
  ghost predicate AlongPath(trace: seq<seq<Visualisation>>, links: seq<FlowLink>, path: seq<Arc<nat>>)
    requires KeysBelow(path, |links|)
  {
    && (forall i :: 0 <= i < |path| && 2 * i < |trace| ==>
          && OneLink(trace[2 * i])
          && trace[2 * i][0].link.source == links[path[i].key].source
          && trace[2 * i][0].link.target == links[path[i].key].target)
    && (forall i :: 0 <= i < |path| && 2 * i + 1 < |trace| ==>
          && OneLink(trace[2 * i + 1])
          && trace[2 * i + 1][0].link.source == links[path[i].key].target
          && trace[2 * i + 1][0].link.target == links[path[i].key].source)
  }

  /** Yielding the first path link and its link back in front keeps the yields along the path. */
  lemma {:induction false} AlongPathCons(links: seq<FlowLink>, other: seq<FlowLink>, path: seq<Arc<nat>>,
                                         x: seq<Visualisation>, y: seq<Visualisation>, trace: seq<seq<Visualisation>>)
    requires KeysBelow(path, |links|) && path != [] && SameEnds(links, other)
    requires OneLink(x) && x[0].link.source == links[path[0].key].source && x[0].link.target == links[path[0].key].target
    requires OneLink(y) && y[0].link.source == links[path[0].key].target && y[0].link.target == links[path[0].key].source
    requires KeysBelow(path[1..], |other|) && AlongPath(trace, other, path[1..])
    ensures AlongPath([x, y] + trace, links, path)
  {
    var t := [x, y] + trace;
    forall i | 0 <= i < |path| && 2 * i < |t| ensures
      && OneLink(t[2 * i])
      && t[2 * i][0].link.source == links[path[i].key].source
      && t[2 * i][0].link.target == links[path[i].key].target
    {
      if i > 0 {
        assert path[1..][i - 1] == path[i] && t[2 * i] == trace[2 * (i - 1)];
      }
    }
    forall i | 0 <= i < |path| && 2 * i + 1 < |t| ensures
      && OneLink(t[2 * i + 1])
      && t[2 * i + 1][0].link.source == links[path[i].key].target
      && t[2 * i + 1][0].link.target == links[path[i].key].source
    {
      if i > 0 {
        assert path[1..][i - 1] == path[i] && t[2 * i + 1] == trace[2 * (i - 1) + 1];
      }
    }
  }

  /** What an augmentation yields runs along the path: each path link, then a link back. */
  lemma {:induction false} AugmentTraceLinks(links: seq<FlowLink>, path: seq<Arc<nat>>, df: int)
    requires KeysBelow(path, |links|)
    ensures AlongPath(AugmentAlong(links, path, df).2, links, path)
    decreases |path|
  {
    if path != [] {
      AugmentStep(links, path, df);
      var k := path[0].key;
      var raised := Raise(links, k, df);
      match FindLink(links, links[k].target, links[k].source)
      case None =>
      case Some(b) =>
        var lowered := Raise(raised, b, -df);
        AugmentTraceLinks(lowered, path[1..], df);
        assert SameEnds(links, lowered);
        AlongPathCons(links, lowered, path, [HighlightLink(raised[k])], [HighlightLink(lowered[b])],
                      AugmentAlong(lowered, path[1..], df).2);
    }
  }

  /** A yield that is a single link highlight. */
  predicate OneLink(v: seq<Visualisation>) {
    |v| == 1 && v[0].HighlightLink?
  }

  /** The same links, up to their flows. */
  predicate SameEnds(a: seq<FlowLink>, b: seq<FlowLink>) {
    && |a| == |b|
    && forall i :: 0 <= i < |a| ==>
         a[i].source == b[i].source && a[i].target == b[i].target && a[i].capacity == b[i].capacity
  }

  /** No link carries more flow than its capacity. */
  predicate FlowWithin(links: seq<FlowLink>) {
    forall i :: 0 <= i < |links| ==> links[i].flow <= links[i].capacity
  }

  /** Augmenting changes only flows. */
  lemma {:induction false} AugmentKeepsEnds(links: seq<FlowLink>, path: seq<Arc<nat>>, df: int)
    requires KeysBelow(path, |links|)
    ensures SameEnds(links, AugmentAlong(links, path, df).0)
    decreases |path|
  {
    if path != [] {
      var k := path[0].key;
      var raised := Raise(links, k, df);
      match FindLink(links, links[k].target, links[k].source)
      case None =>
      case Some(b) =>
        var lowered := Raise(raised, b, -df);
        assert SameEnds(links, lowered);
        AugmentKeepsEnds(lowered, path[1..], df);
    }
  }

  /** A store with the same links up to flows knows the same endpoints. */
  lemma {:induction false} SameEndsKnown(ids: seq<NodeId>, a: seq<FlowLink>, b: seq<FlowLink>)
    requires SameEnds(a, b) && AllKnown(ids, a)
    ensures AllKnown(ids, b)
  {
    forall i | 0 <= i < |b| ensures Known(ids, b[i]) {
      assert Known(ids, a[i]);
    }
  }

  /** No link appears twice on the path. */
  predicate DistinctKeys(path: seq<Arc<nat>>) {
    forall m, n :: 0 <= m < n < |path| ==> path[m].key != path[n].key
  }

  /** Every flow is within its capacity, and each link on the path has room for `df` more. */
  predicate Room(links: seq<FlowLink>, path: seq<Arc<nat>>, df: int) {
    && FlowWithin(links)
    && forall m :: 0 <= m < |path| ==> path[m].key < |links| && links[path[m].key].flow + df <= links[path[m].key].capacity
  }

  /**
   * With `df` no larger than the room on any path link, and no link twice on the path,
   * augmenting keeps every flow within its capacity.
   */
  lemma {:induction false} AugmentWithin(links: seq<FlowLink>, path: seq<Arc<nat>>, df: int)
    requires KeysBelow(path, |links|) && df >= 0
    requires DistinctKeys(path) && Room(links, path, df)
    ensures FlowWithin(AugmentAlong(links, path, df).0)
    decreases |path|
  {
    if path != [] {
      var k := path[0].key;
      var raised := Raise(links, k, df);
      RaiseRoom(links, path, df);
      match FindLink(links, links[k].target, links[k].source)
      case None =>
      case Some(b) =>
        var lowered := Raise(raised, b, -df);
        LowerRoom(raised, path[1..], df, b);
        AugmentWithin(lowered, path[1..], df);
    }
  }

  /** Raising the first path link by `df` leaves room for the rest of the path. */
  lemma {:induction false} RaiseRoom(links: seq<FlowLink>, path: seq<Arc<nat>>, df: int)
    requires |path| > 0 && DistinctKeys(path) && Room(links, path, df)
    ensures Room(Raise(links, path[0].key, df), path[1..], df) && DistinctKeys(path[1..])
  {
    var raised := Raise(links, path[0].key, df);
    forall m | 0 <= m < |path| - 1
      ensures path[1..][m].key < |raised| && raised[path[1..][m].key].flow + df <= raised[path[1..][m].key].capacity
    {
      assert path[1..][m] == path[m + 1];
    }
  }

  /** Lowering a flow keeps all room there was. */
  lemma {:induction false} LowerRoom(links: seq<FlowLink>, path: seq<Arc<nat>>, df: int, b: nat)
    requires b < |links| && df >= 0 && Room(links, path, df)
    ensures Room(Raise(links, b, -df), path, df)
  {
  }

  // ----- The flow out of the source -----

  /** The total flow on the links leaving `s`. */
  function OutValue(links: seq<FlowLink>, s: NodeId): int {
    OutValueUpTo(links, |links|, s)
  }

  /** The total flow on the first `n` links that leave `s`. */
  function OutValueUpTo(links: seq<FlowLink>, n: nat, s: NodeId): int
    requires n <= |links|
  {
    if n == 0 then 0
    else OutValueUpTo(links, n - 1, s) + (if links[n - 1].source == s then links[n - 1].flow else 0)
  }

  /** Raising one link's flow by `d` raises the flow out of `s` by `d` if the link leaves `s`. */
  lemma {:induction false} OutValueRaise(links: seq<FlowLink>, k: nat, d: int, s: NodeId)
    requires k < |links|
    ensures OutValue(Raise(links, k, d), s) == OutValue(links, s) + (if links[k].source == s then d else 0)
  {
    OutValueRaiseUpTo(links, k, d, s, |links|);
  }

  lemma {:induction false} OutValueRaiseUpTo(links: seq<FlowLink>, k: nat, d: int, s: NodeId, n: nat)
    requires k < |links| && n <= |links|
    ensures OutValueUpTo(Raise(links, k, d), n, s)
         == OutValueUpTo(links, n, s) + (if k < n && links[k].source == s then d else 0)
  {
    if n > 0 {
      OutValueRaiseUpTo(links, k, d, s, n - 1);
    }
  }

  /**
   * What augmenting along `path` by `df` adds to the flow out of `s`: `df` for each arc
   * leaving `s`, less `df` for each arc entering it (whose link back leaves `s`).
   */
  function Gain(path: seq<Arc<nat>>, s: NodeId, df: int): int
    decreases |path|
  {
    if path == [] then 0
    else (if path[0].from == s then df else 0) - (if path[0].to == s then df else 0) + Gain(path[1..], s, df)
  }

  /** Every arc of `path` is the link it names, with the same endpoints. */
  predicate ArcsMatch(links: seq<FlowLink>, path: seq<Arc<nat>>) {
    forall i :: 0 <= i < |path| ==>
      path[i].key < |links| && links[path[i].key].source == path[i].from && links[path[i].key].target == path[i].to
  }

  /** Arcs that match some links match any links with the same ends. */
  lemma {:induction false} ArcsMatchTail(links: seq<FlowLink>, other: seq<FlowLink>, path: seq<Arc<nat>>)
    requires |path| > 0 && SameEnds(links, other) && ArcsMatch(links, path)
    ensures ArcsMatch(other, path[1..])
  {
    forall i | 0 <= i < |path| - 1
      ensures path[1..][i].key < |other| && other[path[1..][i].key].source == path[1..][i].from
        && other[path[1..][i].key].target == path[1..][i].to
    {
      assert path[1..][i] == path[i + 1];
    }
  }

  /** A completed augmentation changes the flow out of `s` by the path's gain. */
  lemma {:induction false} AugmentOutValue(links: seq<FlowLink>, path: seq<Arc<nat>>, df: int, s: NodeId)
    requires KeysBelow(path, |links|) && ArcsMatch(links, path)
    requires AugmentAlong(links, path, df).1
    ensures OutValue(AugmentAlong(links, path, df).0, s) == OutValue(links, s) + Gain(path, s, df)
    decreases |path|
  {
    if path != [] {
      var k := path[0].key;
      var b := FindLink(links, links[k].target, links[k].source).value;
      var lowered := Raise(Raise(links, k, df), b, -df);
      StepOutValue(links, path, df, s, b);
      ArcsMatchTail(links, lowered, path);
      AugmentOutValue(lowered, path[1..], df, s);
    }
  }

  /** One step of the augmentation: the path link gains `df` and its link back `b` loses it. */
  lemma {:induction false} StepOutValue(links: seq<FlowLink>, path: seq<Arc<nat>>, df: int, s: NodeId, b: nat)
    requires |path| > 0 && ArcsMatch(links, path) && b < |links|
    requires links[b].source == links[path[0].key].target
    ensures var lowered := Raise(Raise(links, path[0].key, df), b, -df);
      && SameEnds(links, lowered)
      && OutValue(lowered, s) == OutValue(links, s) + (if path[0].from == s then df else 0) - (if path[0].to == s then df else 0)
  {
    var raised := Raise(links, path[0].key, df);
    OutValueRaise(links, path[0].key, df, s);
    OutValueRaise(raised, b, -df, s);
  }

  /**
   * A path `pred` yields leaves the source once, by its last arc, and never enters it: its
   * gain at the source is `df`.
   */
  lemma {:induction false} PathGain(pred: map<NodeId, Arc<nat>>, rank: map<NodeId, nat>, s: NodeId, t: NodeId, df: int)
    requires Forest(pred, rank, s) && t in pred
    ensures Gain(PathFrom(pred, rank, s, t), s, df) == df
    decreases rank[t]
  {
    var a := pred[t];
    var path := PathFrom(pred, rank, s, t);
    assert path[1..] == PathFrom(pred, rank, s, a.from);
    if a.from == s {
      assert path[1..] == [];
    } else {
      PathGain(pred, rank, s, a.from, df);
    }
  }

  /**
   * The path `pred` yields to a reached node is made of the links it names: their indices
   * are in range, distinct, and each has room for more flow.
   */
  lemma {:induction false} PathArcs(links: seq<FlowLink>, pred: map<NodeId, Arc<nat>>, rank: map<NodeId, nat>, s: NodeId, t: NodeId)
    requires Forest(pred, rank, s) && Arcs(links, pred) && t in pred
    ensures var path := PathFrom(pred, rank, s, t);
      && |path| > 0
      && KeysBelow(path, |links|)
      && ArcsMatch(links, path)
      && DistinctKeys(path)
      && forall i :: 0 <= i < |path| ==> Residual(links[path[i].key]) > 0
  {
    var path := PathFrom(pred, rank, s, t);
    PathReachesRoot(pred, rank, s, t);
    PathIsSimple(pred, rank, s, t);
    forall i | 0 <= i < |path|
      ensures path[i].key < |links| && links[path[i].key].source == path[i].from
        && links[path[i].key].target == path[i].to && Residual(links[path[i].key]) > 0
    {
      assert pred[path[i].to] == path[i];
    }
  }

  /** The walk back along `pred` never reads a link outside the store. */
  lemma {:induction false} PathKeysBelow(pred: map<NodeId, Arc<nat>>, rank: map<NodeId, nat>, s: NodeId, t: NodeId, n: nat)
    requires Forest(pred, rank, s)
    requires forall x {:trigger pred[x]} :: x in pred ==> pred[x].key < n
    ensures KeysBelow(PathFrom(pred, rank, s, t), n)
  {
    var path := PathFrom(pred, rank, s, t);
    if t in pred {
      PathReachesRoot(pred, rank, s, t);
      forall i | 0 <= i < |path| ensures path[i].key < n {
        assert pred[path[i].to] == path[i];
      }
    }
  }

  /**
   * The augmentation loop (lines 81-92): walks `pred` back from the sink, raising each path
   * link's flow by `df` and lowering the flow of the first link back by `df`, each write
   * followed by a highlight; stops with `ok` false where a link has no link back.
   */
  method Augment(graph: FlowGraph, pred: map<NodeId, Arc<nat>>, ghost rank: map<NodeId, nat>, source: NodeId, sink: NodeId, df: int)
    returns (ok: bool, trace: seq<seq<Visualisation>>)
    requires Forest(pred, rank, source)
    requires forall x {:trigger pred[x]} :: x in pred ==> pred[x].key < |graph.links|
    modifies graph
    ensures graph.nodes == old(graph.nodes)
    ensures KeysBelow(PathFrom(pred, rank, source, sink), |old(graph.links)|)
    ensures (graph.links, ok, trace) == AugmentAlong(old(graph.links), PathFrom(pred, rank, source, sink), df)
  {
    PathKeysBelow(pred, rank, source, sink, |graph.links|);
    ghost var goal := AugmentAlong(graph.links, PathFrom(pred, rank, source, sink), df);
    var cur := sink;
    trace := [];
    while cur in pred
      invariant graph.nodes == old(graph.nodes) && |graph.links| == |old(graph.links)|
      invariant KeysBelow(PathFrom(pred, rank, source, cur), |graph.links|)
      invariant Remaining(graph.links, PathFrom(pred, rank, source, cur), df, trace, goal)
      decreases if cur in rank then rank[cur] + 1 else 0
    {
      var a := pred[cur];
      ghost var path, links0 := PathFrom(pred, rank, source, cur), graph.links;
      assert path == [a] + PathFrom(pred, rank, source, a.from);
      assert path[1..] == PathFrom(pred, rank, source, a.from);
      var k := a.key;
      var back := FindLink(graph.links, graph.links[k].target, graph.links[k].source);
      RemainingStep(graph.links, path, df, trace, goal);
      graph.links := Raise(graph.links, k, df);
      trace := trace + [[HighlightLink(graph.links[k])]];
      if back.None? {
        return false, trace;
      }
      var b := back.value;
      graph.links := Raise(graph.links, b, -df);
      trace := trace + [[HighlightLink(graph.links[b])]];
      PathKeysBelow(pred, rank, source, a.from, |graph.links|);
      cur := a.from;
    }
    assert PathFrom(pred, rank, source, cur) == [];
    assert trace + [] == trace;
    ok := true;
  }

  /**
   * Walking the rest of `path` from `links` after yielding `trace` ends as `goal` does: with
   * the same links and flag, having yielded all of `goal`'s trace.
   */
  ghost predicate Remaining(links: seq<FlowLink>, path: seq<Arc<nat>>, df: int, trace: seq<seq<Visualisation>>,
                            goal: (seq<FlowLink>, bool, seq<seq<Visualisation>>))
  {
    KeysBelow(path, |links|) &&
    var r := AugmentAlong(links, path, df);
    r.0 == goal.0 && r.1 == goal.1 && trace + r.2 == goal.2
  }

  /** One turn of the augmentation loop keeps the rest of the walk ending as `goal` does. */
  lemma {:induction false} RemainingStep(links: seq<FlowLink>, path: seq<Arc<nat>>, df: int, trace: seq<seq<Visualisation>>,
                                         goal: (seq<FlowLink>, bool, seq<seq<Visualisation>>))
    requires Remaining(links, path, df, trace, goal) && path != []
    ensures var k := path[0].key;
      var raised := Raise(links, k, df);
      var trace1 := trace + [[HighlightLink(raised[k])]];
      match FindLink(links, links[k].target, links[k].source)
      case None => goal == (raised, false, trace1)
      case Some(b) =>
        var lowered := Raise(raised, b, -df);
        Remaining(lowered, path[1..], df, trace1 + [[HighlightLink(lowered[b])]], goal)
  {
    AugmentStep(links, path, df);
    var k := path[0].key;
    var raised := Raise(links, k, df);
    match FindLink(links, links[k].target, links[k].source)
    case None =>
    case Some(b) =>
      var lowered := Raise(raised, b, -df);
      var rest := AugmentAlong(lowered, path[1..], df);
      assert trace + [[HighlightLink(raised[k])], [HighlightLink(lowered[b])]] + rest.2
          == trace + ([[HighlightLink(raised[k])], [HighlightLink(lowered[b])]] + rest.2);
  }

  /** With every flow within capacity, a bottleneck leaves room for itself on each path link. */
  lemma {:induction false} BottleneckRoom(links: seq<FlowLink>, path: seq<Arc<nat>>, res: nat -> int, df: int)
    requires KeysBelow(path, |links|) && FlowWithin(links)
    requires forall k: nat :: k < |links| ==> res(k) == Residual(links[k])
    requires forall i :: 0 <= i < |path| ==> df <= res(path[i].key)
    ensures Room(links, path, df)
  {
    forall m | 0 <= m < |path| ensures links[path[m].key].flow + df <= links[path[m].key].capacity {
      assert df <= res(path[m].key);
    }
  }

  /**
   * What one augmentation after a search that reached the sink does: the bottleneck is
   * positive, only flows change, flows stay within capacity, and a completed augmentation
   * raises the flow out of the source by exactly the bottleneck.
   */
  lemma {:induction false} AugmentFacts(links: seq<FlowLink>, pred: map<NodeId, Arc<nat>>, rank: map<NodeId, nat>, s: NodeId, t: NodeId,
                     res: nat -> int, df: Option<int>)
    requires Forest(pred, rank, s) && Arcs(links, pred) && t in pred
    requires forall k: nat :: k < |links| ==> res(k) == Residual(links[k])
    requires df == MinAlong(None, PathFrom(pred, rank, s, t), res)
    ensures KeysBelow(PathFrom(pred, rank, s, t), |links|)
    ensures df.Some? && df.value > 0
    ensures SameEnds(links, AugmentAlong(links, PathFrom(pred, rank, s, t), df.value).0)
    ensures FlowWithin(links) ==> FlowWithin(AugmentAlong(links, PathFrom(pred, rank, s, t), df.value).0)
    ensures AugmentAlong(links, PathFrom(pred, rank, s, t), df.value).1 ==>
      OutValue(AugmentAlong(links, PathFrom(pred, rank, s, t), df.value).0, s) == OutValue(links, s) + df.value
  {
    var path := PathFrom(pred, rank, s, t);
    PathArcs(links, pred, rank, s, t);
    assert forall i :: 0 <= i < |path| ==> res(path[i].key) > 0;
    BottleneckPositive(path, res);
    var d := df.value;
    AugmentKeepsEnds(links, path, d);
    if FlowWithin(links) {
      BottleneckBounds(path, res);
      BottleneckRoom(links, path, res, d);
      AugmentWithin(links, path, d);
    }
    if AugmentAlong(links, path, d).1 {
      AugmentOutValue(links, path, d, s);
      PathGain(pred, rank, s, t, d);
    }
  }

  // ----- A whole run -----

  /** The residual capacity of the link at each index, 0 past the end. */
  function ResidualOf(links: seq<FlowLink>): nat -> int {
    (k: nat) => if k < |links| then Residual(links[k]) else 0
  }

  /**
   * One round of the generator: the links it searched, the search's `pred`, distances and
   * queue order, and the bottleneck it augmented by when the sink was reached.
   */
  datatype Round = Round(links: seq<FlowLink>, pred: map<NodeId, Arc<nat>>, rank: map<NodeId, nat>, order: seq<NodeId>, df: int)

  /** The round is a breadth-first search of its links, and `df` is the bottleneck of the path it found. */
  ghost predicate SearchedRound(source: NodeId, sink: NodeId, r: Round) {
    && Searched(r.links, r.pred, r.rank, source, r.order)
    && (sink in r.pred ==> MinAlong(None, PathFrom(r.pred, r.rank, source, sink), ResidualOf(r.links)) == Some(r.df))
  }

  /** The path a round augments along: `pred` walked back from the sink. */
  ghost predicate Augments(source: NodeId, sink: NodeId, r: Round) {
    sink in r.pred && Forest(r.pred, r.rank, source) && KeysBelow(PathFrom(r.pred, r.rank, source, sink), |r.links|)
  }

  /** The links a round leaves, and whether its augmentation completed. */
  ghost function Outcome(source: NodeId, sink: NodeId, r: Round): (seq<FlowLink>, bool) {
    if Augments(source, sink, r) then
      var a := AugmentAlong(r.links, PathFrom(r.pred, r.rank, source, sink), r.df);
      (a.0, a.1)
    else (r.links, true)
  }

  /** What a round yields: its search, then its augmentation if it found a path. */
  ghost function RoundTrace(nodes: seq<Node>, source: Node, sink: NodeId, r: Round): seq<seq<Visualisation>> {
    SearchTrace(nodes, r.links, source, r.pred, r.order, |r.order|)
      + (if Augments(source.id, sink, r) then AugmentAlong(r.links, PathFrom(r.pred, r.rank, source.id, sink), r.df).2 else [])
  }

  /** What the rounds yield, one after another. */
  ghost function RunTrace(nodes: seq<Node>, source: Node, sink: NodeId, rounds: seq<Round>): seq<seq<Visualisation>> {
    if rounds == [] then []
    else RunTrace(nodes, source, sink, rounds[..|rounds| - 1]) + RoundTrace(nodes, source, sink, rounds[|rounds| - 1])
  }

  /**
   * The rounds, each of which found a path and completed its augmentation, lead from
   * `links0` to `links1`: each searches the links the previous one left.
   */
  ghost predicate Played(source: NodeId, sink: NodeId, links0: seq<FlowLink>, rounds: seq<Round>, links1: seq<FlowLink>) {
    if rounds == [] then links1 == links0
    else
      var r := rounds[|rounds| - 1];
      && Played(source, sink, links0, rounds[..|rounds| - 1], r.links)
      && SearchedRound(source, sink, r)
      && sink in r.pred
      && Outcome(source, sink, r) == (links1, true)
  }

  /** Appending a round extends what the rounds yield, and, when it completed, the rounds played. */
  lemma {:induction false} NextRound(nodes: seq<Node>, source: Node, sink: NodeId, links0: seq<FlowLink>, played: seq<Round>, r: Round,
                                     links1: seq<FlowLink>)
    requires Played(source.id, sink, links0, played, r.links) && SearchedRound(source.id, sink, r)
    ensures var rounds := played + [r];
      && rounds[..|rounds| - 1] == played
      && RunTrace(nodes, source, sink, rounds) == RunTrace(nodes, source, sink, played) + RoundTrace(nodes, source, sink, r)
      && (sink in r.pred && Outcome(source.id, sink, r) == (links1, true) ==> Played(source.id, sink, links0, rounds, links1))
  {
    assert (played + [r])[..|played|] == played;
  }

  /**
   * One pass of the outer loop (lines 49-94): a search, then, if it reached the sink, the
   * bottleneck along `pred` and the augmentation by it. What it yields and the links it
   * leaves are those of a round that searched the links it started from.
   */
  method PlayRound(graph: FlowGraph, source: Node, sink: NodeId)
    returns (found: bool, ok: bool, df: int, yielded: seq<seq<Visualisation>>, ghost r: Round)
    requires AllKnown(Ids(graph.nodes), graph.links)
    modifies graph
    ensures graph.nodes == old(graph.nodes) && SameEnds(old(graph.links), graph.links)
    ensures r.links == old(graph.links) && SearchedRound(source.id, sink, r)
    ensures found <==> sink in r.pred
    ensures yielded == RoundTrace(graph.nodes, source, sink, r)
    ensures Outcome(source.id, sink, r) == (graph.links, ok)
    ensures !found ==> ok
    ensures FlowWithin(old(graph.links)) ==> FlowWithin(graph.links)
    ensures found && ok ==> df > 0 && OutValue(graph.links, source.id) == OutValue(old(graph.links), source.id) + df
    ensures !found && source.id != sink ==> forall ks :: !Walk(graph.links, ks, source.id, sink)
  {
    var pred, rank, order, steps := Search(graph.nodes, graph.links, source);
    var links := graph.links;
    found := sink in pred;
    if !found {
      if source.id != sink {
        NoAugmentingPath(links, pred, rank, source.id, order, sink);
      }
      ok, df, yielded, r := true, 0, steps, Round(links, pred, rank, order, 0);
      return;
    }
    var res := ResidualOf(links);
    var bottleneck := Bottleneck(pred, rank, source.id, sink, res);
    AugmentFacts(links, pred, rank, source.id, sink, res, bottleneck);
    df := bottleneck.value;
    var more;
    ok, more := Augment(graph, pred, rank, source.id, sink, df);
    r := Round(links, pred, rank, order, df);
    yielded := steps + more;
  }

  /**
   * The generator run to its end, or for at most `fuel` searches (lines 45-95): repeat a
   * search; if it reached the sink, take the bottleneck along `pred`, augment, and add the
   * bottleneck to the total; stop after a search that leaves the sink unreached.
   *
   * Only flows change; they stay within capacity if they started there; the total is the
   * growth of the flow out of the source; and a finished run leaves no augmenting path.
   */
  method Run(graph: FlowGraph, fuel: nat) returns (flow: int, trace: seq<seq<Visualisation>>, ending: Ending, ghost rounds: seq<Round>)
    requires graph.GetSourceNode().Some? && graph.GetSinkNode().Some?
    requires AllKnown(Ids(graph.nodes), graph.links)
    modifies graph
    ensures var source, t := old(graph.GetSourceNode()).value, old(graph.GetSinkNode()).value.id;
      trace == RunTrace(graph.nodes, source, t, rounds)
    ensures var s, t := old(graph.GetSourceNode()).value.id, old(graph.GetSinkNode()).value.id;
      ending == OutOfFuel ==> |rounds| == fuel && Played(s, t, old(graph.links), rounds, graph.links)
    ensures var s, t := old(graph.GetSourceNode()).value.id, old(graph.GetSinkNode()).value.id;
      ending != OutOfFuel ==>
        && 0 < |rounds| <= fuel
        && var r := rounds[|rounds| - 1];
        && Played(s, t, old(graph.links), rounds[..|rounds| - 1], r.links)
        && SearchedRound(s, t, r)
        && (ending == Finished <==> t !in r.pred)
        && Outcome(s, t, r) == (graph.links, ending == Finished)
    ensures graph.nodes == old(graph.nodes)
    ensures SameEnds(old(graph.links), graph.links)
    ensures flow >= 0
    ensures FlowWithin(old(graph.links)) ==> FlowWithin(graph.links)
    ensures var s := old(graph.GetSourceNode()).value.id;
      ending != MissingReverse ==> flow == OutValue(graph.links, s) - OutValue(old(graph.links), s)
    ensures var s, t := old(graph.GetSourceNode()).value.id, old(graph.GetSinkNode()).value.id;
      ending == Finished && s != t ==> forall ks :: !Walk(graph.links, ks, s, t)
  {
    var source := graph.GetSourceNode().value;
    var sink := graph.GetSinkNode().value;
    flow, trace, rounds := 0, [], [];
    var left := fuel;
    while left > 0
      invariant graph.nodes == old(graph.nodes)
      invariant SameEnds(old(graph.links), graph.links)
      invariant flow >= 0
      invariant FlowWithin(old(graph.links)) ==> FlowWithin(graph.links)
      invariant flow == OutValue(graph.links, source.id) - OutValue(old(graph.links), source.id)
      invariant trace == RunTrace(graph.nodes, source, sink.id, rounds)
      invariant |rounds| == fuel - left && Played(source.id, sink.id, old(graph.links), rounds, graph.links)
      decreases left
    {
      left := left - 1;
      SameEndsKnown(Ids(graph.nodes), old(graph.links), graph.links);
      var found, ok, df, yielded, r := PlayRound(graph, source, sink.id);
      NextRound(graph.nodes, source, sink.id, old(graph.links), rounds, r, graph.links);
      rounds, trace := rounds + [r], trace + yielded;
      if !found {
        return flow, trace, Finished, rounds;
      }
      if !ok {
        return flow, trace, MissingReverse, rounds;
      }
      flow := flow + df;
    }
    ending := OutOfFuel;
  }
}
