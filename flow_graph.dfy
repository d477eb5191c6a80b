/**
 * The list-backed node and link store the Edmonds–Karp driver runs on: nodes and links in
 * insertion order, checks that throw on duplicate ids, unknown endpoints or duplicate
 * source–target keys, and lookups that return the first match.
 */
module FlowGraphs {
  import opened Wrappers
  import opened Seqs

  type NodeId = string

  datatype NodeType = Default | Source | Sink

  /** A node; `title` is optional. */
  datatype Node = Node(id: NodeId, kind: NodeType, title: Option<string>)

  /** A link between two node ids, with its capacity and current flow. */
  datatype FlowLink = FlowLink(source: NodeId, target: NodeId, capacity: int, flow: int)

  /** The ids of the nodes, in order (`nodes.map(node => node.id)`). */
  function Ids(nodes: seq<Node>): (ids: seq<NodeId>)
    ensures |ids| == |nodes| && forall i :: 0 <= i < |nodes| ==> ids[i] == nodes[i].id
  {
    seq(|nodes|, i requires 0 <= i < |nodes| => nodes[i].id)
  }

  /** The key a link is told apart by: its endpoints joined by a dash. */
  function LinkKey(l: FlowLink): string {
    l.source + "-" + l.target
  }

  /** The keys of the links, in order. */
  function Keys(links: seq<FlowLink>): (keys: seq<string>)
    ensures |keys| == |links| && forall i :: 0 <= i < |links| ==> keys[i] == LinkKey(links[i])
  {
    seq(|links|, i requires 0 <= i < |links| => LinkKey(links[i]))
  }

  /** Both endpoints of the link are among the ids. */
  predicate Known(ids: seq<NodeId>, l: FlowLink) {
    l.source in ids && l.target in ids
  }

  /** `assertValidNodes`: fails exactly when two nodes share an id. */
  function AssertValidNodes(nodes: seq<Node>): (r: Outcome)
    ensures r.Pass? <==> forall i, j :: 0 <= i < j < |nodes| ==> nodes[i].id != nodes[j].id
    ensures r.Fail? ==> r.error == "Node ids are not unique"
  {
    var ids := Ids(nodes);
    SetSizeIffDistinct(ids);
    if |ids| != |ToSet(ids)| then Fail("Node ids are not unique") else Pass
  }

  /** Every link's endpoints are among the ids. */
  predicate AllKnown(ids: seq<NodeId>, links: seq<FlowLink>) {
    forall i :: 0 <= i < |links| ==> Known(ids, links[i])
  }

  /** No two links have the same key. */
  predicate UniqueKeys(links: seq<FlowLink>) {
    forall i, j :: 0 <= i < j < |links| ==> LinkKey(links[i]) != LinkKey(links[j])
  }

  /**
   * `assertValidLinks`: fails first when some link has an endpoint that is not a node id,
   * then when two links share a key, and passes otherwise.
   */
  function AssertValidLinks(nodes: seq<Node>, links: seq<FlowLink>): (r: Outcome)
    ensures r.Pass? <==> AllKnown(Ids(nodes), links) && UniqueKeys(links)
    ensures r == Fail("Links contain unknown node ids") <==> !AllKnown(Ids(nodes), links)
    ensures r == Fail("Links are not unique") <==> AllKnown(Ids(nodes), links) && !UniqueKeys(links)
  {
    var ids := Ids(nodes);
    var keys := Keys(links);
    FilterKeepsAll(links, (l: FlowLink) => Known(ids, l));
    SetSizeIffDistinct(keys);
    if |Filter(links, (l: FlowLink) => Known(ids, l))| != |links| then Fail("Links contain unknown node ids")
    else if |keys| != |ToSet(keys)| then Fail("Links are not unique")
    else Pass
  }

  /** The constructor's and `importGraph`'s checks: the nodes first, then the links. */
  function AssertValidGraph(nodes: seq<Node>, links: seq<FlowLink>): (r: Outcome)
    ensures r.Pass? <==> AssertValidNodes(nodes).Pass? && AssertValidLinks(nodes, links).Pass?
    ensures AssertValidNodes(nodes).Fail? ==> r == AssertValidNodes(nodes)
  {
    if AssertValidNodes(nodes).Fail? then AssertValidNodes(nodes) else AssertValidLinks(nodes, links)
  }

  /**
   * Keys tell links apart as long as no id contains a dash: links with the same key then
   * have the same endpoints.
   */
  lemma {:induction false} KeyIdentifiesEndpoints(a: FlowLink, b: FlowLink)
    requires '-' !in a.source && '-' !in a.target && '-' !in b.source && '-' !in b.target
    requires LinkKey(a) == LinkKey(b)
    ensures a.source == b.source && a.target == b.target
  {
    SourceNotShorter(a, b);
    SourceNotShorter(b, a);
    var ka, kb := LinkKey(a), LinkKey(b);
    assert a.source == ka[..|a.source|] && b.source == kb[..|b.source|];
    assert a.target == ka[|a.source| + 1..] && b.target == kb[|b.source| + 1..];
  }

  /** With equal keys and no dash in `b`'s source, `a`'s source is at least as long: its dash comes no earlier. */
  lemma {:induction false} SourceNotShorter(a: FlowLink, b: FlowLink)
    requires '-' !in b.source && LinkKey(a) == LinkKey(b)
    ensures |a.source| >= |b.source|
  {
    forall k | 0 <= k < |b.source| ensures LinkKey(b)[k] != '-' {
      assert LinkKey(b)[k] == b.source[k];
    }
    assert LinkKey(a)[|a.source|] == '-';
  }

  /** With dashes in ids, two links with different endpoints can share a key. */
  lemma {:induction false} KeysCanCollide()
    ensures var a, b := FlowLink("a-b", "c", 1, 0), FlowLink("a", "b-c", 1, 0);
      a.source != b.source && LinkKey(a) == LinkKey(b)
  {
    assert "a-b" != "a" by {
      assert |"a-b"| != |"a"|;
    }
  }

  /** The first element satisfying `p` (`find`), or None. */
  function Find<T>(s: seq<T>, p: T -> bool): (r: Option<T>)
    ensures r.Some? ==> exists k :: 0 <= k < |s| && s[k] == r.value && p(s[k]) && forall j :: 0 <= j < k ==> !p(s[j])
    ensures r.None? <==> forall j :: 0 <= j < |s| ==> !p(s[j])
  {
    match FindFirst(s, p)
    case None => None
    case Some(k) => Some(s[k])
  }

  /** The first node with the id, or None. */
  function NodeById(nodes: seq<Node>, id: NodeId): Option<Node> {
    Find(nodes, (n: Node) => n.id == id)
  }

  /** The index of the first link from `fromId` to `toId`, or None. */
  function FindLink(links: seq<FlowLink>, fromId: NodeId, toId: NodeId): (r: Option<nat>)
    ensures r.Some? ==> r.value < |links| && links[r.value].source == fromId && links[r.value].target == toId
    ensures r.Some? ==> forall j :: 0 <= j < r.value ==> !(links[j].source == fromId && links[j].target == toId)
    ensures r.None? ==> forall j :: 0 <= j < |links| ==> !(links[j].source == fromId && links[j].target == toId)
  {
    FindFirst(links, (l: FlowLink) => l.source == fromId && l.target == toId)
  }

  /** Which end of a link a lookup matches the node on: its source, or its target. */
  datatype Side = Leaving | Entering

  /** The node at that end of the link. */
  function EndOf(l: FlowLink, side: Side): NodeId {
    match side
    case Leaving => l.source
    case Entering => l.target
  }

  /** The indices of the links leaving (or entering) `id`, in order. */
  function Indices(links: seq<FlowLink>, side: Side, id: NodeId): (ix: seq<nat>)
    ensures forall k :: 0 <= k < |ix| ==> ix[k] < |links| && EndOf(links[ix[k]], side) == id
    decreases |links|
  {
    if links == [] then []
    else
      var rest := Indices(links[..|links| - 1], side, id);
      if EndOf(links[|links| - 1], side) == id then rest + [|links| - 1] else rest
  }

  /** Every link leaving (entering) `id` has its index among them. */
  lemma {:induction false} IndicesComplete(links: seq<FlowLink>, side: Side, id: NodeId, i: nat)
    requires i < |links| && EndOf(links[i], side) == id
    ensures i in Indices(links, side, id)
    decreases |links|
  {
    if i < |links| - 1 {
      IndicesComplete(links[..|links| - 1], side, id, i);
    }
  }

  /** The indices come in increasing order: the links are visited in list order. */
  lemma {:induction false} IndicesIncreasing(links: seq<FlowLink>, side: Side, id: NodeId)
    ensures forall k, m :: 0 <= k < m < |Indices(links, side, id)| ==> Indices(links, side, id)[k] < Indices(links, side, id)[m]
    decreases |links|
  {
    if links != [] {
      IndicesIncreasing(links[..|links| - 1], side, id);
    }
  }

  /** The links at the given indices. */
  function At(links: seq<FlowLink>, ix: seq<nat>): (r: seq<FlowLink>)
    requires forall k :: 0 <= k < |ix| ==> ix[k] < |links|
    ensures |r| == |ix| && forall k :: 0 <= k < |ix| ==> r[k] == links[ix[k]]
  {
    seq(|ix|, k requires 0 <= k < |ix| => links[ix[k]])
  }

  /**
   * The links at those indices are the links `getLinksFromNode` (`Leaving`) or
   * `getLinksToNode` (`Entering`) returns.
   */
  lemma {:induction false} IndicesSelect(links: seq<FlowLink>, side: Side, id: NodeId)
    ensures At(links, Indices(links, side, id)) == Filter(links, (l: FlowLink) => EndOf(l, side) == id)
    decreases |links|
  {
    if links != [] {
      var matches := (l: FlowLink) => EndOf(l, side) == id;
      var front, last := links[..|links| - 1], links[|links| - 1];
      var rest := Indices(front, side, id);
      IndicesSelect(front, side, id);
      FilterSnoc(links, matches);
      AtPrefix(front, links, rest);
      if EndOf(last, side) == id {
        AtSnoc(links, rest, |links| - 1);
      }
    }
  }

  lemma {:induction false} AtPrefix(front: seq<FlowLink>, links: seq<FlowLink>, ix: seq<nat>)
    requires front <= links && forall k :: 0 <= k < |ix| ==> ix[k] < |front|
    ensures At(links, ix) == At(front, ix)
  {
  }

  lemma {:induction false} AtSnoc(links: seq<FlowLink>, ix: seq<nat>, j: nat)
    requires j < |links| && forall k :: 0 <= k < |ix| ==> ix[k] < |links|
    ensures At(links, ix + [j]) == At(links, ix) + [links[j]]
  {
  }

  // ----- The removal filters -----

  /**
   * The links `removeLink` keeps, as written: those whose source is not `fromId` and whose
   * target is not `toId`.
   */
  function KeptByRemoveLink(links: seq<FlowLink>, fromId: NodeId, toId: NodeId): seq<FlowLink> {
    Filter(links, (l: FlowLink) => l.source != fromId && l.target != toId)
  }

  /**
   * Removing the link a→b as written also drops a→c and d→b: every link out of `fromId`
   * and every link into `toId` goes.
   */
  lemma {:induction false} RemoveLinkDropsOthers()
    ensures var links := [FlowLink("a", "b", 1, 0), FlowLink("a", "c", 1, 0), FlowLink("d", "b", 1, 0)];
      && FindLink(links, "a", "b") == Some(0)
      && KeptByRemoveLink(links, "a", "b") == []
  {
    var links := [FlowLink("a", "b", 1, 0), FlowLink("a", "c", 1, 0), FlowLink("d", "b", 1, 0)];
    assert "c" != "b" && "d" != "a";
    assert links[1..][1..][1..] == [];
  }

  /** The links a removal of the single link `fromId`→`toId` keeps. */
  function KeptByRemoveLinkIntended(links: seq<FlowLink>, fromId: NodeId, toId: NodeId): seq<FlowLink> {
    Filter(links, (l: FlowLink) => !(l.source == fromId && l.target == toId))
  }

  /** No two links run between the same endpoints in the same direction. */
  predicate UniquePairs(links: seq<FlowLink>) {
    forall i, j :: 0 <= i < j < |links| ==> !(links[i].source == links[j].source && links[i].target == links[j].target)
  }

  /**
   * The intended removal keeps every other link and drops exactly the links named; when no
   * two links share their endpoints, that is exactly one link if there is one.
   */
  lemma {:induction false} RemoveLinkIntendedExact(links: seq<FlowLink>, fromId: NodeId, toId: NodeId)
    ensures forall l :: l in KeptByRemoveLinkIntended(links, fromId, toId) <==>
      l in links && !(l.source == fromId && l.target == toId)
    ensures UniquePairs(links) && FindLink(links, fromId, toId).Some? ==>
      |KeptByRemoveLinkIntended(links, fromId, toId)| == |links| - 1
  {
    var p := (l: FlowLink) => l.source == fromId && l.target == toId;
    var q := (l: FlowLink) => !(l.source == fromId && l.target == toId);
    FilterSplits(links, p, q);
    if UniquePairs(links) && FindLink(links, fromId, toId).Some? {
      NamedAtMostOnce(links, p);
      assert links[FindLink(links, fromId, toId).value] in Filter(links, p);
    }
  }

  /** With unique endpoint pairs, a filter that names a single pair keeps at most one link. */
  lemma {:induction false} NamedAtMostOnce(links: seq<FlowLink>, p: FlowLink -> bool)
    requires UniquePairs(links)
    requires forall a, b :: p(a) && p(b) ==> a.source == b.source && a.target == b.target
    ensures |Filter(links, p)| <= 1
  {
    if links != [] {
      var rest := links[1..];
      assert UniquePairs(rest) by {
        forall i, j | 0 <= i < j < |rest|
          ensures !(rest[i].source == rest[j].source && rest[i].target == rest[j].target)
        {
          assert rest[i] == links[i + 1] && rest[j] == links[j + 1];
        }
      }
      NamedAtMostOnce(rest, p);
      if p(links[0]) {
        forall x | x in rest ensures !p(x) {
          var j :| 0 <= j < |rest| && rest[j] == x;
          assert links[j + 1] == x;
        }
        assert Filter(rest, p) == [];
      }
    }
  }

  // ----- The store -----

  /** `FlowGraph`: the node and link lists the methods below reassign. */
  class FlowGraph {
    var nodes: seq<Node>
    var links: seq<FlowLink>

    /** Stores lists that `New` has checked. */
    constructor (nodes: seq<Node>, links: seq<FlowLink>)
      ensures this.nodes == nodes && this.links == links
    {
      this.nodes := nodes;
      this.links := links;
    }

    /** `importGraph` on decoded lists: checks them and stores them only if they pass. */
    method ImportGraph(nodes: seq<Node>, links: seq<FlowLink>) returns (r: Outcome)
      modifies this
      ensures r == AssertValidGraph(nodes, links)
      ensures r.Pass? ==> this.nodes == nodes && this.links == links
      ensures r.Fail? ==> this.nodes == old(this.nodes) && this.links == old(this.links)
    {
      r := AssertValidGraph(nodes, links);
      if r.Pass? {
        this.nodes := nodes;
        this.links := links;
      }
    }

    /** `addNode`: appends the node, without any check. */
    method AddNode(node: Node)
      modifies this
      ensures nodes == old(nodes) + [node] && links == old(links)
    {
      nodes := nodes + [node];
    }

    /** `getNode`: the first node with the id. */
    function GetNode(id: NodeId): (r: Option<Node>)
      reads this
      ensures r.Some? ==> r.value in nodes && r.value.id == id
      ensures r.None? <==> forall j :: 0 <= j < |nodes| ==> nodes[j].id != id
    {
      NodeById(nodes, id)
    }

    /** `getSourceNode`: the first node of type source; the `!` checks nothing at run time. */
    function GetSourceNode(): (r: Option<Node>)
      reads this
      ensures r.Some? ==> r.value in nodes && r.value.kind == Source
      ensures r.None? <==> forall j :: 0 <= j < |nodes| ==> nodes[j].kind != Source
    {
      Find(nodes, (n: Node) => n.kind == Source)
    }

    /** `getSinkNode`: the first node of type sink. */
    function GetSinkNode(): (r: Option<Node>)
      reads this
      ensures r.Some? ==> r.value in nodes && r.value.kind == Sink
      ensures r.None? <==> forall j :: 0 <= j < |nodes| ==> nodes[j].kind != Sink
    {
      Find(nodes, (n: Node) => n.kind == Sink)
    }

    /**
     * `removeNode`: throws when no node has the id; otherwise drops every node with the id and
     * every link touching it, keeping the rest in order.
     */
    method RemoveNode(id: NodeId) returns (r: Outcome)
      modifies this
      ensures r.Fail? <==> old(GetNode(id)).None?
      ensures r.Fail? ==> r.error == "Node does not exist" && nodes == old(nodes) && links == old(links)
      ensures r.Pass? ==> nodes == Filter(old(nodes), (n: Node) => n.id != id)
      ensures r.Pass? ==> links == Filter(old(links), (l: FlowLink) => l.source != id && l.target != id)
      ensures r.Pass? ==> forall n :: n in nodes <==> n in old(nodes) && n.id != id
      ensures r.Pass? ==> forall l :: l in links <==> l in old(links) && l.source != id && l.target != id
    {
      if GetNode(id).None? {
        return Fail("Node does not exist");
      }
      nodes := Filter(nodes, (n: Node) => n.id != id);
      links := Filter(links, (l: FlowLink) => l.source != id && l.target != id);
      r := Pass;
    }

    /** `addLink`: checks the extended list and appends the link only if it passes. */
    method AddLink(link: FlowLink) returns (r: Outcome)
      modifies this
      ensures r == AssertValidLinks(old(nodes), old(links) + [link])
      ensures r.Pass? ==> links == old(links) + [link]
      ensures r.Fail? ==> links == old(links)
      ensures nodes == old(nodes)
    {
      r := AssertValidLinks(nodes, links + [link]);
      if r.Pass? {
        links := links + [link];
      }
    }

    /** `getLink`: the first link from `fromId` to `toId`. */
    function GetLink(fromId: NodeId, toId: NodeId): (r: Option<FlowLink>)
      reads this
      ensures r.Some? ==> r.value in links && r.value.source == fromId && r.value.target == toId
      ensures r.None? <==> forall j :: 0 <= j < |links| ==> !(links[j].source == fromId && links[j].target == toId)
      ensures r.Some? <==> FindLink(links, fromId, toId).Some?
      ensures r.Some? ==> r.value == links[FindLink(links, fromId, toId).value]
    {
      match FindLink(links, fromId, toId)
      case None => None
      case Some(k) => Some(links[k])
    }

    /**
     * `removeLink`: throws when no link runs from `fromId` to `toId`; otherwise keeps only
     * the links whose source is not `fromId` and whose target is not `toId` (see
     * `RemoveLinkDropsOthers`).
     */
    method RemoveLink(fromId: NodeId, toId: NodeId) returns (r: Outcome)
      modifies this
      ensures r.Fail? <==> old(GetLink(fromId, toId)).None?
      ensures r.Fail? ==> r.error == "Link does not exist" && links == old(links)
      ensures r.Pass? ==> links == KeptByRemoveLink(old(links), fromId, toId)
      ensures r.Pass? ==> forall l :: l in links <==> l in old(links) && l.source != fromId && l.target != toId
      ensures nodes == old(nodes)
    {
      if GetLink(fromId, toId).None? {
        return Fail("Link does not exist");
      }
      links := KeptByRemoveLink(links, fromId, toId);
      r := Pass;
    }

    /**
     * `removeLink` as intended: the same error case, and on success only the link
     * `fromId`→`toId` goes; with unique endpoint pairs the list shrinks by exactly one.
     */
    method RemoveLinkIntended(fromId: NodeId, toId: NodeId) returns (r: Outcome)
      modifies this
      ensures r.Fail? <==> old(GetLink(fromId, toId)).None?
      ensures r.Fail? ==> r.error == "Link does not exist" && links == old(links)
      ensures r.Pass? ==> links == KeptByRemoveLinkIntended(old(links), fromId, toId)
      ensures r.Pass? ==> forall l :: l in links <==> l in old(links) && !(l.source == fromId && l.target == toId)
      ensures r.Pass? && UniquePairs(old(links)) ==> |links| == |old(links)| - 1
      ensures nodes == old(nodes)
    {
      if GetLink(fromId, toId).None? {
        return Fail("Link does not exist");
      }
      RemoveLinkIntendedExact(links, fromId, toId);
      links := KeptByRemoveLinkIntended(links, fromId, toId);
      r := Pass;
    }

    /** `getLinksFromNode`: the links leaving the node, in order. */
    function GetLinksFromNode(id: NodeId): (r: seq<FlowLink>)
      reads this
      ensures forall l :: l in r <==> l in links && l.source == id
      ensures r == At(links, Indices(links, Leaving, id))
    {
      IndicesSelect(links, Leaving, id);
      Filter(links, (l: FlowLink) => EndOf(l, Leaving) == id)
    }

    /** `getLinksToNode`: the links entering the node, in order. */
    function GetLinksToNode(id: NodeId): (r: seq<FlowLink>)
      reads this
      ensures forall l :: l in r <==> l in links && l.target == id
      ensures r == At(links, Indices(links, Entering, id))
      ensures |r| + |Filter(links, (l: FlowLink) => l.target != id)| == |links|
    {
      IndicesSelect(links, Entering, id);
      FilterSplits(links, (l: FlowLink) => EndOf(l, Entering) == id, (l: FlowLink) => l.target != id);
      Filter(links, (l: FlowLink) => EndOf(l, Entering) == id)
    }
  }

  /**
   * The constructor: checks the nodes, then the links, and yields a store of exactly the
   * given lists only if both pass.
   */
  method New(nodes: seq<Node>, links: seq<FlowLink>) returns (r: Result<FlowGraph>)
    ensures r.Ok? <==> AssertValidGraph(nodes, links).Pass?
    ensures r.Err? ==> r.error == AssertValidGraph(nodes, links).error
    ensures r.Ok? ==> fresh(r.value) && r.value.nodes == nodes && r.value.links == links
  {
    var check := AssertValidGraph(nodes, links);
    if check.Fail? {
      return Err(check.error);
    }
    var g := new FlowGraph(nodes, links);
    r := Ok(g);
  }
}
