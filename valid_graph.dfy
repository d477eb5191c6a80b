/** `assertValidGraph` (src/utils/assertValidGraph.ts): the check run before an algorithm starts. */
module ValidGraph {
  import opened Wrappers
  import opened Seqs
  import opened CyGraph

  const Message := "Graph must have exactly one source node and one sink node"

  /** The nodes whose type field is `kind`, in enumeration order (`cy.nodes('node[type="…"]')`). */
  function NodesOfKind(g: Graph, kind: string): (r: seq<Id>)
    ensures forall i :: 0 <= i < |r| ==> r[i] in g.nodeOrder && HasKind(g, kind, r[i])
  {
    Filter(g.nodeOrder, n => HasKind(g, kind, n))
  }

  /** Returns normally when there is one source and one sink, and throws otherwise (lines 8-17). */
  function AssertValidGraph(g: Graph): (r: Outcome)
    ensures r.Fail? ==> r.error == Message
  {
    if |NodesOfKind(g, "source")| != 1 || |NodesOfKind(g, "sink")| != 1 then Fail(Message) else Pass
  }

  /** Exactly one position of `s` passes `p`. */
  predicate OnlyOne<T>(s: seq<T>, p: T -> bool) {
    exists i :: 0 <= i < |s| && p(s[i]) && forall j :: 0 <= j < |s| && p(s[j]) ==> j == i
  }

  /** A filter keeps exactly one element exactly when exactly one position passes. */
  lemma {:induction false} CountOne<T>(s: seq<T>, p: T -> bool)
    ensures |Filter(s, p)| == 1 <==> OnlyOne(s, p)
    decreases |s|
  {
    if s != [] {
      var t := s[1..];
      CountOne(t, p);
      if p(s[0]) {
        assert |Filter(s, p)| == 1 + |Filter(t, p)|;
        FilterEmpty(t, p);
        OnlyOneFirst(s, p);
      } else {
        assert Filter(s, p) == Filter(t, p);
        OnlyOneLater(s, p);
      }
    }
  }

  /** When the first position passes, it is the only one exactly when no later one does. */
  lemma {:induction false} OnlyOneFirst<T>(s: seq<T>, p: T -> bool)
    requires s != [] && p(s[0])
    ensures OnlyOne(s, p) <==> forall k :: 0 <= k < |s[1..]| ==> !p(s[1..][k])
  {
    var t := s[1..];
    if OnlyOne(s, p) {
      forall k | 0 <= k < |t| ensures !p(t[k]) {
        assert t[k] == s[k + 1];
      }
    }
    if forall k :: 0 <= k < |t| ==> !p(t[k]) {
      forall j | 0 < j < |s| ensures !p(s[j]) {
        assert s[j] == t[j - 1];
      }
    }
  }

  /** When the first position fails, the one passing position is among the later ones. */
  lemma {:induction false} OnlyOneLater<T>(s: seq<T>, p: T -> bool)
    requires s != [] && !p(s[0])
    ensures OnlyOne(s, p) <==> OnlyOne(s[1..], p)
  {
    var t := s[1..];
    if OnlyOne(s, p) {
      var i :| 0 <= i < |s| && p(s[i]) && forall j :: 0 <= j < |s| && p(s[j]) ==> j == i;
      assert t[i - 1] == s[i];
      forall j | 0 <= j < |t| && p(t[j]) ensures j == i - 1 {
        assert t[j] == s[j + 1];
      }
    }
    if OnlyOne(t, p) {
      var i :| 0 <= i < |t| && p(t[i]) && forall j :: 0 <= j < |t| && p(t[j]) ==> j == i;
      assert s[i + 1] == t[i];
      forall j | 0 <= j < |s| && p(s[j]) ensures j == i + 1 {
        assert j > 0 && s[j] == t[j - 1];
      }
    }
  }

  /** Exactly one node of the enumeration has type `kind`. */
  predicate ExactlyOne(g: Graph, kind: string) {
    exists i :: 0 <= i < |g.nodeOrder| && HasKind(g, kind, g.nodeOrder[i])
      && forall j :: 0 <= j < |g.nodeOrder| && HasKind(g, kind, g.nodeOrder[j]) ==> j == i
  }

  lemma {:induction false} NodesOfKindOne(g: Graph, kind: string)
    ensures |NodesOfKind(g, kind)| == 1 <==> ExactlyOne(g, kind)
  {
    var p := n => HasKind(g, kind, n);
    CountOne(g.nodeOrder, p);
    assert OnlyOne(g.nodeOrder, p) <==> ExactlyOne(g, kind);
  }

  /** The check passes exactly when there is one source node and one sink node. */
  lemma {:induction false} ValidIffOneEach(g: Graph)
    ensures AssertValidGraph(g).Pass? <==> ExactlyOne(g, "source") && ExactlyOne(g, "sink")
  {
    NodesOfKindOne(g, "source");
    NodesOfKindOne(g, "sink");
  }

  /** A graph that passes has the source and sink nodes the algorithms start from. */
  lemma {:induction false} ValidHasEnds(g: Graph)
    requires AssertValidGraph(g).Pass?
    ensures SourceNode(g).Some? && TypeOf(g, SourceNode(g).value) == Source
    ensures SinkNode(g).Some? && TypeOf(g, SinkNode(g).value) == Sink
  {
    var sources, sinks := NodesOfKind(g, "source"), NodesOfKind(g, "sink");
    assert sources[0] in g.nodeOrder && HasKind(g, "source", sources[0]);
    assert sinks[0] in g.nodeOrder && HasKind(g, "sink", sinks[0]);
  }
}
