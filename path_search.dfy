/**
 * The search forest shared by the two augmenting-path drivers. Both record, for every node
 * the search reaches, the edge or link it was reached by (`pred`), and both walk `pred` back
 * from the sink, first to compute the bottleneck and then to augment.
 */
module PathSearch {
  import opened Wrappers

  /** The edge or link by which a search reached `to` from `from`; `key` identifies it. */
  datatype Arc<K> = Arc(key: K, from: string, to: string)

  /**
   * `pred` is a search forest rooted at `root`: the root has no entry, each entry is the arc
   * into its own node, and each arc starts at the root or at a node reached earlier, that
   * is, of smaller `rank`.
   */
  ghost predicate Forest<K>(pred: map<string, Arc<K>>, rank: map<string, nat>, root: string) {
    && pred.Keys == rank.Keys
    && root !in pred
    && forall t {:trigger pred[t]} :: t in pred ==>
         && pred[t].to == t
         && (pred[t].from == root || (pred[t].from in pred && rank[pred[t].from] < rank[t]))
  }

  /** The arcs met following `pred` back from `t`, nearest first. */
  ghost function PathFrom<K>(pred: map<string, Arc<K>>, rank: map<string, nat>, root: string, t: string): seq<Arc<K>>
    requires Forest(pred, rank, root)
    decreases if t in rank then rank[t] + 1 else 0
  {
    if t !in pred then [] else [pred[t]] + PathFrom(pred, rank, root, pred[t].from)
  }

  /**
   * `path` is a chain of arcs of `pred` that starts with the arc into `t` and ends with an
   * arc leaving `root`: each arc leaves the node the previous arc entered.
   */
  ghost predicate ChainTo<K>(pred: map<string, Arc<K>>, root: string, t: string, path: seq<Arc<K>>) {
    && |path| > 0
    && path[0].to == t
    && path[|path| - 1].from == root
    && (forall i :: 0 <= i < |path| ==> path[i].to in pred && pred[path[i].to] == path[i])
    && (forall i :: 0 <= i < |path| - 1 ==> path[i + 1].to == path[i].from)
  }

  /**
   * Following `pred` back from any reached node terminates at the root: the walk is a chain
   * of `pred`'s arcs from that node to the root.
   */
  lemma {:induction false} PathReachesRoot<K>(pred: map<string, Arc<K>>, rank: map<string, nat>, root: string, t: string)
    requires Forest(pred, rank, root) && t in pred
    ensures ChainTo(pred, root, t, PathFrom(pred, rank, root, t))
    decreases rank[t]
  {
    var from := pred[t].from;
    var rest := PathFrom(pred, rank, root, from);
    var path := PathFrom(pred, rank, root, t);
    assert path == [pred[t]] + rest;
    if from == root {
      assert rest == [];
    } else {
      PathReachesRoot(pred, rank, root, from);
      forall i | 0 <= i < |path| ensures path[i].to in pred && pred[path[i].to] == path[i] {
        if i > 0 {
          assert path[i] == rest[i - 1];
        }
      }
      forall i | 0 <= i < |path| - 1 ensures path[i + 1].to == path[i].from {
        if i > 0 {
          assert path[i + 1] == rest[i] && path[i] == rest[i - 1];
        }
      }
    }
  }

  /** From a node the search never reached, the walk is empty. */
  lemma {:induction false} PathFromUnreached<K>(pred: map<string, Arc<K>>, rank: map<string, nat>, root: string, t: string)
    requires Forest(pred, rank, root) && t !in pred
    ensures PathFrom(pred, rank, root, t) == []
  {
  }

  /**
   * The walk visits no node twice: the nodes the arcs enter have strictly decreasing rank,
   * and none of them is the root.
   */
  lemma {:induction false} PathIsSimple<K>(pred: map<string, Arc<K>>, rank: map<string, nat>, root: string, t: string)
    requires Forest(pred, rank, root)
    ensures forall i :: 0 <= i < |PathFrom(pred, rank, root, t)| ==>
      PathFrom(pred, rank, root, t)[i].to != root
    ensures forall i, j :: 0 <= i < j < |PathFrom(pred, rank, root, t)| ==>
      PathFrom(pred, rank, root, t)[i].to != PathFrom(pred, rank, root, t)[j].to
    ensures forall i :: 0 <= i < |PathFrom(pred, rank, root, t)| ==>
      PathFrom(pred, rank, root, t)[i].to in rank && (t in rank ==> rank[PathFrom(pred, rank, root, t)[i].to] <= rank[t])
    decreases if t in rank then rank[t] + 1 else 0
  {
    if t in pred {
      var path := PathFrom(pred, rank, root, t);
      var from := pred[t].from;
      var rest := PathFrom(pred, rank, root, from);
      assert path == [pred[t]] + rest;
      PathIsSimple(pred, rank, root, from);
      if from == root {
        assert rest == [] by {
          assert root !in pred;
        }
      } else {
        forall i | 0 < i < |path| ensures path[i].to in rank && rank[path[i].to] < rank[t] {
          assert path[i] == rest[i - 1];
        }
        forall i, j | 0 <= i < j < |path| ensures path[i].to != path[j].to {
          assert path[j] == rest[j - 1];
          if i > 0 {
            assert path[i] == rest[i - 1];
          }
        }
      }
    }
  }

  /** A search forest grows by an arc into a new node from the root or a reached node. */
  lemma {:induction false} ForestExtend<K>(pred: map<string, Arc<K>>, rank: map<string, nat>, root: string, a: Arc<K>)
    requires Forest(pred, rank, root)
    requires a.to !in pred && a.to != root
    requires a.from == root || a.from in pred
    ensures Forest(pred[a.to := a], rank[a.to := if a.from == root then 0 else rank[a.from] + 1], root)
  {
  }

  // ----- The bottleneck: the minimum residual along the walk -----

  /** `Math.min` with None standing for the `Infinity` seed. */
  function MinWith(acc: Option<int>, x: int): (r: int)
    ensures r <= x && (acc.Some? ==> r <= acc.value)
    ensures r == x || (acc.Some? && r == acc.value)
  {
    if acc.Some? && acc.value < x then acc.value else x
  }

  /** The running minimum of the residuals of `path`'s arcs, starting from `acc`. */
  function MinAlong<K>(acc: Option<int>, path: seq<Arc<K>>, res: K -> int): Option<int>
    decreases |path|
  {
    if path == [] then acc else MinAlong(Some(MinWith(acc, res(path[0].key))), path[1..], res)
  }

  /**
   * Over a non-empty walk the bottleneck is set, is at most every arc's residual and equals
   * one of them; so it is positive when every arc on the walk has positive residual.
   */
  lemma {:induction false} BottleneckBounds<K>(path: seq<Arc<K>>, res: K -> int)
    requires |path| > 0
    ensures MinAlong(None, path, res).Some?
    ensures forall i :: 0 <= i < |path| ==> MinAlong(None, path, res).value <= res(path[i].key)
    ensures exists i :: 0 <= i < |path| && MinAlong(None, path, res).value == res(path[i].key)
  {
    MinAlongBounds(None, path, res);
  }

  lemma {:induction false} MinAlongBounds<K>(acc: Option<int>, path: seq<Arc<K>>, res: K -> int)
    requires acc.Some? || |path| > 0
    ensures MinAlong(acc, path, res).Some?
    ensures forall i :: 0 <= i < |path| ==> MinAlong(acc, path, res).value <= res(path[i].key)
    ensures acc.Some? ==> MinAlong(acc, path, res).value <= acc.value
    ensures (acc.Some? && MinAlong(acc, path, res).value == acc.value)
         || exists i :: 0 <= i < |path| && MinAlong(acc, path, res).value == res(path[i].key)
    decreases |path|
  {
    if path != [] {
      var acc' := Some(MinWith(acc, res(path[0].key)));
      MinAlongBounds(acc', path[1..], res);
      var m := MinAlong(acc, path, res).value;
      forall i | 0 < i < |path| ensures m <= res(path[i].key) {
        assert path[1..][i - 1] == path[i];
      }
      if m == acc'.value {
        if m != res(path[0].key) {
          assert acc.Some? && m == acc.value;
        }
      } else {
        var j :| 0 <= j < |path[1..]| && m == res(path[1..][j].key);
        assert path[1..][j] == path[j + 1];
      }
    }
  }

  /** The bottleneck of a walk whose arcs all have positive residual is positive. */
  lemma {:induction false} BottleneckPositive<K>(path: seq<Arc<K>>, res: K -> int)
    requires |path| > 0
    requires forall i :: 0 <= i < |path| ==> res(path[i].key) > 0
    ensures MinAlong(None, path, res).Some? && MinAlong(None, path, res).value > 0
  {
    BottleneckBounds(path, res);
  }

  /**
   * The `df` loop of both drivers: follows `pred` back from `sink`, taking the minimum of
   * the residuals met; None when the sink was not reached.
   */
  method Bottleneck<K>(pred: map<string, Arc<K>>, ghost rank: map<string, nat>, root: string, sink: string, res: K -> int)
    returns (df: Option<int>)
    requires Forest(pred, rank, root)
    ensures df == MinAlong(None, PathFrom(pred, rank, root, sink), res)
  {
    df := None;
    var cur := sink;
    while cur in pred
      invariant MinAlong(df, PathFrom(pred, rank, root, cur), res) == MinAlong(None, PathFrom(pred, rank, root, sink), res)
      decreases if cur in rank then rank[cur] + 1 else 0
    {
      var a := pred[cur];
      assert PathFrom(pred, rank, root, cur) == [a] + PathFrom(pred, rank, root, a.from);
      assert ([a] + PathFrom(pred, rank, root, a.from))[1..] == PathFrom(pred, rank, root, a.from);
      df := Some(MinWith(df, res(a.key)));
      cur := a.from;
    }
  }
}
