/** Directed, weighted graphs stored as adjacency lists over the node indices 0 .. n-1, the
    representation the graph loader builds: entry k of list u says "u -> to, with weight". */
module Digraphs {

  /** One adjacency entry: the target's index and the edge's weight. */
  datatype Edge = Edge(to: int, weight: int)

  type AdjList = seq<seq<Edge>>

  /** Every entry points at a node of the graph. */
  ghost predicate WellFormed(adj: AdjList)
  {
    forall u, k :: 0 <= u < |adj| && 0 <= k < |adj[u]| ==> 0 <= adj[u][k].to < |adj|
  }

  /** p is a walk through the graph whose i-th step, p[i] -> p[i+1], uses an entry of weight
      ws[i]. Nodes may repeat. */
  ghost predicate IsWalk(adj: AdjList, p: seq<int>, ws: seq<int>)
  {
    && |p| == |ws| + 1
    && (forall i :: 0 <= i < |p| ==> 0 <= p[i] < |adj|)
    && (forall i :: 0 <= i < |ws| ==> Edge(p[i + 1], ws[i]) in adj[p[i]])
  }

  /** Sum of a sequence of weights. */
  function Sum(ws: seq<int>): int
  {
    if ws == [] then 0 else ws[0] + Sum(ws[1..])
  }

  lemma {:induction false} SumAppend(ws: seq<int>, w: int)
    ensures Sum(ws + [w]) == Sum(ws) + w
  {
    if ws != [] {
      assert (ws + [w])[1..] == ws[1..] + [w];
      SumAppend(ws[1..], w);
    }
  }

  /** Extending a walk by one entry out of its last node gives a walk. */
  lemma WalkExtend(adj: AdjList, p: seq<int>, ws: seq<int>, v: int, w: int)
    requires IsWalk(adj, p, ws)
    requires 0 <= v < |adj|
    requires Edge(v, w) in adj[p[|p| - 1]]
    ensures IsWalk(adj, p + [v], ws + [w])
    ensures Sum(ws + [w]) == Sum(ws) + w
  {
    var p', ws' := p + [v], ws + [w];
    assert forall i :: 0 <= i < |p'| ==> 0 <= p'[i] < |adj| by {
      forall i | 0 <= i < |p'| ensures 0 <= p'[i] < |adj| {
        if i < |p| {
          assert p'[i] == p[i];
        } else {
          assert 0 <= v < |adj|;
        }
      }
    }
    forall i | 0 <= i < |ws'| ensures Edge(p'[i + 1], ws'[i]) in adj[p'[i]] {
      if i < |ws| {
        assert p'[i] == p[i] && p'[i + 1] == p[i + 1] && ws'[i] == ws[i];
      }
    }
    SumAppend(ws, w);
  }

  /** v can be reached from s along some walk. */
  ghost predicate Reachable(adj: AdjList, s: int, v: int)
  {
    exists p, ws :: IsWalk(adj, p, ws) && p[0] == s && p[|p| - 1] == v
  }

  /** The graph contains a directed cycle: a walk of at least one step that ends where it
      starts. */
  ghost predicate HasCycle(adj: AdjList)
  {
    exists p, ws :: IsWalk(adj, p, ws) && |ws| >= 1 && p[0] == p[|p| - 1]
  }

  /** The number of entries of es that point at v. */
  function CountTo(es: seq<Edge>, v: int): nat
  {
    if es == [] then 0 else CountTo(es[..|es| - 1], v) + (if es[|es| - 1].to == v then 1 else 0)
  }

  /** The entries pointing at v in the lists of the sources below k that are not in done. */
  function InCountOutside(adj: AdjList, done: set<int>, v: int, k: int): nat
    requires 0 <= k <= |adj|
  {
    if k == 0 then 0
    else InCountOutside(adj, done, v, k - 1) + (if k - 1 in done then 0 else CountTo(adj[k - 1], v))
  }

  /** The in-degree of v: the adjacency entries, over all sources, that point at v. */
  function InDegree(adj: AdjList, v: int): nat
  {
    InCountOutside(adj, {}, v, |adj|)
  }

  /** Some entry of u's list points at v. */
  ghost predicate HasEdge(adj: AdjList, u: int, v: int)
  {
    0 <= u < |adj| && exists w :: Edge(v, w) in adj[u]
  }

  /** Some entry of es points at v exactly when the count is positive. */
  lemma {:induction false} CountToPositive(es: seq<Edge>, v: int)
    ensures CountTo(es, v) > 0 <==> exists w :: Edge(v, w) in es
  {
    if es != [] {
      var init := es[..|es| - 1];
      CountToPositive(init, v);
      assert es == init + [es[|es| - 1]];
      if es[|es| - 1].to == v {
        assert Edge(v, es[|es| - 1].weight) in es;
      }
      forall w | Edge(v, w) in es && es[|es| - 1].to != v ensures Edge(v, w) in init {
      }
    }
  }

  /** Counting entries of a growing prefix of a list. */
  lemma CountToPrefix(es: seq<Edge>, j: int, v: int)
    requires 0 <= j < |es|
    ensures CountTo(es[..j + 1], v) == CountTo(es[..j], v) + (if es[j].to == v then 1 else 0)
  {
    assert es[..j + 1][..j] == es[..j];
  }

  lemma {:induction false} CountToPrefixBound(es: seq<Edge>, j: int, v: int)
    requires 0 <= j <= |es|
    ensures CountTo(es[..j], v) <= CountTo(es, v)
    decreases |es| - j
  {
    if j < |es| {
      CountToPrefix(es, j, v);
      CountToPrefixBound(es, j + 1, v);
    } else {
      assert es[..j] == es;
    }
  }

  /** Taking one more source out of the count removes exactly its entries. */
  lemma {:induction false} InCountOutsideAdd(adj: AdjList, done: set<int>, x: int, v: int, k: int)
    requires 0 <= k <= |adj| && 0 <= x < |adj| && x !in done
    ensures x < k ==> CountTo(adj[x], v) <= InCountOutside(adj, done, v, k)
    ensures InCountOutside(adj, done + {x}, v, k)
      == InCountOutside(adj, done, v, k) - (if x < k then CountTo(adj[x], v) else 0)
  {
    if k > 0 {
      InCountOutsideAdd(adj, done, x, v, k - 1);
    }
  }

  /** The count is positive exactly when some source below k, not in done, has an entry to v. */
  lemma {:induction false} InCountOutsidePositive(adj: AdjList, done: set<int>, v: int, k: int)
    requires 0 <= k <= |adj|
    ensures InCountOutside(adj, done, v, k) > 0 <==> exists u :: 0 <= u < k && u !in done && HasEdge(adj, u, v)
  {
    if k > 0 {
      InCountOutsidePositive(adj, done, v, k - 1);
      CountToPositive(adj[k - 1], v);
      if k - 1 !in done && CountTo(adj[k - 1], v) > 0 {
        assert HasEdge(adj, k - 1, v);
      }
    }
  }

  /** A piece of a walk is a walk. */
  lemma WalkSlice(adj: AdjList, p: seq<int>, ws: seq<int>, i: int, j: int)
    requires IsWalk(adj, p, ws) && 0 <= i <= j < |p|
    ensures IsWalk(adj, p[i..j + 1], ws[i..j])
  {
    var p', ws' := p[i..j + 1], ws[i..j];
    forall k | 0 <= k < |p'| ensures 0 <= p'[k] < |adj| {
      assert p'[k] == p[i + k];
    }
    forall k | 0 <= k < |ws'| ensures Edge(p'[k + 1], ws'[k]) in adj[p'[k]] {
      assert p'[k] == p[i + k] && p'[k + 1] == p[i + k + 1] && ws'[k] == ws[i + k];
    }
  }

  /** A walk can be extended backwards by an entry into its first node. */
  lemma WalkPrepend(adj: AdjList, u: int, w: int, p: seq<int>, ws: seq<int>)
    requires IsWalk(adj, p, ws) && 0 <= u < |adj| && Edge(p[0], w) in adj[u]
    ensures IsWalk(adj, [u] + p, [w] + ws)
  {
    var p', ws' := [u] + p, [w] + ws;
    forall k | 0 <= k < |p'| ensures 0 <= p'[k] < |adj| {
      if k > 0 {
        assert p'[k] == p[k - 1];
      }
    }
    forall k | 0 <= k < |ws'| ensures Edge(p'[k + 1], ws'[k]) in adj[p'[k]] {
      if k > 0 {
        assert p'[k] == p[k - 1] && p'[k + 1] == p[k] && ws'[k] == ws[k - 1];
      }
    }
  }
}
