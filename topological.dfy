/** Topological orders and cycles: a complete order in which every edge goes forward exists
    exactly when the graph has no directed cycle. */
module Topological {
  import opened Seqs
  import opened Digraphs

  /** order lists every node once, and every edge goes from an earlier to a later position. */
  ghost predicate IsTopologicalOrder(adj: AdjList, order: seq<int>)
  {
    && |order| == |adj|
    && Distinct(order)
    && (forall i :: 0 <= i < |order| ==> 0 <= order[i] < |adj|)
    && Forward(adj, order)
  }

  /** Every edge between two nodes of order goes forward in it. */
  ghost predicate Forward(adj: AdjList, order: seq<int>)
  {
    forall i, j :: 0 <= i < |order| && 0 <= j < |order| && HasEdge(adj, order[i], order[j]) ==> i < j
  }

  /** Every edge into a node of order comes from a node of order. */
  ghost predicate Closed(adj: AdjList, order: seq<int>)
  {
    forall u, j :: 0 <= j < |order| && HasEdge(adj, u, order[j]) ==> u in order
  }

  /** Appending a node none of whose entering edges comes from outside the order keeps every
      edge forward and every predecessor inside. */
  lemma AppendKeepsForward(adj: AdjList, order: seq<int>, done: set<int>, node: int)
    requires 0 <= node < |adj| && node !in order
    requires forall v :: v in done <==> v in order
    requires InCountOutside(adj, done, node, |adj|) == 0
    requires Forward(adj, order) && Closed(adj, order)
    ensures Forward(adj, order + [node]) && Closed(adj, order + [node])
  {
    InCountOutsidePositive(adj, done, node, |adj|);
    var o := order + [node];
    forall i, j | 0 <= i < |o| && 0 <= j < |o| && HasEdge(adj, o[i], o[j]) ensures i < j {
      if j < |order| {
        assert o[j] == order[j];
        if i < |order| {
          assert o[i] == order[i];
        }
      }
    }
    forall u, j | 0 <= j < |o| && HasEdge(adj, u, o[j]) ensures u in o {
      if j < |order| {
        assert o[j] == order[j];
      } else {
        assert u in done;
      }
    }
  }

  /** The position of x in s. */
  ghost function Position(s: seq<int>, x: int): (r: int)
    requires x in s
    ensures 0 <= r < |s| && s[r] == x
  {
    var i :| 0 <= i < |s| && s[i] == x; i
  }

  /** A graph with a topological order has no cycle: positions strictly grow along any walk. */
  lemma OrderedAcyclic(adj: AdjList, order: seq<int>)
    requires IsTopologicalOrder(adj, order)
    ensures !HasCycle(adj)
  {
    DistinctInRange(order, |adj|);
    if HasCycle(adj) {
      var p, ws :| IsWalk(adj, p, ws) && |ws| >= 1 && p[0] == p[|p| - 1];
      var k := 0;
      while k < |ws|
        invariant 0 <= k <= |ws|
        invariant Position(order, p[0]) + k <= Position(order, p[k])
      {
        var a, b := Position(order, p[k]), Position(order, p[k + 1]);
        assert HasEdge(adj, order[a], order[b]) by {
          assert Edge(p[k + 1], ws[k]) in adj[p[k]];
        }
        k := k + 1;
      }
      assert false;
    }
  }

  /** Nodes outside done each have an entry from outside done: a walk through such nodes can
      be extended backwards by one more. */
  lemma StuckExtend(adj: AdjList, done: set<int>, c: seq<int>, ws: seq<int>) returns (c': seq<int>, ws': seq<int>)
    requires forall x :: 0 <= x < |adj| && x !in done ==> InCountOutside(adj, done, x, |adj|) > 0
    requires IsWalk(adj, c, ws) && 0 <= c[0] < |adj|
    requires forall k :: 0 <= k < |c| ==> c[k] !in done
    ensures IsWalk(adj, c', ws') && |c'| == |c| + 1 && 0 <= c'[0] < |adj|
    ensures forall k :: 0 <= k < |c'| ==> c'[k] !in done
  {
    InCountOutsidePositive(adj, done, c[0], |adj|);
    var u :| 0 <= u < |adj| && u !in done && HasEdge(adj, u, c[0]);
    var w :| Edge(c[0], w) in adj[u];
    WalkPrepend(adj, u, w, c, ws);
    c', ws' := [u] + c, [w] + ws;
    forall k | 0 <= k < |c'| ensures c'[k] !in done {
      if k > 0 {
        assert c'[k] == c[k - 1];
      }
    }
  }

  /** When some nodes are outside done and each of them still has an entry coming from a node
      outside done, walking backwards through such entries must repeat a node: the graph has
      a cycle. */
  lemma StuckHasCycle(adj: AdjList, done: set<int>, v: int)
    requires 0 <= v < |adj| && v !in done
    requires forall x :: 0 <= x < |adj| && x !in done ==> InCountOutside(adj, done, x, |adj|) > 0
    ensures HasCycle(adj)
  {
    var c, ws := [v], [];
    while |c| <= |adj|
      invariant IsWalk(adj, c, ws) && 0 <= c[0] < |adj|
      invariant forall k :: 0 <= k < |c| ==> c[k] !in done
      decreases |adj| + 1 - |c|
    {
      c, ws := StuckExtend(adj, done, c, ws);
    }
    var i, j := Pigeonhole(c, |adj|);
    RepeatHasCycle(adj, c, ws, i, j);
  }

  /** A walk that visits a node twice holds a cycle. */
  lemma RepeatHasCycle(adj: AdjList, c: seq<int>, ws: seq<int>, i: int, j: int)
    requires IsWalk(adj, c, ws) && 0 <= i < j < |c| && c[i] == c[j]
    ensures HasCycle(adj)
  {
    WalkSlice(adj, c, ws, i, j);
    var p, ws' := c[i..j + 1], ws[i..j];
    assert p[0] == c[i] && p[|p| - 1] == c[j];
    assert IsWalk(adj, p, ws') && |ws'| >= 1 && p[0] == p[|p| - 1];
  }

  /** The loop invariant of Kahn's algorithm over the emitted nodes order, the queue q, the
      remaining in-degrees d and the set done of emitted nodes: emitted and queued nodes are
      distinct; d counts, for each node, the entries coming from nodes not yet emitted; a node
      has no such entry left exactly when it is emitted or queued; and the emitted nodes are in
      topological order with all their predecessors emitted. */
  ghost predicate KahnInv(adj: AdjList, order: seq<int>, q: seq<int>, d: seq<int>, done: set<int>)
  {
    && |d| == |adj|
    && (forall v :: v in done <==> v in order)
    && Distinct(order + q)
    && (forall k :: 0 <= k < |order + q| ==> 0 <= (order + q)[k] < |adj|)
    && (forall v :: 0 <= v < |adj| ==> d[v] == InCountOutside(adj, done, v, |adj|))
    && (forall v :: 0 <= v < |adj| ==> (d[v] == 0 <==> v in order || v in q))
    && Forward(adj, order) && Closed(adj, order)
  }

  /** The queue's front has no entry from a node not yet emitted, so its targets' remaining
      in-degrees can all drop by its entries. */
  lemma KahnRoom(adj: AdjList, order: seq<int>, q: seq<int>, d: seq<int>, done: set<int>)
    requires KahnInv(adj, order, q, d, done) && q != []
    ensures 0 <= q[0] < |adj| && q[0] !in order
    ensures |order| < |adj|
    ensures forall v :: 0 <= v < |adj| ==> CountTo(adj[q[0]], v) <= d[v]
  {
    var node := q[0];
    assert (order + q)[|order|] == node;
    DistinctConcat(order, q);
    DistinctInRange(order + q, |adj|);
    forall v | 0 <= v < |adj| ensures CountTo(adj[node], v) <= d[v] {
      InCountOutsideAdd(adj, done, node, v, |adj|);
    }
  }

  /** Emitting the queue's front and queueing exactly those of its targets whose remaining
      in-degree thereby reaches zero keeps the invariant. */
  lemma KahnStep(adj: AdjList, order: seq<int>, q: seq<int>, d: seq<int>, done: set<int>, d': seq<int>, pushed: seq<int>)
    requires KahnInv(adj, order, q, d, done) && q != [] && 0 <= q[0] < |adj|
    requires |d'| == |adj|
    requires forall v :: 0 <= v < |adj| ==> d'[v] == d[v] - CountTo(adj[q[0]], v)
    requires Distinct(pushed) && forall k :: 0 <= k < |pushed| ==> 0 <= pushed[k] < |adj|
    requires forall v :: 0 <= v < |adj| ==> (v in pushed <==> CountTo(adj[q[0]], v) > 0 && d'[v] == 0)
    ensures KahnInv(adj, order + [q[0]], q[1..] + pushed, d', done + {q[0]})
  {
    var node, rest := q[0], q[1..];
    KahnRoom(adj, order, q, d, done);
    var order', q', done' := order + [node], rest + pushed, done + {node};
    assert order' + rest == order + q;
    AppendKeepsForward(adj, order, done, node);
    forall v | 0 <= v < |adj| ensures d'[v] == InCountOutside(adj, done', v, |adj|) {
      InCountOutsideAdd(adj, done, node, v, |adj|);
    }
    forall x | x in pushed ensures x !in order' + rest {
      assert CountTo(adj[node], x) > 0;
    }
    DistinctAppend(order' + rest, pushed);
    assert (order' + rest) + pushed == order' + q';
    forall v | 0 <= v < |adj| ensures d'[v] == 0 <==> v in order' || v in q' {
      if CountTo(adj[node], v) == 0 {
        assert v in q' <==> v in rest;
        assert v in order' || v in rest <==> v in order || v in q;
      }
    }
  }

  /** The state Kahn's algorithm stops in decides the question: with the queue empty, the order
      is complete exactly when the graph has no cycle, and a complete order is topological. */
  lemma KahnOutcome(adj: AdjList, order: seq<int>, d: seq<int>, done: set<int>)
    requires KahnInv(adj, order, [], d, done)
    ensures Distinct(order) && forall k :: 0 <= k < |order| ==> 0 <= order[k] < |adj|
    ensures |order| == |adj| ==> IsTopologicalOrder(adj, order)
    ensures |order| == |adj| <==> !HasCycle(adj)
  {
    assert order + [] == order;
    DistinctInRange(order, |adj|);
    if |order| == |adj| {
      OrderedAcyclic(adj, order);
    } else {
      var v := MissingIndex(order, |adj|);
      StuckHasCycle(adj, done, v);
    }
  }

  /** Every entry of es points at a node below n. */
  ghost predicate PointsBelow(es: seq<Edge>, n: int)
  {
    forall k :: 0 <= k < |es| ==> 0 <= es[k].to < n
  }

  /** No node has more entries of es pointing at it than its count in d. */
  ghost predicate CountsFit(es: seq<Edge>, d: seq<int>)
  {
    forall v :: 0 <= v < |d| ==> CountTo(es, v) <= d[v]
  }

  /** The targets that going over node's entries es queues, in entry order. d holds the
      in-degrees before the first entry; entry j - 1 queues its target when the count less the
      entries es[..j] pointing at it is zero. */
  function Released(es: seq<Edge>, d: seq<int>, j: int): (r: seq<int>)
    requires 0 <= j <= |es|
    requires PointsBelow(es, |d|)
    ensures |r| <= j
  {
    if j == 0 then []
    else
      var t := es[j - 1].to;
      Released(es, d, j - 1) + (if d[t] - CountTo(es[..j], t) == 0 then [t] else [])
  }

  /** The state of going over node's entries es after the first j of them, starting from the
      in-degrees d: d' holds each count less the entries so far pointing at it, and pushed holds,
      once each and in entry order, the targets whose count has reached zero. */
  ghost predicate ReleaseInv(es: seq<Edge>, d: seq<int>, j: int, d': seq<int>, pushed: seq<int>)
    requires PointsBelow(es, |d|)
  {
    && 0 <= j <= |es| && |d'| == |d|
    && Distinct(pushed) && (forall k :: 0 <= k < |pushed| ==> 0 <= pushed[k] < |d|)
    && (forall v :: 0 <= v < |d| ==> d'[v] == d[v] - CountTo(es[..j], v))
    && (forall v :: 0 <= v < |d| ==> (v in pushed <==> CountTo(es[..j], v) > 0 && d'[v] == 0))
    && pushed == Released(es, d, j)
  }

  lemma ReleaseStart(es: seq<Edge>, d: seq<int>)
    requires PointsBelow(es, |d|)
    ensures ReleaseInv(es, d, 0, d, [])
  {
    assert es[..0] == [];
  }

  /** Entry j lowers its target's count by one and queues the target when it reaches zero. */
  lemma ReleaseStep(es: seq<Edge>, d: seq<int>, j: int, d': seq<int>, pushed: seq<int>)
    returns (d'': seq<int>, pushed': seq<int>)
    requires PointsBelow(es, |d|)
    requires CountsFit(es, d)
    requires ReleaseInv(es, d, j, d', pushed) && j < |es|
    ensures d'' == d'[es[j].to := d'[es[j].to] - 1]
    ensures pushed' == if d''[es[j].to] == 0 then pushed + [es[j].to] else pushed
    ensures ReleaseInv(es, d, j + 1, d'', pushed')
  {
    var t := es[j].to;
    d'' := d'[t := d'[t] - 1];
    pushed' := if d''[t] == 0 then pushed + [t] else pushed;
    CountsStep(es, d, j, d');
    assert t !in pushed;
    if d''[t] == 0 {
      DistinctAppend(pushed, [t]);
    }
    forall v | 0 <= v < |d|
      ensures v in pushed' <==> CountTo(es[..j + 1], v) > 0 && d''[v] == 0
    {
      if v != t {
        assert v in pushed' <==> v in pushed;
      }
    }
    assert pushed' == Released(es, d, j + 1);
  }

  /** Entry j adds one to its target's count of entries so far, and that target's remaining
      count is still positive before the entry. */
  lemma CountsStep(es: seq<Edge>, d: seq<int>, j: int, d': seq<int>)
    requires PointsBelow(es, |d|) && 0 <= j < |es| && |d'| == |d|
    requires CountsFit(es, d)
    requires forall v :: 0 <= v < |d| ==> d'[v] == d[v] - CountTo(es[..j], v)
    ensures forall v :: 0 <= v < |d| ==>
      d'[es[j].to := d'[es[j].to] - 1][v] == d[v] - CountTo(es[..j + 1], v)
    ensures forall v :: 0 <= v < |d| ==>
      (CountTo(es[..j + 1], v) > 0 <==> CountTo(es[..j], v) > 0 || v == es[j].to)
    ensures d'[es[j].to] >= 1
  {
    var t := es[j].to;
    forall v | 0 <= v < |d|
      ensures CountTo(es[..j + 1], v) == CountTo(es[..j], v) + (if t == v then 1 else 0)
    {
      CountToPrefix(es, j, v);
    }
    CountToPrefixBound(es, j + 1, t);
  }

  /** Once every entry is done: the counts have dropped by all of es, and pushed holds, once
      each and in entry order, exactly the targets whose count reached zero. */
  lemma ReleaseDone(es: seq<Edge>, d: seq<int>, d': seq<int>, pushed: seq<int>)
    requires PointsBelow(es, |d|)
    requires ReleaseInv(es, d, |es|, d', pushed)
    ensures |d'| == |d|
    ensures forall v :: 0 <= v < |d| ==> d'[v] == d[v] - CountTo(es, v)
    ensures Distinct(pushed) && forall k :: 0 <= k < |pushed| ==> 0 <= pushed[k] < |d|
    ensures forall v :: 0 <= v < |d| ==> (v in pushed <==> CountTo(es, v) > 0 && d'[v] == 0)
    ensures pushed == Released(es, d, |es|)
  {
    assert es[..|es|] == es;
  }

  /** The in-degrees that remain once the nodes of order are emitted: only entries from the
      other nodes count. */
  ghost function Remaining(adj: AdjList, order: seq<int>): (r: seq<int>)
    ensures |r| == |adj|
    ensures forall v :: 0 <= v < |adj| ==> r[v] == InCountOutside(adj, Elements(order), v, |adj|)
  {
    seq(|adj|, v => InCountOutside(adj, Elements(order), v, |adj|))
  }

  /** The indices below k whose count in d is zero, in ascending order. */
  function ZeroNodes(d: seq<int>, k: int): (r: seq<int>)
    requires 0 <= k <= |d|
    ensures forall i :: 0 <= i < |r| ==> 0 <= r[i] < k && d[r[i]] == 0
  {
    if k == 0 then [] else ZeroNodes(d, k - 1) + (if d[k - 1] == 0 then [k - 1] else [])
  }

  /** ZeroNodes lists, strictly ascending, exactly the indices below k whose count is zero. */
  lemma {:induction false} ZeroNodesFacts(d: seq<int>, k: int)
    requires 0 <= k <= |d|
    ensures forall a, b :: 0 <= a < b < |ZeroNodes(d, k)| ==> ZeroNodes(d, k)[a] < ZeroNodes(d, k)[b]
    ensures forall i :: 0 <= i < |ZeroNodes(d, k)| ==> 0 <= ZeroNodes(d, k)[i] < k
    ensures forall v :: 0 <= v < |d| ==> (v in ZeroNodes(d, k) <==> v < k && d[v] == 0)
  {
    if k > 0 {
      ZeroNodesFacts(d, k - 1);
    }
  }

  /** The queue Kahn's algorithm starts from: the nodes of in-degree zero, in ascending order. */
  ghost function Seeds(adj: AdjList): seq<int>
  {
    ZeroNodes(Remaining(adj, []), |adj|)
  }

  /** Everything queued while the first k nodes of order are emitted, in queueing order: each
      emitted node queues, in entry order, the targets it releases. */
  ghost function PushedBy(adj: AdjList, order: seq<int>, k: int): seq<int>
    requires WellFormed(adj) && 0 <= k <= |order| && AllNodes(adj, order)
  {
    if k == 0 then []
    else
      var u := order[k - 1];
      PushedBy(adj, order, k - 1) + Released(adj[u], Remaining(adj, order[..k - 1]), |adj[u]|)
  }

  /** Every element of order is a node. */
  ghost predicate AllNodes(adj: AdjList, order: seq<int>)
  {
    forall i :: 0 <= i < |order| ==> 0 <= order[i] < |adj|
  }

  /** The queue was never empty when a node of order was taken from it: the k-th node taken
      lies among what was queued before it. */
  ghost predicate NeverEmpty(adj: AdjList, order: seq<int>)
    requires WellFormed(adj) && AllNodes(adj, order)
  {
    forall k :: 0 <= k < |order| ==> k < |Seeds(adj)| + |PushedBy(adj, order, k)|
  }

  /** order followed by the queue q is everything queued so far, first in first out, and the
      queue was never empty when a node of order was taken from it. */
  ghost predicate KahnQueue(adj: AdjList, order: seq<int>, q: seq<int>)
    requires WellFormed(adj)
  {
    && AllNodes(adj, order)
    && order + q == Seeds(adj) + PushedBy(adj, order, |order|)
    && NeverEmpty(adj, order)
  }

  /** order is the complete run of the first-in first-out queue of Kahn's algorithm: the seeds,
      then what each emitted node released, in turn, with the queue never empty before the end. */
  ghost predicate KahnTrace(adj: AdjList, order: seq<int>)
    requires WellFormed(adj)
  {
    && AllNodes(adj, order)
    && order == Seeds(adj) + PushedBy(adj, order, |order|)
    && NeverEmpty(adj, order)
  }

  /** What the first k emitted nodes queue depends on those k nodes only. */
  lemma {:induction false} PushedByPrefix(adj: AdjList, o1: seq<int>, o2: seq<int>, k: int)
    requires WellFormed(adj) && 0 <= k <= |o1| && k <= |o2|
    requires AllNodes(adj, o1) && AllNodes(adj, o2)
    requires o1[..k] == o2[..k]
    ensures PushedBy(adj, o1, k) == PushedBy(adj, o2, k)
    decreases k
  {
    if k > 0 {
      assert o1[k - 1] == o1[..k][k - 1] && o2[k - 1] == o2[..k][k - 1];
      assert o1[..k - 1] == o1[..k][..k - 1] && o2[..k - 1] == o2[..k][..k - 1];
      PushedByPrefix(adj, o1, o2, k - 1);
    }
  }

  /** The queue only grows: what the first a nodes queue begins what the first b nodes queue. */
  lemma {:induction false} PushedByGrows(adj: AdjList, o: seq<int>, a: int, b: int)
    requires WellFormed(adj) && 0 <= a <= b <= |o| && AllNodes(adj, o)
    ensures |PushedBy(adj, o, a)| <= |PushedBy(adj, o, b)|
    ensures PushedBy(adj, o, b)[..|PushedBy(adj, o, a)|] == PushedBy(adj, o, a)
    decreases b - a
  {
    if a < b {
      PushedByGrows(adj, o, a, b - 1);
      var pa, pb := PushedBy(adj, o, a), PushedBy(adj, o, b - 1);
      assert PushedBy(adj, o, b)[..|pa|] == pb[..|pa|];
    }
  }

  /** The queue Kahn's algorithm starts from, with nothing emitted yet. */
  lemma KahnQueueStart(adj: AdjList)
    requires WellFormed(adj)
    ensures KahnQueue(adj, [], Seeds(adj))
  {
    assert PushedBy(adj, [], 0) == [];
  }

  /** Taking the queue's front and queueing what it releases keeps the queue first in first out. */
  lemma KahnQueueStep(adj: AdjList, order: seq<int>, q: seq<int>, pushed: seq<int>)
    requires WellFormed(adj) && KahnQueue(adj, order, q) && q != [] && 0 <= q[0] < |adj|
    requires pushed == Released(adj[q[0]], Remaining(adj, order), |adj[q[0]]|)
    ensures KahnQueue(adj, order + [q[0]], q[1..] + pushed)
  {
    var node, k, seeds := q[0], |order|, Seeds(adj);
    var order', q' := order + [node], q[1..] + pushed;
    assert AllNodes(adj, order');
    PushedBySnoc(adj, order, node);
    assert order' + q' == (order + q) + pushed by {
      assert q == [node] + q[1..];
      AppendAssoc(order, [node], q[1..]);
      AppendAssoc(order + [node], q[1..], pushed);
      AppendAssoc(order, q, pushed);
    }
    NeverEmptyStep(adj, order, node);
  }

  /** Appending a node changes nothing that the earlier nodes queued. */
  lemma PushedBySnoc(adj: AdjList, order: seq<int>, node: int)
    requires WellFormed(adj) && AllNodes(adj, order) && 0 <= node < |adj|
    ensures AllNodes(adj, order + [node])
    ensures forall j :: 0 <= j <= |order| ==> PushedBy(adj, order + [node], j) == PushedBy(adj, order, j)
    ensures PushedBy(adj, order + [node], |order| + 1) ==
      PushedBy(adj, order, |order|) + Released(adj[node], Remaining(adj, order), |adj[node]|)
  {
    var order' := order + [node];
    assert AllNodes(adj, order');
    forall j | 0 <= j <= |order|
      ensures PushedBy(adj, order', j) == PushedBy(adj, order, j)
    {
      assert order'[..j] == order[..j];
      PushedByPrefix(adj, order', order, j);
    }
    assert order'[..|order|] == order;
  }

  /** Taking a node while the queue holds one keeps the queue never empty when taken from. */
  lemma NeverEmptyStep(adj: AdjList, order: seq<int>, node: int)
    requires WellFormed(adj) && AllNodes(adj, order) && 0 <= node < |adj| && NeverEmpty(adj, order)
    requires |order| < |Seeds(adj)| + |PushedBy(adj, order, |order|)|
    ensures AllNodes(adj, order + [node]) && NeverEmpty(adj, order + [node])
  {
    PushedBySnoc(adj, order, node);
    forall j | 0 <= j < |order| + 1
      ensures j < |Seeds(adj)| + |PushedBy(adj, order + [node], j)|
    {
      assert PushedBy(adj, order + [node], j) == PushedBy(adj, order, j);
    }
  }

  /** With the queue empty, the run is complete. */
  lemma KahnQueueDone(adj: AdjList, order: seq<int>)
    requires WellFormed(adj) && KahnQueue(adj, order, [])
    ensures KahnTrace(adj, order)
    ensures |Seeds(adj)| <= |order| && order[..|Seeds(adj)|] == Seeds(adj)
  {
    assert order + [] == order;
  }

  /** Each node of a run is the queue entry at its position, among what was queued before it. */
  lemma KahnTraceAt(adj: AdjList, o: seq<int>, k: int)
    requires WellFormed(adj) && KahnTrace(adj, o) && 0 <= k < |o|
    ensures k < |Seeds(adj) + PushedBy(adj, o, k)| && o[k] == (Seeds(adj) + PushedBy(adj, o, k))[k]
  {
    PushedByGrows(adj, o, k, |o|);
  }

  /** Two runs agree on every position both have. */
  lemma KahnTraceAgree(adj: AdjList, o1: seq<int>, o2: seq<int>, m: int)
    requires WellFormed(adj) && KahnTrace(adj, o1) && KahnTrace(adj, o2)
    requires 0 <= m <= |o1| && m <= |o2|
    ensures o1[..m] == o2[..m]
  {
    var k := 0;
    while k < m
      invariant 0 <= k <= m && o1[..k] == o2[..k]
    {
      KahnTraceAgreeStep(adj, o1, o2, k);
      k := k + 1;
    }
  }

  /** Runs that agree before position k agree at k: both take the k-th queue entry, and what
      was queued before it depends on the earlier nodes only. */
  lemma KahnTraceAgreeStep(adj: AdjList, o1: seq<int>, o2: seq<int>, k: int)
    requires WellFormed(adj) && KahnTrace(adj, o1) && KahnTrace(adj, o2)
    requires 0 <= k < |o1| && k < |o2| && o1[..k] == o2[..k]
    ensures o1[..k + 1] == o2[..k + 1]
  {
    KahnTraceAt(adj, o1, k);
    KahnTraceAt(adj, o2, k);
    PushedByPrefix(adj, o1, o2, k);
    assert o1[k] == o2[k];
    TakeOneMore(o1, k);
    TakeOneMore(o2, k);
  }

  /** A run that begins another run is as long: the queue is empty where the shorter one
      stops, so the longer one could not take another node. */
  lemma KahnTraceNotShorter(adj: AdjList, short: seq<int>, long: seq<int>)
    requires WellFormed(adj) && KahnTrace(adj, short) && KahnTrace(adj, long)
    requires |short| <= |long| && short == long[..|short|]
    ensures |short| == |long|
  {
    assert short[..|short|] == short;
    PushedByPrefix(adj, short, long, |short|);
  }

  /** The run of Kahn's algorithm is determined by the graph: two complete first-in first-out
      runs are the same sequence. */
  lemma KahnTraceUnique(adj: AdjList, o1: seq<int>, o2: seq<int>)
    requires WellFormed(adj) && KahnTrace(adj, o1) && KahnTrace(adj, o2)
    ensures o1 == o2
  {
    if |o1| <= |o2| {
      KahnTraceAgree(adj, o1, o2, |o1|);
      assert o1[..|o1|] == o1;
      KahnTraceNotShorter(adj, o1, o2);
      assert o2[..|o2|] == o2;
    } else {
      KahnTraceAgree(adj, o1, o2, |o2|);
      assert o2[..|o2|] == o2;
      KahnTraceNotShorter(adj, o2, o1);
    }
  }

  /** The counts Kahn's algorithm keeps are the in-degrees remaining after what it emitted. */
  lemma KahnRemaining(adj: AdjList, order: seq<int>, q: seq<int>, d: seq<int>, done: set<int>)
    requires KahnInv(adj, order, q, d, done)
    ensures d == Remaining(adj, order)
  {
    forall x
      ensures x in done <==> x in Elements(order)
    {
    }
    assert done == Elements(order);
    assert forall v :: 0 <= v < |adj| ==> d[v] == Remaining(adj, order)[v];
  }

  /** The separator printed between consecutive nodes of a topological order. */
  const Arrow := " --> "

  /** The line printed when Kahn's algorithm stops short. */
  const NotSortable := "This graph cannot be topologically sorted.\n"

  /** The names of the nodes in order. */
  function NamesOf(names: seq<string>, order: seq<int>): (r: seq<string>)
    requires forall k :: 0 <= k < |order| ==> 0 <= order[k] < |names|
    ensures |r| == |order| && forall k :: 0 <= k < |order| ==> r[k] == names[order[k]]
  {
    seq(|order|, k requires 0 <= k < |order| => names[order[k]])
  }

  /** parts with sep between each two consecutive ones, and nowhere else. */
  function Joined(parts: seq<string>, sep: string): string
  {
    if parts == [] then ""
    else if |parts| == 1 then parts[0]
    else Joined(parts[..|parts| - 1], sep) + sep + parts[|parts| - 1]
  }

  /** The first k names of the order line as printed: each name followed by an arrow unless it
      is at the last position. */
  function OrderLinePrefix(names: seq<string>, order: seq<int>, k: int): string
    requires 0 <= k <= |order|
    requires forall k :: 0 <= k < |order| ==> 0 <= order[k] < |names|
  {
    if k == 0 then ""
    else OrderLinePrefix(names, order, k - 1) + names[order[k - 1]] + (if k - 1 != |order| - 1 then Arrow else "")
  }

  /** The order line as Graph.cpp:145-152 writes it: the test before the arrow compares the
      node's index, not its position, with the position of the last node. */
  function OrderLineAsWritten(names: seq<string>, order: seq<int>, k: int): string
    requires 0 <= k <= |order|
    requires forall k :: 0 <= k < |order| ==> 0 <= order[k] < |names|
  {
    if k == 0 then ""
    else OrderLineAsWritten(names, order, k - 1) + names[order[k - 1]] + (if order[k - 1] != |order| - 1 then Arrow else "")
  }

  lemma {:induction false} OrderLinePrefixJoined(names: seq<string>, order: seq<int>, k: int)
    requires 1 <= k <= |order|
    requires forall k :: 0 <= k < |order| ==> 0 <= order[k] < |names|
    ensures OrderLinePrefix(names, order, k) == Joined(NamesOf(names, order)[..k], Arrow) + (if k < |order| then Arrow else "")
  {
    var parts := NamesOf(names, order);
    if k > 1 {
      OrderLinePrefixJoined(names, order, k - 1);
      assert parts[..k][..k - 1] == parts[..k - 1];
    } else {
      assert parts[..1] == [names[order[0]]];
    }
  }

  /** The printed order line is the nodes' names with an arrow between consecutive ones. */
  lemma OrderLineJoined(names: seq<string>, order: seq<int>)
    requires forall k :: 0 <= k < |order| ==> 0 <= order[k] < |names|
    ensures OrderLinePrefix(names, order, |order|) == Joined(NamesOf(names, order), Arrow)
  {
    if order != [] {
      OrderLinePrefixJoined(names, order, |order|);
      assert NamesOf(names, order)[..|order|] == NamesOf(names, order);
    }
  }

  /** With nodes A and B and the single entry from B to A, the order is [1, 0]. As written, no
      arrow follows B, whose index is 1, and one follows A at the end of the line. */
  lemma ArrowAfterLastIndex()
    ensures IsTopologicalOrder([[], [Edge(0, 1)]], [1, 0])
    ensures OrderLineAsWritten(["A", "B"], [1, 0], 2) == "BA --> "
    ensures Joined(NamesOf(["A", "B"], [1, 0]), Arrow) == "B --> A"
  {
    var adj: AdjList := [[], [Edge(0, 1)]];
    assert Distinct([1, 0]) by {
      assert forall a, b :: 0 <= a < b < 2 ==> [1, 0][a] != [1, 0][b];
    }
    assert OrderLineAsWritten(["A", "B"], [1, 0], 1) == "B";
    assert NamesOf(["A", "B"], [1, 0]) == ["B", "A"];
    assert ["B", "A"][..1] == ["B"];
  }
}
