/** Single-source shortest paths by Dijkstra's algorithm with a lazily cleaned priority queue:
    the loop invariant, its preservation by each step, and what it gives once the queue is
    empty. Edge weights are assumed non-negative. */
module ShortestPaths {
  import opened Seqs
  import opened Digraphs

  /** A stored distance: a value, or "infinity" for a node not reached yet. */
  datatype Distance = Finite(d: int) | Infinite

  /** A candidate distance beats the stored one. */
  predicate Improves(nd: int, x: Distance)
  {
    x.Infinite? || nd < x.d
  }

  /** Priority-queue entries (distance, node) are ordered lexicographically. */
  predicate PairLe(a: (int, int), b: (int, int))
  {
    a.0 < b.0 || (a.0 == b.0 && a.1 <= b.1)
  }

  /** m is the smallest entry of pq: the one its top yields. */
  predicate IsMinimum(pq: multiset<(int, int)>, m: (int, int))
  {
    m in pq && forall p :: p in pq ==> PairLe(m, p)
  }

  /** A non-empty queue has a smallest entry. */
  lemma {:induction false} MinimumExists(pq: multiset<(int, int)>) returns (m: (int, int))
    requires |pq| > 0
    ensures IsMinimum(pq, m)
    decreases |pq|
  {
    var x :| x in pq;
    var rest := pq - multiset{x};
    if |rest| == 0 {
      assert pq == multiset{x} by {
        assert pq == rest + multiset{x};
      }
      m := x;
    } else {
      var m' := MinimumExists(rest);
      assert pq == rest + multiset{x};
      m := if PairLe(x, m') then x else m';
    }
  }

  ghost predicate NonNegative(adj: AdjList)
  {
    forall u, k :: 0 <= u < |adj| && 0 <= k < |adj[u]| ==> adj[u][k].weight >= 0
  }

  /** d is the least weight of a walk from s to v, and some walk has that weight. */
  ghost predicate IsShortest(adj: AdjList, s: int, v: int, d: int)
  {
    && (exists p, ws :: IsWalk(adj, p, ws) && p[0] == s && p[|p| - 1] == v && Sum(ws) == d)
    && (forall p, ws :: IsWalk(adj, p, ws) && p[0] == s && p[|p| - 1] == v ==> d <= Sum(ws))
  }

  /** path is a walk from s to v of weight d. */
  ghost predicate WalkOfWeight(adj: AdjList, path: seq<int>, s: int, v: int, d: int)
  {
    |path| >= 1 && path[0] == s && path[|path| - 1] == v && exists ws :: IsWalk(adj, path, ws) && Sum(ws) == d
  }

  /** Every node's distance is finite exactly when it is reachable, and then it is the shortest. */
  ghost predicate ShortestDistances(adj: AdjList, s: int, dist: seq<Distance>)
  {
    && |dist| == |adj|
    && forall v :: 0 <= v < |adj| ==>
         && (dist[v].Finite? <==> Reachable(adj, s, v))
         && (dist[v].Finite? ==> IsShortest(adj, s, v, dist[v].d))
  }

  /** What is reported for one node other than the start: that no path leads to it, or a
      path of nodes from the start to it and its weight. */
  datatype Report = NoPathTo(node: int) | PathTo(node: int, path: seq<int>, weight: int)

  /** The outcome of a shortest-path query: the start is unknown, or its index, the computed
      distances and one report per other node, in ascending order of node. */
  datatype PathsOutcome = StartNotFound | Found(start: int, distances: seq<Distance>, reports: seq<Report>)

  /** Report number k is about node k, skipping the start: it says "no path" exactly when the
      node is unreachable, and otherwise gives a shortest walk and its weight. */
  ghost predicate ReportOk(adj: AdjList, s: int, k: int, r: Report)
  {
    var v := if k < s then k else k + 1;
    && r.node == v
    && (r.NoPathTo? <==> !Reachable(adj, s, v))
    && (r.PathTo? ==> WalkOfWeight(adj, r.path, s, v, r.weight) && IsShortest(adj, s, v, r.weight))
  }

  ghost predicate ReportsMatch(adj: AdjList, s: int, reports: seq<Report>)
  {
    |reports| == |adj| - 1 && forall k :: 0 <= k < |reports| ==> ReportOk(adj, s, k, reports[k])
  }

  /** Each node of path after the first has the node before it as its predecessor: path is
      the chain of predecessor links read forwards. */
  ghost predicate OnPredecessorChain(prev: seq<int>, path: seq<int>)
  {
    forall j :: 0 < j < |path| ==> 0 <= path[j] < |prev| && prev[path[j]] == path[j - 1]
  }

  /** Every reported walk lies on the predecessor chain. */
  ghost predicate ReportsOnChain(prev: seq<int>, reports: seq<Report>)
  {
    forall k :: 0 <= k < |reports| && reports[k].PathTo? ==> OnPredecessorChain(prev, reports[k].path)
  }

  /** The k-th entry out of u cannot improve its target any more. */
  ghost predicate RelaxedAt(adj: AdjList, dist: seq<Distance>, u: int, k: int)
    requires WellFormed(adj) && |dist| == |adj| && 0 <= u < |adj| && 0 <= k < |adj[u]| && dist[u].Finite?
  {
    dist[adj[u][k].to].Finite? && dist[adj[u][k].to].d <= dist[u].d + adj[u][k].weight
  }

  /** The predecessor links, as the main loop leaves them: each link from a reached node v goes
      to a reached node by an entry whose weight is the difference of their distances, the
      start alone has no link, and the ghost stamps strictly decrease along the links. */
  ghost predicate PathTree(adj: AdjList, s: int, dist: seq<Distance>, prev: seq<int>, stamp: seq<int>)
  {
    && WellFormed(adj)
    && |dist| == |adj| && |prev| == |adj| && |stamp| == |adj|
    && 0 <= s < |adj| && dist[s] == Finite(0) && prev[s] == -1
    && (forall v :: 0 <= v < |adj| ==> 0 <= stamp[v])
    && (forall v {:trigger prev[v]} :: 0 <= v < |adj| && prev[v] != -1 ==>
          && 0 <= prev[v] < |adj| && dist[v].Finite? && dist[prev[v]].Finite?
          && Edge(v, dist[v].d - dist[prev[v]].d) in adj[prev[v]]
          && stamp[prev[v]] < stamp[v])
    && (forall v {:trigger prev[v]} :: 0 <= v < |adj| && v != s && dist[v].Finite? ==> prev[v] != -1)
  }

  /** The parts of the invariant of the main loop, each over the stored distances dist, the
      predecessor links prev, the queue pq of (distance, node) entries, the settled nodes (those
      taken from the queue with their current distance), ghost stamps numbering the settled
      nodes in the order they were settled, and floor, the distance last taken from the queue. */
  ghost predicate Shape(adj: AdjList, s: int, dist: seq<Distance>, prev: seq<int>, stamp: seq<int>, floor: int)
  {
    && WellFormed(adj) && NonNegative(adj)
    && |dist| == |adj| && |prev| == |adj| && |stamp| == |adj|
    && 0 <= s < |adj| && dist[s] == Finite(0) && prev[s] == -1
    && 0 <= floor
    && (forall v :: 0 <= v < |adj| ==> 0 <= stamp[v])
  }

  /** Each entry names a reached node and is no smaller than its distance nor than floor. */
  ghost predicate QueueSound(adj: AdjList, dist: seq<Distance>, pq: multiset<(int, int)>, floor: int)
  {
    |dist| == |adj| &&
    forall p :: p in pq ==> 0 <= p.1 < |adj| && dist[p.1].Finite? && dist[p.1].d <= p.0 && floor <= p.0
  }

  /** Each stored distance is queued at most once. */
  ghost predicate QueueUnique(adj: AdjList, dist: seq<Distance>, pq: multiset<(int, int)>)
  {
    |dist| == |adj| &&
    forall v :: 0 <= v < |adj| && dist[v].Finite? ==> pq[(dist[v].d, v)] <= 1
  }

  /** Settled nodes are reached, no farther than floor, stamped below their number, and every
      entry left for them is stale. */
  ghost predicate SettledSound(adj: AdjList, dist: seq<Distance>, pq: multiset<(int, int)>, settled: set<int>,
                               stamp: seq<int>, floor: int)
  {
    && |dist| == |adj| && |stamp| == |adj|
    && (forall u :: u in settled ==> 0 <= u < |adj| && dist[u].Finite? && dist[u].d <= floor && stamp[u] < |settled|)
    && (forall p :: p in pq && p.1 in settled ==> 0 <= p.1 < |adj| && dist[p.1].Finite? && dist[p.1].d < p.0)
  }

  /** Every reached node that is not settled has its current distance queued. */
  ghost predicate Pending(adj: AdjList, dist: seq<Distance>, pq: multiset<(int, int)>, settled: set<int>)
  {
    |dist| == |adj| &&
    forall v :: 0 <= v < |adj| && dist[v].Finite? && v !in settled ==> (dist[v].d, v) in pq
  }

  /** The node being processed, if any (active != -1), is settled at distance floor, and j is
      a position in its list. */
  ghost predicate ActiveNode(adj: AdjList, dist: seq<Distance>, settled: set<int>, floor: int, active: int, j: int)
  {
    |dist| == |adj| &&
    (active != -1 ==> active in settled && 0 <= active < |adj| && dist[active] == Finite(floor) && 0 <= j <= |adj[active]|)
  }

  /** All entries out of settled nodes are relaxed, except those of the active node from
      position j on. */
  ghost predicate Closure(adj: AdjList, dist: seq<Distance>, settled: set<int>, active: int, j: int)
  {
    && WellFormed(adj) && |dist| == |adj|
    && (forall u :: u in settled ==> 0 <= u < |adj| && dist[u].Finite?)
    && (forall u, k :: u in settled && 0 <= k < |adj[u]| && (u != active || k < j) ==> RelaxedAt(adj, dist, u, k))
  }

  /** Each link from v goes to a settled node, stamped before v once v is settled, by an entry
      whose weight is the difference of the two distances; every reached node but the start
      has a link. */
  ghost predicate Links(adj: AdjList, s: int, dist: seq<Distance>, prev: seq<int>, settled: set<int>, stamp: seq<int>)
  {
    && |dist| == |adj| && |prev| == |adj| && |stamp| == |adj|
    && (forall v {:trigger prev[v]} :: 0 <= v < |adj| && prev[v] != -1 ==>
          && 0 <= prev[v] < |adj| && prev[v] in settled && dist[v].Finite? && dist[prev[v]].Finite?
          && Edge(v, dist[v].d - dist[prev[v]].d) in adj[prev[v]])
    && (forall v {:trigger prev[v]} :: 0 <= v < |adj| && v != s && dist[v].Finite? ==> prev[v] != -1)
    && (forall v {:trigger prev[v]} :: 0 <= v < |adj| && v in settled && prev[v] != -1 ==> stamp[prev[v]] < stamp[v])
  }

  /** The invariant of the main loop. */
  ghost predicate DijkstraInv(adj: AdjList, s: int, dist: seq<Distance>, prev: seq<int>, pq: multiset<(int, int)>,
                              settled: set<int>, stamp: seq<int>, floor: int, active: int, j: int)
  {
    && Shape(adj, s, dist, prev, stamp, floor)
    && QueueSound(adj, dist, pq, floor)
    && QueueUnique(adj, dist, pq)
    && SettledSound(adj, dist, pq, settled, stamp, floor)
    && Pending(adj, dist, pq, settled)
    && ActiveNode(adj, dist, settled, floor, active, j)
    && Closure(adj, dist, settled, active, j)
    && Links(adj, s, dist, prev, settled, stamp)
  }

  /** The state before the loop: only the start is reached, at distance 0, and queued. */
  lemma DijkstraInit(adj: AdjList, s: int, dist: seq<Distance>, prev: seq<int>, stamp: seq<int>)
    requires WellFormed(adj) && NonNegative(adj) && 0 <= s < |adj|
    requires |dist| == |adj| && |prev| == |adj| && |stamp| == |adj|
    requires forall v :: 0 <= v < |adj| ==> dist[v] == (if v == s then Finite(0) else Infinite)
    requires forall v :: 0 <= v < |adj| ==> prev[v] == -1 && stamp[v] == 0
    ensures DijkstraInv(adj, s, dist, prev, multiset{(0, s)}, {}, stamp, 0, -1, 0)
  {
  }

  /** Removing the smallest entry leaves entries no smaller than it. */
  lemma PopQueue(adj: AdjList, dist: seq<Distance>, pq: multiset<(int, int)>, floor: int, top: (int, int))
    requires QueueSound(adj, dist, pq, floor) && QueueUnique(adj, dist, pq) && IsMinimum(pq, top)
    ensures QueueSound(adj, dist, pq - multiset{top}, top.0) && QueueUnique(adj, dist, pq - multiset{top})
    ensures floor <= top.0
  {
    var pq' := pq - multiset{top};
    forall p | p in pq' ensures 0 <= p.1 < |adj| && dist[p.1].Finite? && dist[p.1].d <= p.0 && top.0 <= p.0 {
      assert p in pq && PairLe(top, p);
    }
    forall v | 0 <= v < |adj| && dist[v].Finite? ensures pq'[(dist[v].d, v)] <= 1 {
      assert pq'[(dist[v].d, v)] <= pq[(dist[v].d, v)];
    }
  }

  /** Taking a stale entry, one whose distance exceeds its node's stored distance, changes only
      the queue and the floor. */
  lemma DijkstraSkip(adj: AdjList, s: int, dist: seq<Distance>, prev: seq<int>, pq: multiset<(int, int)>,
                     settled: set<int>, stamp: seq<int>, floor: int, top: (int, int))
    requires DijkstraInv(adj, s, dist, prev, pq, settled, stamp, floor, -1, 0)
    requires IsMinimum(pq, top) && top.0 > dist[top.1].d
    ensures DijkstraInv(adj, s, dist, prev, pq - multiset{top}, settled, stamp, top.0, -1, 0)
  {
    var pq' := pq - multiset{top};
    PopQueue(adj, dist, pq, floor, top);
    forall v | 0 <= v < |adj| && dist[v].Finite? && v !in settled ensures (dist[v].d, v) in pq' {
      assert (dist[v].d, v) in pq && (dist[v].d, v) != top;
    }
    forall p | p in pq' && p.1 in settled ensures 0 <= p.1 < |adj| && dist[p.1].Finite? && dist[p.1].d < p.0 {
      assert p in pq;
    }
  }

  /** Settling node u, the node of the smallest entry top, which is live: no entry is left live
      for it, and the stamps stay ordered along the links. */
  lemma SettlePieces(adj: AdjList, s: int, dist: seq<Distance>, prev: seq<int>, pq: multiset<(int, int)>,
                     settled: set<int>, stamp: seq<int>, floor: int, top: (int, int))
    requires QueueSound(adj, dist, pq, floor) && QueueUnique(adj, dist, pq)
    requires SettledSound(adj, dist, pq, settled, stamp, floor) && Links(adj, s, dist, prev, settled, stamp)
    requires IsMinimum(pq, top) && top.0 <= dist[top.1].d
    ensures top.1 !in settled && top == (dist[top.1].d, top.1)
    ensures SettledSound(adj, dist, pq - multiset{top}, settled + {top.1}, stamp[top.1 := |settled|], top.0)
    ensures Links(adj, s, dist, prev, settled + {top.1}, stamp[top.1 := |settled|])
  {
    var u := top.1;
    var pq', settled', stamp' := pq - multiset{top}, settled + {u}, stamp[u := |settled|];
    assert top in pq;
    assert u !in settled;
    forall x | x in settled' ensures 0 <= x < |adj| && dist[x].Finite? && dist[x].d <= top.0 && stamp'[x] < |settled'| {
      if x != u {
        assert PairLe(top, (dist[x].d, x)) || (dist[x].d, x) !in pq;
      }
    }
    forall p | p in pq' && p.1 in settled' ensures 0 <= p.1 < |adj| && dist[p.1].Finite? && dist[p.1].d < p.0 {
      assert p in pq;
      if p.1 == u {
        assert pq'[top] == 0;
      }
    }
    forall v | 0 <= v < |adj| && v in settled' && prev[v] != -1 ensures stamp'[prev[v]] < stamp'[v] {
      assert prev[v] in settled;
    }
  }

  /** Taking a live entry settles its node: it gets the next stamp and becomes the node whose
      entries are relaxed next. */
  lemma DijkstraSettle(adj: AdjList, s: int, dist: seq<Distance>, prev: seq<int>, pq: multiset<(int, int)>,
                       settled: set<int>, stamp: seq<int>, floor: int, top: (int, int))
    requires DijkstraInv(adj, s, dist, prev, pq, settled, stamp, floor, -1, 0)
    requires IsMinimum(pq, top) && top.0 <= dist[top.1].d
    ensures top.1 !in settled && dist[top.1] == Finite(top.0)
    ensures DijkstraInv(adj, s, dist, prev, pq - multiset{top}, settled + {top.1},
                        stamp[top.1 := |settled|], top.0, top.1, 0)
  {
    var u := top.1;
    var pq', settled' := pq - multiset{top}, settled + {u};
    PopQueue(adj, dist, pq, floor, top);
    SettlePieces(adj, s, dist, prev, pq, settled, stamp, floor, top);
    forall v | 0 <= v < |adj| && dist[v].Finite? && v !in settled' ensures (dist[v].d, v) in pq' {
      assert (dist[v].d, v) in pq && (dist[v].d, v) != top;
    }
  }

  /** Relaxing entry j of the active node u when the candidate nd through it beats the target's
      stored distance: the queue parts. */
  lemma ImproveQueue(adj: AdjList, dist: seq<Distance>, pq: multiset<(int, int)>, settled: set<int>,
                     stamp: seq<int>, floor: int, v: int, nd: int)
    requires QueueSound(adj, dist, pq, floor) && QueueUnique(adj, dist, pq)
    requires SettledSound(adj, dist, pq, settled, stamp, floor) && Pending(adj, dist, pq, settled)
    requires 0 <= v < |adj| && v !in settled && floor <= nd && Improves(nd, dist[v])
    ensures
      var dist', pq' := dist[v := Finite(nd)], pq + multiset{(nd, v)};
      && QueueSound(adj, dist', pq', floor) && QueueUnique(adj, dist', pq')
      && SettledSound(adj, dist', pq', settled, stamp, floor) && Pending(adj, dist', pq', settled)
  {
    var dist', pq' := dist[v := Finite(nd)], pq + multiset{(nd, v)};
    forall p | p in pq' ensures 0 <= p.1 < |adj| && dist'[p.1].Finite? && dist'[p.1].d <= p.0 && floor <= p.0 {
      if p != (nd, v) {
        assert p in pq;
      }
    }
    assert (nd, v) !in pq;
    forall x | 0 <= x < |adj| && dist'[x].Finite? ensures pq'[(dist'[x].d, x)] <= 1 {
      if x != v {
        assert (dist'[x].d, x) != (nd, v);
      }
    }
    forall p | p in pq' && p.1 in settled ensures 0 <= p.1 < |adj| && dist'[p.1].Finite? && dist'[p.1].d < p.0 {
      assert p in pq;
    }
    forall x | 0 <= x < |adj| && dist'[x].Finite? && x !in settled ensures (dist'[x].d, x) in pq' {
      if x != v {
        assert (dist[x].d, x) in pq;
      }
    }
  }

  /** Relaxing entry j of the active node u, whether or not it improves its target v, relaxes
      that entry and keeps the others relaxed. */
  lemma RelaxClosure(adj: AdjList, dist: seq<Distance>, settled: set<int>, floor: int, u: int, j: int, dist': seq<Distance>)
    requires Closure(adj, dist, settled, u, j)
    requires u in settled && 0 <= u < |adj| && dist[u] == Finite(floor) && 0 <= j < |adj[u]|
    requires |dist'| == |adj| && dist'[u] == dist[u]
    requires forall x :: 0 <= x < |adj| && dist[x].Finite? ==> dist'[x].Finite? && dist'[x].d <= dist[x].d
    requires forall x :: x in settled ==> dist'[x] == dist[x]
    requires dist'[adj[u][j].to].Finite? && dist'[adj[u][j].to].d <= floor + adj[u][j].weight
    ensures Closure(adj, dist', settled, u, j + 1)
  {
    forall x, k | x in settled && 0 <= k < |adj[x]| && (x != u || k < j + 1) ensures RelaxedAt(adj, dist', x, k) {
      if x != u || k < j {
        assert RelaxedAt(adj, dist, x, k);
      }
    }
  }

  /** Relaxing entry j of the active node u when it improves its target v: the links. */
  lemma ImproveLinks(adj: AdjList, s: int, dist: seq<Distance>, prev: seq<int>, settled: set<int>,
                     stamp: seq<int>, floor: int, u: int, j: int)
    requires WellFormed(adj) && Links(adj, s, dist, prev, settled, stamp)
    requires u in settled && 0 <= u < |adj| && dist[u] == Finite(floor) && 0 <= j < |adj[u]|
    requires adj[u][j].to !in settled && adj[u][j].to != s
    ensures
      var v, nd := adj[u][j].to, floor + adj[u][j].weight;
      Links(adj, s, dist[v := Finite(nd)], prev[v := u], settled, stamp)
  {
    var v, nd := adj[u][j].to, floor + adj[u][j].weight;
    var dist', prev' := dist[v := Finite(nd)], prev[v := u];
    forall x | 0 <= x < |adj| && prev'[x] != -1
      ensures && 0 <= prev'[x] < |adj| && prev'[x] in settled && dist'[x].Finite? && dist'[prev'[x]].Finite?
              && Edge(x, dist'[x].d - dist'[prev'[x]].d) in adj[prev'[x]]
    {
      if x == v {
        assert adj[u][j] == Edge(v, nd - floor);
      } else {
        assert prev[x] in settled;
      }
    }
  }

  /** Giving node v, which is not the start, the distance nd and the predecessor u keeps the
      shape of the state. */
  lemma ImproveShape(adj: AdjList, s: int, dist: seq<Distance>, prev: seq<int>, stamp: seq<int>, floor: int,
                     u: int, v: int, nd: int)
    requires Shape(adj, s, dist, prev, stamp, floor) && 0 <= v < |adj| && v != s
    ensures Shape(adj, s, dist[v := Finite(nd)], prev[v := u], stamp, floor)
  {
  }

  /** A target whose distance improves through the active node is neither settled nor the
      start: those are no farther than floor, and weights are non-negative. */
  lemma ImproveTarget(adj: AdjList, s: int, dist: seq<Distance>, prev: seq<int>, pq: multiset<(int, int)>,
                      settled: set<int>, stamp: seq<int>, floor: int, u: int, j: int, v: int, nd: int)
    requires 0 <= u < |adj| && 0 <= j < |adj[u]| && v == adj[u][j].to && nd == floor + adj[u][j].weight
    requires Shape(adj, s, dist, prev, stamp, floor) && SettledSound(adj, dist, pq, settled, stamp, floor)
    requires Improves(nd, dist[v])
    ensures 0 <= v < |adj| && floor <= nd && v !in settled && v != s
  {
    assert adj[u][j].weight >= 0;
  }

  /** Relaxing the j-th entry of the active node when the candidate distance through it beats
      the target's stored distance: the target v gets that distance nd, the active node as its
      predecessor, and a queue entry. */
  lemma DijkstraImprove(adj: AdjList, s: int, dist: seq<Distance>, prev: seq<int>, pq: multiset<(int, int)>,
                        settled: set<int>, stamp: seq<int>, floor: int, u: int, j: int, v: int, nd: int)
    requires 0 <= u < |adj| && 0 <= j < |adj[u]| && v == adj[u][j].to && nd == floor + adj[u][j].weight
    requires DijkstraInv(adj, s, dist, prev, pq, settled, stamp, floor, u, j)
    requires Improves(nd, dist[v])
    ensures DijkstraInv(adj, s, dist[v := Finite(nd)], prev[v := u], pq + multiset{(nd, v)}, settled, stamp, floor, u, j + 1)
  {
    ImproveTarget(adj, s, dist, prev, pq, settled, stamp, floor, u, j, v, nd);
    ImproveShape(adj, s, dist, prev, stamp, floor, u, v, nd);
    ImproveQueue(adj, dist, pq, settled, stamp, floor, v, nd);
    ImproveLinks(adj, s, dist, prev, settled, stamp, floor, u, j);
    RelaxClosure(adj, dist, settled, floor, u, j, dist[v := Finite(nd)]);
  }

  /** Relaxing the j-th entry of the active node when it does not improve its target changes
      nothing: the entry was relaxed already. */
  lemma DijkstraKeep(adj: AdjList, s: int, dist: seq<Distance>, prev: seq<int>, pq: multiset<(int, int)>,
                     settled: set<int>, stamp: seq<int>, floor: int, u: int, j: int)
    requires u != -1 && DijkstraInv(adj, s, dist, prev, pq, settled, stamp, floor, u, j) && j < |adj[u]|
    requires !Improves(floor + adj[u][j].weight, dist[adj[u][j].to])
    ensures DijkstraInv(adj, s, dist, prev, pq, settled, stamp, floor, u, j + 1)
  {
    RelaxClosure(adj, dist, settled, floor, u, j, dist);
  }

  /** The distances, links and queue after relaxing the entries of u's list from position j
      on, u being at distance du: each entry whose target's distance through u beats the stored
      one gives the target that distance, u as its predecessor and a queue entry. */
  function RelaxFrom(adj: AdjList, u: int, du: int, j: int, dist: seq<Distance>, prev: seq<int>, pq: multiset<(int, int)>)
    : (r: (seq<Distance>, seq<int>, multiset<(int, int)>))
    requires WellFormed(adj) && 0 <= u < |adj| && 0 <= j <= |adj[u]| && |dist| == |adj| && |prev| == |adj|
    ensures |r.0| == |adj| && |r.1| == |adj|
    decreases |adj[u]| - j
  {
    if j == |adj[u]| then (dist, prev, pq)
    else
      var e := adj[u][j];
      var nd := du + e.weight;
      if Improves(nd, dist[e.to])
      then RelaxFrom(adj, u, du, j + 1, dist[e.to := Finite(nd)], prev[e.to := u], pq + multiset{(nd, e.to)})
      else RelaxFrom(adj, u, du, j + 1, dist, prev, pq)
  }

  /** Distance a is no greater than distance b; everything is below infinity. */
  predicate AtMost(a: Distance, b: Distance)
  {
    b.Infinite? || (a.Finite? && a.d <= b.d)
  }

  /** No entry of dist' is greater than the same entry of dist. */
  ghost predicate NoLonger(dist': seq<Distance>, dist: seq<Distance>)
  {
    |dist'| == |dist| && forall v :: 0 <= v < |dist| ==> AtMost(dist'[v], dist[v])
  }

  /** Relaxing never makes a stored distance longer. */
  lemma {:induction false} RelaxFromNoLonger(adj: AdjList, u: int, du: int, j: int, dist: seq<Distance>, prev: seq<int>, pq: multiset<(int, int)>)
    requires WellFormed(adj) && 0 <= u < |adj| && 0 <= j <= |adj[u]| && |dist| == |adj| && |prev| == |adj|
    ensures NoLonger(RelaxFrom(adj, u, du, j, dist, prev, pq).0, dist)
    decreases |adj[u]| - j
  {
    if j < |adj[u]| {
      var e := adj[u][j];
      var nd := du + e.weight;
      if Improves(nd, dist[e.to]) {
        var dist' := dist[e.to := Finite(nd)];
        RelaxFromNoLonger(adj, u, du, j + 1, dist', prev[e.to := u], pq + multiset{(nd, e.to)});
        assert NoLonger(dist', dist);
      } else {
        RelaxFromNoLonger(adj, u, du, j + 1, dist, prev, pq);
      }
    }
  }

  /** Relaxing the rest of the active node's entries keeps the invariant and ends its turn. */
  lemma {:induction false} RelaxFromInv(adj: AdjList, s: int, dist: seq<Distance>, prev: seq<int>, pq: multiset<(int, int)>,
                                        settled: set<int>, stamp: seq<int>, floor: int, u: int, j: int)
    requires u != -1 && DijkstraInv(adj, s, dist, prev, pq, settled, stamp, floor, u, j)
    ensures
      var r := RelaxFrom(adj, u, floor, j, dist, prev, pq);
      DijkstraInv(adj, s, r.0, r.1, r.2, settled, stamp, floor, -1, 0)
    decreases |adj[u]| - j
  {
    if j == |adj[u]| {
      DijkstraFinishNode(adj, s, dist, prev, pq, settled, stamp, floor, u, j);
    } else {
      var e := adj[u][j];
      var nd := floor + e.weight;
      if Improves(nd, dist[e.to]) {
        var dist', prev', pq' := dist[e.to := Finite(nd)], prev[e.to := u], pq + multiset{(nd, e.to)};
        assert RelaxFrom(adj, u, floor, j, dist, prev, pq) == RelaxFrom(adj, u, floor, j + 1, dist', prev', pq');
        DijkstraImprove(adj, s, dist, prev, pq, settled, stamp, floor, u, j, e.to, nd);
        RelaxFromInv(adj, s, dist', prev', pq', settled, stamp, floor, u, j + 1);
      } else {
        assert RelaxFrom(adj, u, floor, j, dist, prev, pq) == RelaxFrom(adj, u, floor, j + 1, dist, prev, pq);
        DijkstraKeep(adj, s, dist, prev, pq, settled, stamp, floor, u, j);
        RelaxFromInv(adj, s, dist, prev, pq, settled, stamp, floor, u, j + 1);
      }
    }
  }

  /** Once all its entries are relaxed, the active node is done. */
  lemma DijkstraFinishNode(adj: AdjList, s: int, dist: seq<Distance>, prev: seq<int>, pq: multiset<(int, int)>,
                           settled: set<int>, stamp: seq<int>, floor: int, u: int, j: int)
    requires u != -1 && DijkstraInv(adj, s, dist, prev, pq, settled, stamp, floor, u, j) && j == |adj[u]|
    ensures DijkstraInv(adj, s, dist, prev, pq, settled, stamp, floor, -1, 0)
  {
  }

  /** The number of settled nodes bounds the loop. */
  lemma SettledBound(adj: AdjList, s: int, dist: seq<Distance>, prev: seq<int>, pq: multiset<(int, int)>,
                     settled: set<int>, stamp: seq<int>, floor: int, active: int, j: int)
    requires DijkstraInv(adj, s, dist, prev, pq, settled, stamp, floor, active, j)
    ensures |settled| <= |adj|
  {
    InRangeCard(settled, |adj|);
  }

  /** A walk from s, where s is at distance 0 and every entry out of a reached node is
      relaxed, ends at a reached node whose distance is at most the walk's weight. */
  lemma RelaxedWalk(adj: AdjList, s: int, dist: seq<Distance>, p: seq<int>, ws: seq<int>)
    requires WellFormed(adj) && |dist| == |adj| && 0 <= s < |adj| && dist[s] == Finite(0)
    requires forall u, k :: 0 <= u < |adj| && dist[u].Finite? && 0 <= k < |adj[u]| ==> RelaxedAt(adj, dist, u, k)
    requires IsWalk(adj, p, ws) && p[0] == s
    ensures dist[p[|p| - 1]].Finite? && dist[p[|p| - 1]].d <= Sum(ws)
  {
    var i := 0;
    while i < |ws|
      invariant 0 <= i <= |ws|
      invariant dist[p[i]].Finite? && dist[p[i]].d <= Sum(ws[..i])
    {
      var k :| 0 <= k < |adj[p[i]]| && adj[p[i]][k] == Edge(p[i + 1], ws[i]);
      assert RelaxedAt(adj, dist, p[i], k);
      assert ws[..i + 1] == ws[..i] + [ws[i]];
      SumAppend(ws[..i], ws[i]);
      i := i + 1;
    }
    assert ws[..i] == ws;
  }

  /** Following the predecessor links back from a reached node gives a walk from the start
      whose weight is the node's distance. */
  lemma TreeWalk(adj: AdjList, s: int, dist: seq<Distance>, prev: seq<int>, stamp: seq<int>, v: int)
      returns (path: seq<int>, ws: seq<int>)
    requires PathTree(adj, s, dist, prev, stamp) && 0 <= v < |adj| && dist[v].Finite?
    ensures IsWalk(adj, path, ws) && path[0] == s && path[|path| - 1] == v && Sum(ws) == dist[v].d
    decreases stamp[v]
  {
    if v == s {
      path, ws := [s], [];
    } else {
      var u := prev[v];
      var p', ws' := TreeWalk(adj, s, dist, prev, stamp, u);
      WalkExtend(adj, p', ws', v, dist[v].d - dist[u].d);
      path, ws := p' + [v], ws' + [dist[v].d - dist[u].d];
    }
  }

  /** With the queue empty every reached node is settled, so all entries out of reached nodes
      are relaxed: each distance is finite exactly for the reachable nodes and is then the
      shortest, and the predecessor links form a tree of such walks. */
  lemma DijkstraDone(adj: AdjList, s: int, dist: seq<Distance>, prev: seq<int>,
                     settled: set<int>, stamp: seq<int>, floor: int)
    requires DijkstraInv(adj, s, dist, prev, multiset{}, settled, stamp, floor, -1, 0)
    ensures ShortestDistances(adj, s, dist)
    ensures PathTree(adj, s, dist, prev, stamp)
  {
    forall u, k | 0 <= u < |adj| && dist[u].Finite? && 0 <= k < |adj[u]| ensures RelaxedAt(adj, dist, u, k) {
      assert u in settled;
    }
    forall v | 0 <= v < |adj| && prev[v] != -1 ensures stamp[prev[v]] < stamp[v] {
      assert v in settled;
    }
    assert PathTree(adj, s, dist, prev, stamp);
    forall v | 0 <= v < |adj|
      ensures (dist[v].Finite? <==> Reachable(adj, s, v))
      ensures (dist[v].Finite? ==> IsShortest(adj, s, v, dist[v].d))
    {
      if dist[v].Finite? {
        var path, ws := TreeWalk(adj, s, dist, prev, stamp, v);
        forall p, ws' | IsWalk(adj, p, ws') && p[0] == s && p[|p| - 1] == v ensures dist[v].d <= Sum(ws') {
          RelaxedWalk(adj, s, dist, p, ws');
        }
      } else if Reachable(adj, s, v) {
        var p, ws :| IsWalk(adj, p, ws) && p[0] == s && p[|p| - 1] == v;
        RelaxedWalk(adj, s, dist, p, ws);
      }
    }
  }
}
