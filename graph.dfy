/** The graph object: node names, the name-to-index map, and adjacency lists of weighted
    entries. It is loaded from a text, printed back in the same format, and queried by the
    topological sort, single-source shortest paths and the minimum spanning tree. */
module Graphs {
  import opened Seqs
  import opened Digraphs
  import opened GraphTexts
  import opened Topological
  import opened ShortestPaths
  import opened Connectivity
  import opened SpanningTrees
  import DisjointSets

  class Graph {
    var numNodes: int
    var adjList: seq<seq<Edge>>
    var nodeNameToIndex: map<string, int>
    var indexToNodeName: seq<string>

    /** The fields agree: one list and one name per node, every entry points at a node, and the
        map sends each mapped name to a node carrying that name, with every node's name mapped. */
    ghost predicate Valid()
      reads this
    {
      && numNodes == |adjList| == |indexToNodeName|
      && WellFormed(adjList)
      && (forall x :: x in nodeNameToIndex ==>
            0 <= nodeNameToIndex[x] < numNodes && indexToNodeName[nodeNameToIndex[x]] == x)
      && (forall i :: 0 <= i < numNodes ==> indexToNodeName[i] in nodeNameToIndex)
    }

    /** The state after loading text: its names in order, each name mapped to its last
        position, and one entry per resolving edge line, appended to its source's list. */
    ghost predicate Loaded(text: GraphText)
      reads this
    {
      && numNodes == |text.names|
      && indexToNodeName == text.names
      && nodeNameToIndex == NameIndex(text.names)
      && adjList == LoadedAdj(text)
    }

    /** An empty graph. */
    constructor ()
      ensures Valid()
      ensures numNodes == 0 && adjList == [] && nodeNameToIndex == map[] && indexToNodeName == []
    {
      numNodes := 0;
      adjList := [];
      nodeNameToIndex := map[];
      indexToNodeName := [];
    }

    /** Forgets the current graph. */
    method ResetGraph()
      modifies this
      ensures Valid()
      ensures numNodes == 0 && adjList == [] && nodeNameToIndex == map[] && indexToNodeName == []
    {
      numNodes := 0;
      adjList := [];
      nodeNameToIndex := map[];
      indexToNodeName := [];
    }

    /** The index of the node called name, or -1 when no node is. */
    function GetNodeIndex(name: string): (r: int)
      reads this
      ensures name in nodeNameToIndex ==> r == nodeNameToIndex[name]
      ensures name !in nodeNameToIndex ==> r == -1
      ensures Valid() ==> (r == -1 <==> name !in indexToNodeName)
      ensures Valid() && r != -1 ==> 0 <= r < numNodes && indexToNodeName[r] == name
    {
      if name in nodeNameToIndex then nodeNameToIndex[name] else -1
    }

    /** Loads a graph. A source that cannot be opened is reported and leaves the graph as it
        was; otherwise the old graph is replaced by the one the text describes. */
    method ReadGraph(src: Source) returns (ok: bool)
      modifies this
      ensures src.Unopenable? ==> !ok && unchanged(this)
      ensures src.Opened? ==> ok && Valid() && Loaded(src.text)
    {
      if src.Unopenable? {
        return false;
      }
      var text := src.text;
      ResetGraph();

      numNodes := |text.names|;
      var names := seq(numNodes, _ => "");
      var index: map<string, int> := map[];
      var i := 0;
      while i < numNodes
        invariant 0 <= i <= numNodes == |text.names| == |names|
        invariant names[..i] == text.names[..i]
        invariant index == NameIndex(text.names[..i])
        invariant forall x :: x in index ==> 0 <= index[x] < i
      {
        names := names[i := text.names[i]];
        index := index[names[i] := i];
        assert text.names[..i + 1][..i] == text.names[..i];
        i := i + 1;
      }
      assert names == names[..i] && text.names == text.names[..i];
      indexToNodeName := names;
      nodeNameToIndex := index;

      var adj: seq<seq<Edge>> := seq(numNodes, _ => []);
      var k := 0;
      while k < |text.edges|
        invariant 0 <= k <= |text.edges| && |adj| == numNodes
        invariant forall u :: 0 <= u < numNodes ==> adj[u] == Outgoing(index, text.edges[..k], u)
      {
        var line := text.edges[k];
        var fromIndex := GetNodeIndex(line.from);
        var toIndex := GetNodeIndex(line.to);
        if fromIndex != -1 && toIndex != -1 {
          adj := adj[fromIndex := adj[fromIndex] + [Edge(toIndex, line.weight)]];
        }
        forall u | 0 <= u < numNodes ensures adj[u] == Outgoing(index, text.edges[..k + 1], u) {
          OutgoingSnoc(index, text.edges, k, u);
        }
        k := k + 1;
      }
      assert text.edges[..k] == text.edges;
      assert adj == LoadedAdj(text);
      adjList := adj;
      NameIndexLast(text.names);
      LoadedWellFormed(text);
      ok := true;
    }

    /** The text the graph prints as: its names in index order, then one edge line per
        adjacency entry, by ascending source and in list order within a source. Loading the
        printed text of a graph whose names are all different gives the same graph back. */
    method PrintGraph() returns (text: GraphText)
      requires Valid()
      ensures text == Dump(indexToNodeName, adjList)
      ensures |text.edges| == TotalLength(adjList)
      ensures Distinct(indexToNodeName) ==> NameIndex(text.names) == nodeNameToIndex && LoadedAdj(text) == adjList
    {
      var edges: seq<EdgeLine> := [];
      var from := 0;
      while from < numNodes
        invariant 0 <= from <= numNodes
        invariant edges == DumpLines(indexToNodeName, adjList, from)
      {
        var list := adjList[from];
        var j := 0;
        while j < |list|
          invariant 0 <= j <= |list|
          invariant edges == DumpLines(indexToNodeName, adjList, from) + LinesOf(indexToNodeName, from, list[..j])
        {
          var edge := list[j];
          assert LinesOf(indexToNodeName, from, list[..j + 1])
              == LinesOf(indexToNodeName, from, list[..j]) + [EdgeLine(indexToNodeName[from], indexToNodeName[edge.to], edge.weight)];
          edges := edges + [EdgeLine(indexToNodeName[from], indexToNodeName[edge.to], edge.weight)];
          j := j + 1;
        }
        assert list[..j] == list;
        from := from + 1;
      }
      text := GraphText(indexToNodeName, edges);
      DumpLinesLength(indexToNodeName, adjList, numNodes);
      assert adjList[..numNodes] == adjList;
      if Distinct(indexToNodeName) {
        DumpRoundTrip(indexToNodeName, adjList);
        NamesMapped(indexToNodeName);
      }
    }

    /** The in-degree of every node, counted by going once over every adjacency entry. */
    method ComputeInDegrees() returns (inDegree: seq<int>)
      requires Valid()
      ensures |inDegree| == numNodes
      ensures forall v :: 0 <= v < numNodes ==> inDegree[v] == InDegree(adjList, v)
    {
      inDegree := seq(numNodes, _ => 0);
      var u := 0;
      while u < numNodes
        invariant 0 <= u <= numNodes && |inDegree| == numNodes
        invariant forall v :: 0 <= v < numNodes ==> inDegree[v] == InCountOutside(adjList, {}, v, u)
      {
        var edges := adjList[u];
        var j := 0;
        while j < |edges|
          invariant 0 <= j <= |edges| && |inDegree| == numNodes
          invariant forall v :: 0 <= v < numNodes ==>
            inDegree[v] == InCountOutside(adjList, {}, v, u) + CountTo(edges[..j], v)
        {
          var t := edges[j].to;
          forall v | 0 <= v < numNodes
            ensures CountTo(edges[..j + 1], v) == CountTo(edges[..j], v) + (if t == v then 1 else 0)
          {
            CountToPrefix(edges, j, v);
          }
          inDegree := inDegree[t := inDegree[t] + 1];
          j := j + 1;
        }
        assert edges[..j] == edges;
        u := u + 1;
      }
    }

    /** Kahn's algorithm. Nodes of in-degree zero are queued in ascending order; each node taken
        from the front of the queue is appended to the order, and the in-degree of each of its
        targets drops by one, queueing the target when it reaches zero. No node is emitted twice;
        the order is complete exactly when the graph has no cycle, and then every edge goes
        forward in it. */
    method ComputeTopologicalSort() returns (topOrder: seq<int>, sorted: bool)
      requires Valid()
      ensures Distinct(topOrder)
      ensures forall k :: 0 <= k < |topOrder| ==> 0 <= topOrder[k] < numNodes
      ensures sorted <==> |topOrder| == numNodes
      ensures sorted ==> IsTopologicalOrder(adjList, topOrder)
      ensures sorted <==> !HasCycle(adjList)
      ensures KahnTrace(adjList, topOrder)
      ensures |Seeds(adjList)| <= |topOrder| && topOrder[..|Seeds(adjList)|] == Seeds(adjList)
    {
      var inDegree := ComputeInDegrees();
      var q := ZeroInDegreeQueue(inDegree);
      assert inDegree == Remaining(adjList, []) by {
        assert Elements<int>([]) == {};
      }
      KahnQueueStart(adjList);
      assert Distinct(q);
      DistinctInRange(q, numNodes);
      topOrder := [];
      ghost var done: set<int> := {};
      assert [] + q == q;
      while q != []
        invariant KahnInv(adjList, topOrder, q, inDegree, done)
        invariant KahnQueue(adjList, topOrder, q)
        invariant |topOrder| <= numNodes
        decreases numNodes - |topOrder|
      {
        KahnRoom(adjList, topOrder, q, inDegree, done);
        topOrder, q, inDegree, done := KahnRound(topOrder, q, inDegree, done);
      }
      sorted := |topOrder| == numNodes;
      KahnOutcome(adjList, topOrder, inDegree, done);
      KahnQueueDone(adjList, topOrder);
    }

    /** One round of Kahn's algorithm: the queue's front is emitted, and the targets it
        releases are queued, in entry order. */
    method KahnRound(topOrder: seq<int>, q: seq<int>, inDegree: seq<int>, ghost done: set<int>)
      returns (topOrder': seq<int>, q': seq<int>, inDegree': seq<int>, ghost done': set<int>)
      requires Valid() && q != []
      requires KahnInv(adjList, topOrder, q, inDegree, done) && KahnQueue(adjList, topOrder, q)
      ensures topOrder' == topOrder + [q[0]]
      ensures KahnInv(adjList, topOrder', q', inDegree', done') && KahnQueue(adjList, topOrder', q')
    {
      KahnRoom(adjList, topOrder, q, inDegree, done);
      KahnRemaining(adjList, topOrder, q, inDegree, done);
      var node := q[0];
      var rest := q[1..];
      topOrder', done' := topOrder + [node], done + {node};
      inDegree', q' := DecrementTargets(node, inDegree, rest);
      ReleaseDone(adjList[node], inDegree, inDegree', q'[|rest|..]);
      assert q' == rest + q'[|rest|..];
      KahnStep(adjList, topOrder, q, inDegree, done, inDegree', q'[|rest|..]);
      KahnQueueStep(adjList, topOrder, q, q'[|rest|..]);
    }

    /** The line the topological sort prints: the node names of a topological order with an
        arrow between consecutive ones, or a notice when the graph has a cycle. */
    method TopologicalSortText() returns (text: string)
      requires Valid()
      ensures HasCycle(adjList) ==> text == NotSortable
      ensures !HasCycle(adjList) ==> exists order ::
        && IsTopologicalOrder(adjList, order) && KahnTrace(adjList, order)
        && text == Joined(NamesOf(indexToNodeName, order), Arrow) + "\n"
    {
      var topOrder, sorted := ComputeTopologicalSort();
      if !sorted {
        return NotSortable;
      }
      var line := OrderLine(topOrder);
      text := line + "\n";
    }

    /** The names of the nodes of order with an arrow between consecutive ones, built as the
        topological sort prints them, with the arrow test made on positions. */
    method OrderLine(order: seq<int>) returns (line: string)
      requires Valid()
      requires forall k :: 0 <= k < |order| ==> 0 <= order[k] < numNodes
      ensures line == Joined(NamesOf(indexToNodeName, order), Arrow)
    {
      line := "";
      var k := 0;
      while k < |order|
        invariant 0 <= k <= |order|
        invariant line == OrderLinePrefix(indexToNodeName, order, k)
      {
        line := line + indexToNodeName[order[k]];
        if k != |order| - 1 {
          line := line + Arrow;
        }
        k := k + 1;
      }
      OrderLineJoined(indexToNodeName, order);
    }

    /** The nodes of in-degree zero, in ascending order: the queue Kahn's algorithm starts from. */
    method ZeroInDegreeQueue(inDegree: seq<int>) returns (q: seq<int>)
      requires |inDegree| == numNodes
      ensures forall a, b :: 0 <= a < b < |q| ==> q[a] < q[b]
      ensures forall k :: 0 <= k < |q| ==> 0 <= q[k] < numNodes
      ensures forall v :: 0 <= v < numNodes ==> (v in q <==> inDegree[v] == 0)
      ensures q == ZeroNodes(inDegree, numNodes)
    {
      q := [];
      var i := 0;
      while i < numNodes
        invariant 0 <= i <= numNodes && q == ZeroNodes(inDegree, i)
      {
        if inDegree[i] == 0 {
          q := q + [i];
        }
        i := i + 1;
      }
      ZeroNodesFacts(inDegree, numNodes);
    }

    /** Removes node's entries from the in-degrees (it is the step of Kahn's algorithm after
        node is emitted): every target's in-degree drops by the number of entries pointing at
        it, and each target whose in-degree reaches zero is queued once, in entry order. */
    method DecrementTargets(node: int, inDegree: seq<int>, q: seq<int>) returns (inDegree': seq<int>, q': seq<int>)
      requires numNodes == |adjList| && WellFormed(adjList)
      requires 0 <= node < numNodes && |inDegree| == numNodes
      requires forall v :: 0 <= v < numNodes ==> CountTo(adjList[node], v) <= inDegree[v]
      ensures |q| <= |q'| && q'[..|q|] == q
      ensures ReleaseInv(adjList[node], inDegree, |adjList[node]|, inDegree', q'[|q|..])
    {
      var edges := adjList[node];
      assert PointsBelow(edges, |inDegree|) && CountsFit(edges, inDegree);
      inDegree', q' := inDegree, q;
      ghost var pushed: seq<int> := [];
      ReleaseStart(edges, inDegree);
      var j := 0;
      while j < |edges|
        invariant 0 <= j <= |edges| && |inDegree'| == |inDegree|
        invariant ReleaseInv(edges, inDegree, j, inDegree', pushed)
        invariant q' == q + pushed
      {
        var t := edges[j].to;
        ghost var d'', pushed' := ReleaseStep(edges, inDegree, j, inDegree', pushed);
        inDegree' := inDegree'[t := inDegree'[t] - 1];
        if inDegree'[t] == 0 {
          AppendAssoc(q, pushed, [t]);
          q' := q' + [t];
        }
        pushed := pushed';
        j := j + 1;
      }
      AppendHalves(q, pushed);
    }

    /** Single-source shortest paths by Dijkstra's algorithm. An unknown start is reported;
        otherwise every other node, in ascending order, gets a report: no path when it is
        unreachable, else a shortest walk from the start and its weight. Entry weights must be
        non-negative. */
    method ComputeShortestPaths(startNode: string) returns (r: PathsOutcome)
      requires Valid() && NonNegative(adjList)
      ensures r.StartNotFound? <==> startNode !in indexToNodeName
      ensures r.Found? ==> r.start == GetNodeIndex(startNode) && indexToNodeName[r.start] == startNode
      ensures r.Found? ==> ShortestDistances(adjList, r.start, r.distances)
      ensures r.Found? ==> ReportsMatch(adjList, r.start, r.reports)
      ensures r.Found? ==> exists prev, stamp ::
        PathTree(adjList, r.start, r.distances, prev, stamp) && ReportsOnChain(prev, r.reports)
    {
      var startIndex := GetNodeIndex(startNode);
      if startIndex == -1 {
        return StartNotFound;
      }
      var distances, previous, stamp := ShortestDistancesFrom(startIndex);
      var reports := ReportPaths(startIndex, distances, previous, stamp);
      r := Found(startIndex, distances, reports);
      assert PathTree(adjList, r.start, r.distances, previous, stamp) && ReportsOnChain(previous, r.reports);
    }

    /** The main loop of Dijkstra's algorithm: repeatedly take the smallest (distance, node)
        entry from the queue, skip it when stale, and otherwise relax every entry out of its
        node, queueing each target whose distance improves. It leaves the shortest distances
        and predecessor links along shortest walks. */
    method ShortestDistancesFrom(s: int) returns (dist: seq<Distance>, prev: seq<int>, ghost stamp: seq<int>)
      requires numNodes == |adjList| && WellFormed(adjList) && NonNegative(adjList) && 0 <= s < numNodes
      ensures ShortestDistances(adjList, s, dist)
      ensures PathTree(adjList, s, dist, prev, stamp)
    {
      dist := seq(numNodes, v => if v == s then Finite(0) else Infinite);
      prev := seq(numNodes, v => -1);
      stamp := seq(numNodes, v => 0);
      var pq: multiset<(int, int)> := multiset{(0, s)};
      ghost var settled: set<int> := {};
      ghost var floor := 0;
      DijkstraInit(adjList, s, dist, prev, stamp);
      while |pq| > 0
        invariant DijkstraInv(adjList, s, dist, prev, pq, settled, stamp, floor, -1, 0)
        decreases numNodes - |settled|, |pq|
      {
        SettledBound(adjList, s, dist, prev, pq, settled, stamp, floor, -1, 0);
        dist, prev, pq, settled, stamp, floor := DijkstraRound(s, dist, prev, pq, settled, stamp, floor);
      }
      DijkstraDone(adjList, s, dist, prev, settled, stamp, floor);
    }

    /** One round of the main loop: take the smallest entry from the queue; when it is stale
        nothing else happens, otherwise its node is settled and its entries are relaxed. */
    method DijkstraRound(s: int, dist: seq<Distance>, prev: seq<int>, pq: multiset<(int, int)>,
                         ghost settled: set<int>, ghost stamp: seq<int>, ghost floor: int)
        returns (dist': seq<Distance>, prev': seq<int>, pq': multiset<(int, int)>,
                 ghost settled': set<int>, ghost stamp': seq<int>, ghost floor': int)
      requires numNodes == |adjList| && |pq| > 0
      requires DijkstraInv(adjList, s, dist, prev, pq, settled, stamp, floor, -1, 0)
      ensures DijkstraInv(adjList, s, dist', prev', pq', settled', stamp', floor', -1, 0)
      ensures (settled' == settled && |pq'| < |pq|) || |settled| < |settled'|
      ensures NoLonger(dist', dist)
    {
      ghost var m := MinimumExists(pq);
      var top :| top in pq && IsMinimum(pq, top);
      var (currentDistance, currentIndex) := top;
      if currentDistance > dist[currentIndex].d {
        DijkstraSkip(adjList, s, dist, prev, pq, settled, stamp, floor, top);
        return dist, prev, pq - multiset{top}, settled, stamp, currentDistance;
      }
      DijkstraSettle(adjList, s, dist, prev, pq, settled, stamp, floor, top);
      settled' := settled + {currentIndex};
      stamp' := stamp[currentIndex := |settled|];
      floor' := currentDistance;
      RelaxFromInv(adjList, s, dist, prev, pq - multiset{top}, settled', stamp', floor', currentIndex, 0);
      RelaxFromNoLonger(adjList, currentIndex, currentDistance, 0, dist, prev, pq - multiset{top});
      dist', prev', pq' := RelaxEdges(currentIndex, currentDistance, dist, prev, pq - multiset{top});
    }

    /** Relaxes every entry out of node u, at distance du: each target whose distance through u
        beats its stored one gets that distance, u as its predecessor and a new queue entry. */
    method RelaxEdges(u: int, du: int, dist: seq<Distance>, prev: seq<int>, pq: multiset<(int, int)>)
        returns (dist': seq<Distance>, prev': seq<int>, pq': multiset<(int, int)>)
      requires numNodes == |adjList| && WellFormed(adjList) && 0 <= u < numNodes && |dist| == numNodes && |prev| == numNodes
      ensures (dist', prev', pq') == RelaxFrom(adjList, u, du, 0, dist, prev, pq)
    {
      dist', prev', pq' := dist, prev, pq;
      var j := 0;
      while j < |adjList[u]|
        invariant 0 <= j <= |adjList[u]| && |dist'| == numNodes && |prev'| == numNodes
        invariant RelaxFrom(adjList, u, du, j, dist', prev', pq') == RelaxFrom(adjList, u, du, 0, dist, prev, pq)
      {
        var edge := adjList[u][j];
        var newDistance := du + edge.weight;
        if Improves(newDistance, dist'[edge.to]) {
          dist' := dist'[edge.to := Finite(newDistance)];
          prev' := prev'[edge.to := u];
          pq' := pq' + multiset{(newDistance, edge.to)};
        }
        j := j + 1;
      }
    }

    /** One report per node other than the start, in ascending order of node. */
    method ReportPaths(s: int, dist: seq<Distance>, prev: seq<int>, ghost stamp: seq<int>) returns (reports: seq<Report>)
      requires numNodes == |adjList| && 0 <= s < numNodes
      requires ShortestDistances(adjList, s, dist) && PathTree(adjList, s, dist, prev, stamp)
      ensures ReportsMatch(adjList, s, reports)
      ensures ReportsOnChain(prev, reports)
    {
      reports := [];
      var i := 0;
      while i < numNodes
        invariant 0 <= i <= numNodes
        invariant |reports| == if i <= s then i else i - 1
        invariant forall k :: 0 <= k < |reports| ==> ReportOk(adjList, s, k, reports[k])
        invariant ReportsOnChain(prev, reports)
      {
        if i != s {
          var report;
          if dist[i].Infinite? {
            report := NoPathTo(i);
          } else {
            var path := TracePath(s, dist, prev, stamp, i);
            assert OnPredecessorChain(prev, path);
            report := PathTo(i, path, dist[i].d);
          }
          assert ReportOk(adjList, s, |reports|, report);
          reports := reports + [report];
        }
        i := i + 1;
      }
    }

    /** Follows the predecessor links back from node i to the start; the nodes met, in walk
        order, form a walk from the start to i whose weight is i's distance. */
    method TracePath(s: int, dist: seq<Distance>, prev: seq<int>, ghost stamp: seq<int>, i: int) returns (path: seq<int>)
      requires numNodes == |adjList| && PathTree(adjList, s, dist, prev, stamp) && 0 <= i < numNodes && dist[i].Finite?
      ensures WalkOfWeight(adjList, path, s, i, dist[i].d)
      ensures forall k :: 0 < k < |path| ==> 0 <= path[k] < numNodes && prev[path[k]] == path[k - 1]
    {
      path := [];
      ghost var ws: seq<int> := [];
      var at := i;
      while at != -1
        invariant at == -1 || (0 <= at < numNodes && dist[at].Finite?)
        invariant path == [] ==> at == i && ws == []
        invariant forall k :: 0 < k < |path| ==> 0 <= path[k] < numNodes && prev[path[k]] == path[k - 1]
        invariant path != [] ==>
          && IsWalk(adjList, path, ws) && path[|path| - 1] == i && dist[path[0]].Finite?
          && Sum(ws) == dist[i].d - dist[path[0]].d && at == prev[path[0]]
        decreases if at == -1 then 0 else stamp[at] + 1
      {
        if path != [] {
          var w := dist[path[0]].d - dist[at].d;
          WalkPrepend(adjList, at, w, path, ws);
          ws := [w] + ws;
        }
        path := [at] + path;
        at := prev[at];
      }
    }

    /** With no repeated names, the map of a valid graph is the one loading its names builds. */
    lemma NamesMapped(names: seq<string>)
      requires Valid() && names == indexToNodeName && Distinct(names)
      ensures NameIndex(names) == nodeNameToIndex
    {
      NameIndexDistinct(names);
      NameIndexLast(names);
      var m := NameIndex(names);
      forall x | x in m ensures x in nodeNameToIndex && nodeNameToIndex[x] == m[x] {
        var i := m[x];
        assert names[i] == x;
        var j := nodeNameToIndex[x];
        assert names[j] == x;
      }
      forall x | x in nodeNameToIndex ensures x in m {
        assert names[nodeNameToIndex[x]] == x;
      }
    }

    /** The candidate list of Kruskal's algorithm, gathered node by node in entry order: each
        entry to a higher-numbered node, as (weight, from, to). */
    method CollectCandidates() returns (edges: seq<Candidate>)
      requires numNodes == |adjList|
      ensures edges == Candidates(adjList)
    {
      edges := [];
      var from := 0;
      while from < numNodes
        invariant 0 <= from <= numNodes
        invariant edges == CandidatesBelow(adjList, from)
      {
        var es := adjList[from];
        var j := 0;
        while j < |es|
          invariant 0 <= j <= |es|
          invariant edges == CandidatesBelow(adjList, from) + ListCandidates(from, es[..j])
        {
          var e := es[j];
          assert es[..j + 1][..j] == es[..j];
          if from < e.to {
            edges := edges + [(e.weight, from, e.to)];
          }
          j := j + 1;
        }
        assert es[..j] == es;
        from := from + 1;
      }
    }

    /** Kruskal's algorithm over the entries read as undirected edges. The candidates are
        sorted by weight, then source, then target; a candidate whose ends the union-find
        structure places in different sets is merged and recorded as (from, to, weight), with
        its weight added to the total. The recorded edges form a forest, are taken in sorted
        order, connect exactly what the candidates connect, and number one fewer than the nodes
        of each component. */
    method ComputeMinimumSpanningTree() returns (mstEdges: seq<TreeEdge>, totalWeight: int)
      requires Valid()
      ensures IsForest(TreeLinks(mstEdges))
      ensures SameConnectivity(TreeLinks(mstEdges), CandidateLinks(Candidates(adjList)))
      ensures forall k :: 0 <= k < |mstEdges| ==> IsCandidate(adjList, AsCandidate(mstEdges[k]))
      ensures forall a, b :: 0 <= a < b < |mstEdges| ==> LexLe(AsCandidate(mstEdges[a]), AsCandidate(mstEdges[b]))
      ensures totalWeight == TotalWeight(mstEdges)
      ensures |mstEdges| == numNodes - |Leaders(CandidateLinks(Candidates(adjList)), numNodes)|
      ensures mstEdges == KruskalChoice(adjList)
    {
      var edges := CollectCandidates();
      var sorted := SortCandidates(edges);
      var ds := new DisjointSets.DisjointSet(numNodes);
      mstEdges, totalWeight := [], 0;
      ghost var picked: seq<int> := [];
      KruskalInit(numNodes, sorted);
      var i := 0;
      while i < |sorted|
        invariant ds.Valid() && ds.numValues == numNodes
        invariant KruskalInv(numNodes, sorted, i, ds.root, DisjointSets.Roots(ds.theArray[..]), mstEdges, totalWeight, picked)
      {
        mstEdges, totalWeight, picked := KruskalRound(ds, sorted, i, mstEdges, totalWeight, picked);
        i := i + 1;
      }
      KruskalOutcome(adjList, sorted, ds.theArray[..], ds.root, ds.rank, mstEdges, totalWeight, picked);
    }

    /** One step of Kruskal's main loop: candidate i is recorded, and its ends' sets merged, when
        the union-find structure places its ends in different sets. */
    method KruskalRound(ds: DisjointSets.DisjointSet, sorted: seq<Candidate>, i: int,
                        mst: seq<TreeEdge>, total: int, ghost picked: seq<int>)
      returns (mst': seq<TreeEdge>, total': int, ghost picked': seq<int>)
      requires numNodes == |adjList| && WellFormed(adjList)
      requires multiset(sorted) == multiset(Candidates(adjList)) && 0 <= i < |sorted|
      requires ds.Valid() && ds.numValues == numNodes
      requires KruskalInv(numNodes, sorted, i, ds.root, DisjointSets.Roots(ds.theArray[..]), mst, total, picked)
      modifies ds, ds.theArray
      ensures ds.Valid() && ds.numValues == numNodes
      ensures KruskalInv(numNodes, sorted, i + 1, ds.root, DisjointSets.Roots(ds.theArray[..]), mst', total', picked')
      ensures 0 <= sorted[i].1 < numNodes && 0 <= sorted[i].2 < numNodes
      ensures var (c, r1, r2) := (sorted[i], old(ds.root[sorted[i].1]), old(ds.root[sorted[i].2]));
        r1 != r2 ==>
          && mst' == mst + [Reported(c)] && total' == total + c.0
          && exists child, parent :: ((child, parent) == (r1, r2) || (child, parent) == (r2, r1))
                                     && ds.root == DisjointSets.Relabel(old(ds.root), child, parent)
      ensures old(ds.root[sorted[i].1]) == old(ds.root[sorted[i].2]) ==>
        mst' == mst && total' == total && ds.root == old(ds.root)
    {
      var (weight, from, to) := sorted[i];
      PermutedCandidate(adjList, sorted, i);
      var r1 := ds.Find(from);
      assert r1 in DisjointSets.Roots(ds.theArray[..]);
      var r2 := ds.Find(to);
      if r1 != r2 {
        ghost var t0, root0, roots0 := ds.theArray[..], ds.root, DisjointSets.Roots(ds.theArray[..]);
        ghost var child := if -t0[r1] < -t0[r2] then r1 else r2;
        ghost var parent := if child == r1 then r2 else r1;
        var covers := ds.DoUnion(from, to);
        KruskalJoinStep(numNodes, sorted, i, root0, roots0, mst, total, picked, child, parent);
        mst', total', picked' := mst + [(from, to, weight)], total + weight, picked + [i];
      } else {
        KruskalSkipStep(numNodes, sorted, i, ds.root, DisjointSets.Roots(ds.theArray[..]), mst, total, picked);
        mst', total', picked' := mst, total, picked;
      }
    }
  }
}
