/** Kruskal's algorithm over the graph's edges read as undirected: the candidate list, its
    lexicographic order, and the facts that carry its main loop, where a union-find structure
    tracks which nodes the chosen edges already join. */
module SpanningTrees {
  import opened Seqs
  import opened Digraphs
  import opened Connectivity
  import DisjointSets

  /** An entry of the candidate list: (weight, from, to). */
  type Candidate = (int, int, int)

  /** An edge of the result, in reporting order: (from, to, weight). */
  type TreeEdge = (int, int, int)

  /** The candidates from one adjacency list: its entries to higher-numbered nodes, in order. */
  function ListCandidates(from: int, es: seq<Edge>): seq<Candidate>
  {
    if es == [] then []
    else
      var e := es[|es| - 1];
      ListCandidates(from, es[..|es| - 1]) + (if from < e.to then [(e.weight, from, e.to)] else [])
  }

  /** The candidates from the lists of the nodes below k, in node order. */
  function CandidatesBelow(adj: AdjList, k: int): seq<Candidate>
    requires 0 <= k <= |adj|
  {
    if k == 0 then [] else CandidatesBelow(adj, k - 1) + ListCandidates(k - 1, adj[k - 1])
  }

  /** The candidate list: every entry from a node to a higher-numbered one, as (weight, from,
      to). An entry to a lower-numbered node is left to its reverse entry. */
  function Candidates(adj: AdjList): seq<Candidate>
  {
    CandidatesBelow(adj, |adj|)
  }

  /** c stands for an entry of the graph from c.1 up to c.2 with weight c.0. */
  ghost predicate IsCandidate(adj: AdjList, c: Candidate)
  {
    0 <= c.1 < |adj| && c.1 < c.2 && Edge(c.2, c.0) in adj[c.1]
  }

  lemma {:induction false} ListCandidatesMembers(from: int, es: seq<Edge>, c: Candidate)
    ensures c in ListCandidates(from, es) <==> c.1 == from && from < c.2 && Edge(c.2, c.0) in es
  {
    if es != [] {
      var init := es[..|es| - 1];
      ListCandidatesMembers(from, init, c);
      assert es == init + [es[|es| - 1]];
    }
  }

  lemma {:induction false} CandidatesBelowMembers(adj: AdjList, k: int, c: Candidate)
    requires 0 <= k <= |adj|
    ensures c in CandidatesBelow(adj, k) <==> 0 <= c.1 < k && c.1 < c.2 && Edge(c.2, c.0) in adj[c.1]
  {
    if k > 0 {
      CandidatesBelowMembers(adj, k - 1, c);
      ListCandidatesMembers(k - 1, adj[k - 1], c);
    }
  }

  /** The candidate list holds exactly the entries that go up from their source. */
  lemma CandidatesMembers(adj: AdjList, c: Candidate)
    ensures c in Candidates(adj) <==> IsCandidate(adj, c)
  {
    CandidatesBelowMembers(adj, |adj|, c);
  }

  /** The order std::sort puts the candidates in: by weight, then source, then target. */
  predicate LexLe(a: Candidate, b: Candidate)
  {
    a.0 < b.0 || (a.0 == b.0 && (a.1 < b.1 || (a.1 == b.1 && a.2 <= b.2)))
  }

  ghost predicate SortedLex(s: seq<Candidate>)
  {
    forall i, j :: 0 <= i < j < |s| ==> LexLe(s[i], s[j])
  }

  /** x inserted into s before the first element it does not exceed. */
  function Insert(x: Candidate, s: seq<Candidate>): (r: seq<Candidate>)
    ensures multiset(r) == multiset(s) + multiset{x}
    ensures |r| == |s| + 1
  {
    if s == [] then [x]
    else if LexLe(x, s[0]) then [x] + s
    else
      assert s == [s[0]] + s[1..];
      [s[0]] + Insert(x, s[1..])
  }

  lemma {:induction false} InsertSorted(x: Candidate, s: seq<Candidate>)
    requires SortedLex(s)
    ensures SortedLex(Insert(x, s))
  {
    if s != [] && !LexLe(x, s[0]) {
      var tail := s[1..];
      assert SortedLex(tail) by {
        forall i, j | 0 <= i < j < |tail| ensures LexLe(tail[i], tail[j]) {
          assert tail[i] == s[i + 1] && tail[j] == s[j + 1];
        }
      }
      InsertSorted(x, tail);
      var r' := Insert(x, tail);
      var r := [s[0]] + r';
      forall j | 0 <= j < |r'| ensures LexLe(s[0], r'[j]) {
        assert r'[j] in multiset(r');
        if r'[j] != x {
          assert r'[j] in multiset(tail);
          var k :| 0 <= k < |tail| && tail[k] == r'[j];
          assert s[k + 1] == r'[j];
        }
      }
      forall i, j | 0 <= i < j < |r| ensures LexLe(r[i], r[j]) {
        if i > 0 {
          assert r[i] == r'[i - 1] && r[j] == r'[j - 1];
        } else {
          assert r[j] == r'[j - 1];
        }
      }
    }
  }

  /** The candidates sorted by insertion: a sorted permutation of the input. */
  function SortCandidates(s: seq<Candidate>): (r: seq<Candidate>)
    ensures multiset(r) == multiset(s)
    ensures SortedLex(r)
  {
    if s == [] then []
    else
      assert s == [s[0]] + s[1..];
      InsertSorted(s[0], SortCandidates(s[1..]));
      Insert(s[0], SortCandidates(s[1..]))
  }

  lemma SortedTail(s: seq<Candidate>)
    requires SortedLex(s) && s != []
    ensures SortedLex(s[1..])
  {
    forall p, q | 0 <= p < q < |s| - 1 ensures LexLe(s[1..][p], s[1..][q]) {
      assert s[1..][p] == s[p + 1] && s[1..][q] == s[q + 1];
    }
  }

  /** The head of a sorted sequence is at most each of its elements. */
  lemma SortedHead(s: seq<Candidate>, x: Candidate)
    requires SortedLex(s) && x in multiset(s)
    ensures LexLe(s[0], x)
  {
    var i :| 0 <= i < |s| && s[i] == x;
    if i > 0 {
      assert LexLe(s[0], s[i]);
    }
  }

  /** LexLe is a total order on candidates, so a sorted permutation is unique: whatever sorting
      routine produced it, a sorted sequence with the same elements is this one. */
  lemma {:induction false} SortedUnique(a: seq<Candidate>, b: seq<Candidate>)
    requires SortedLex(a) && SortedLex(b) && multiset(a) == multiset(b)
    ensures a == b
    decreases |a|
  {
    assert |b| == |a| by {
      assert |multiset(a)| == |multiset(b)|;
    }
    if a != [] {
      assert a[0] in multiset(b) && b[0] in multiset(a);
      SortedHead(b, a[0]);
      SortedHead(a, b[0]);
      assert a[0] == b[0];
      assert a == [a[0]] + a[1..] && b == [b[0]] + b[1..];
      assert multiset(a[1..]) == multiset(a) - multiset{a[0]};
      assert multiset(b[1..]) == multiset(b) - multiset{b[0]};
      SortedTail(a);
      SortedTail(b);
      SortedUnique(a[1..], b[1..]);
    }
  }

  /** The links drawn by the chosen edges. */
  function TreeLinks(mst: seq<TreeEdge>): (L: seq<Link>)
    ensures |L| == |mst|
  {
    seq(|mst|, k requires 0 <= k < |mst| => (mst[k].0, mst[k].1))
  }

  /** The links drawn by candidates. */
  function CandidateLinks(c: seq<Candidate>): (L: seq<Link>)
    ensures |L| == |c|
  {
    seq(|c|, k requires 0 <= k < |c| => (c[k].1, c[k].2))
  }

  /** The sum of the chosen edges' weights. */
  function TotalWeight(mst: seq<TreeEdge>): int
  {
    if mst == [] then 0 else TotalWeight(mst[..|mst| - 1]) + mst[|mst| - 1].2
  }

  /** Each link joins two nodes the earlier links do not connect: the links form a forest. */
  ghost predicate IsForest(L: seq<Link>)
  {
    forall k :: 0 <= k < |L| ==> !Connected(L[..k], L[k].0, L[k].1)
  }

  /** The union-find partition root groups the nodes 0 .. n-1 exactly as the links in L
      connect them. */
  ghost predicate RootsMatch(root: seq<int>, L: seq<Link>, n: int)
  {
    |root| == n && forall x, y :: 0 <= x < n && 0 <= y < n ==> (root[x] == root[y] <==> Connected(L, x, y))
  }

  lemma TreeLinksSnoc(mst: seq<TreeEdge>, e: TreeEdge)
    ensures TreeLinks(mst + [e]) == TreeLinks(mst) + [(e.0, e.1)]
  {
  }

  lemma TotalWeightSnoc(mst: seq<TreeEdge>, e: TreeEdge)
    ensures TotalWeight(mst + [e]) == TotalWeight(mst) + e.2
  {
    assert (mst + [e])[..|mst|] == mst;
  }

  lemma CandidateLinksPrefix(c: seq<Candidate>, i: int)
    requires 0 <= i < |c|
    ensures CandidateLinks(c[..i + 1]) == CandidateLinks(c[..i]) + [(c[i].1, c[i].2)]
  {
  }

  /** Singletons match the empty list of links. */
  lemma KruskalStart(n: nat)
    ensures RootsMatch(seq(n, i => i), [], n)
  {
    forall x, y | 0 <= x < n && 0 <= y < n ensures (seq(n, i => i)[x] == seq(n, i => i)[y] <==> Connected([], x, y)) {
      ConnectedEmpty(x, y);
    }
  }

  /** Merging the sets of a and b, which were apart, matches adding the link (a, b), whichever
      of the two roots ends up on top. */
  lemma KruskalJoin(root: seq<int>, L: seq<Link>, n: int, a: int, b: int, child: int, parent: int)
    requires RootsMatch(root, L, n) && 0 <= a < n && 0 <= b < n && root[a] != root[b]
    requires (child == root[a] && parent == root[b]) || (child == root[b] && parent == root[a])
    ensures !Connected(L, a, b)
    ensures RootsMatch(DisjointSets.Relabel(root, child, parent), L + [(a, b)], n)
  {
    var root' := DisjointSets.Relabel(root, child, parent);
    forall x, y | 0 <= x < n && 0 <= y < n ensures (root'[x] == root'[y] <==> Connected(L + [(a, b)], x, y)) {
      AddLinkIff(L, a, b, x, y);
      assert Connected(L, x, a) <==> root[x] == root[a];
      assert Connected(L, b, y) <==> root[b] == root[y];
      assert Connected(L, x, b) <==> root[x] == root[b];
      assert Connected(L, a, y) <==> root[a] == root[y];
    }
  }

  /** A link between nodes the forest keeps apart extends the forest. */
  lemma ForestStep(L: seq<Link>, a: int, b: int)
    requires IsForest(L) && !Connected(L, a, b)
    ensures IsForest(L + [(a, b)])
  {
    var L' := L + [(a, b)];
    forall k | 0 <= k < |L'| ensures !Connected(L'[..k], L'[k].0, L'[k].1) {
      if k < |L| {
        assert L'[..k] == L[..k] && L'[k] == L[k];
      } else {
        assert L'[..k] == L;
      }
    }
  }

  /** Under a matching partition, the union-find roots count the components. */
  lemma RootsCountComponents(t: seq<int>, root: seq<int>, rank: seq<nat>, L: seq<Link>, n: int)
    requires DisjointSets.Inv(t, root, rank) && |t| == n && RootsMatch(root, L, n)
    ensures |DisjointSets.Roots(t)| == |Leaders(L, n)|
  {
    DisjointSets.ClassesAreRoots(t, root, rank);
    forall x | 0 <= x < n ensures DisjointSets.FirstInSet(root, x) <==> IsLeader(L, x) {
    }
    assert DisjointSets.Firsts(root, n) == Leaders(L, n);
  }

  /** A chosen candidate as it is recorded: (from, to, weight). */
  function Reported(c: Candidate): TreeEdge
  {
    (c.1, c.2, c.0)
  }

  /** The candidate a recorded edge was chosen as. */
  function AsCandidate(e: TreeEdge): Candidate
  {
    (e.2, e.0, e.1)
  }

  /** A sequence with the candidates' elements draws the same links, in some order. */
  lemma CandidateLinksSubset(a: seq<Candidate>, b: seq<Candidate>, l: Link)
    requires multiset(a) <= multiset(b) && l in CandidateLinks(a)
    ensures l in CandidateLinks(b)
  {
    var k :| 0 <= k < |a| && CandidateLinks(a)[k] == l;
    assert a[k] in multiset(b);
    var k' :| 0 <= k' < |b| && b[k'] == a[k];
    assert CandidateLinks(b)[k'] == l;
  }

  lemma CandidateLinksPermuted(a: seq<Candidate>, b: seq<Candidate>)
    requires multiset(a) == multiset(b)
    ensures SameConnectivity(CandidateLinks(a), CandidateLinks(b))
  {
    forall l ensures l in CandidateLinks(a) <==> l in CandidateLinks(b) {
      if l in CandidateLinks(a) {
        CandidateLinksSubset(a, b, l);
      }
      if l in CandidateLinks(b) {
        CandidateLinksSubset(b, a, l);
      }
    }
    SameLinksSameConnectivity(CandidateLinks(a), CandidateLinks(b));
  }

  /** Every element of a permutation of the candidate list is a candidate: an entry from a node
      up to a node of the graph. */
  lemma PermutedCandidate(adj: AdjList, sorted: seq<Candidate>, i: int)
    requires WellFormed(adj) && multiset(sorted) == multiset(Candidates(adj)) && 0 <= i < |sorted|
    ensures IsCandidate(adj, sorted[i])
    ensures 0 <= sorted[i].1 < sorted[i].2 < |adj|
  {
    var c := sorted[i];
    assert c in multiset(Candidates(adj));
    CandidatesMembers(adj, c);
    var k :| 0 <= k < |adj[c.1]| && adj[c.1][k] == Edge(c.2, c.0);
  }

  /** mst records, in order, the candidates at the increasing positions picked, all below i. */
  ghost predicate ChosenFrom(mst: seq<TreeEdge>, sorted: seq<Candidate>, picked: seq<int>, i: int)
  {
    && |picked| == |mst|
    && (forall k :: 0 <= k < |picked| ==> 0 <= picked[k] < i && picked[k] < |sorted| && mst[k] == Reported(sorted[picked[k]]))
    && (forall a, b :: 0 <= a < b < |picked| ==> picked[a] < picked[b])
  }

  /** Kruskal's rule on its own terms: scanning the sorted candidates in order, a candidate is
      taken exactly when its ends are not connected by the candidates scanned before it. */
  ghost function Greedy(sorted: seq<Candidate>, i: int): seq<TreeEdge>
    requires 0 <= i <= |sorted|
  {
    if i == 0 then []
    else
      var c := sorted[i - 1];
      if Connected(CandidateLinks(sorted[..i - 1]), c.1, c.2) then Greedy(sorted, i - 1)
      else Greedy(sorted, i - 1) + [Reported(c)]
  }

  /** The edges Kruskal's algorithm chooses for adj: the greedy scan of its sorted candidates. */
  ghost function KruskalChoice(adj: AdjList): seq<TreeEdge>
  {
    var sorted := SortCandidates(Candidates(adj));
    Greedy(sorted, |sorted|)
  }

  /** The choice does not depend on how the candidates were sorted: the greedy scan of any
      sorted arrangement of them takes the same edges. */
  lemma KruskalChoiceAnySort(adj: AdjList, sorted: seq<Candidate>)
    requires multiset(sorted) == multiset(Candidates(adj)) && SortedLex(sorted)
    ensures Greedy(sorted, |sorted|) == KruskalChoice(adj)
  {
    SortedUnique(sorted, SortCandidates(Candidates(adj)));
  }

  /** The loop invariant of Kruskal's algorithm after the first i sorted candidates, with the
      union-find partition root and its set of roots: the partition groups nodes as the chosen
      edges connect them; the chosen edges connect what the scanned candidates connect and form
      a forest, and are those the greedy rule takes; each chosen edge has removed one root; the
      total is their weight. */
  ghost predicate KruskalInv(n: int, sorted: seq<Candidate>, i: int, root: seq<int>, roots: set<int>,
                             mst: seq<TreeEdge>, total: int, picked: seq<int>)
  {
    && 0 <= i <= |sorted|
    && RootsMatch(root, TreeLinks(mst), n)
    && SameConnectivity(TreeLinks(mst), CandidateLinks(sorted[..i]))
    && IsForest(TreeLinks(mst))
    && |mst| + |roots| == n
    && total == TotalWeight(mst)
    && ChosenFrom(mst, sorted, picked, i)
    && mst == Greedy(sorted, i)
  }

  lemma KruskalInit(n: nat, sorted: seq<Candidate>)
    ensures KruskalInv(n, sorted, 0, seq(n, i => i), Range(n), [], 0, [])
  {
    KruskalStart(n);
    RangeCard(n);
    assert CandidateLinks(sorted[..0]) == [];
  }

  lemma ChosenAppend(mst: seq<TreeEdge>, sorted: seq<Candidate>, picked: seq<int>, i: int)
    requires ChosenFrom(mst, sorted, picked, i) && 0 <= i < |sorted|
    ensures ChosenFrom(mst + [Reported(sorted[i])], sorted, picked + [i], i + 1)
  {
  }

  /** Candidate i joins two different sets: merging them and recording the candidate keeps the
      invariant. */
  lemma KruskalJoinStep(n: int, sorted: seq<Candidate>, i: int, root: seq<int>, roots: set<int>,
                        mst: seq<TreeEdge>, total: int, picked: seq<int>, child: int, parent: int)
    requires 0 <= i < |sorted| && 0 <= sorted[i].1 < n && 0 <= sorted[i].2 < n
    requires KruskalInv(n, sorted, i, root, roots, mst, total, picked)
    requires root[sorted[i].1] != root[sorted[i].2] && child in roots
    requires var r1, r2 := root[sorted[i].1], root[sorted[i].2];
      (child == r1 && parent == r2) || (child == r2 && parent == r1)
    ensures KruskalInv(n, sorted, i + 1, DisjointSets.Relabel(root, child, parent), roots - {child},
                       mst + [Reported(sorted[i])], total + sorted[i].0, picked + [i])
  {
    var c := sorted[i];
    var (a, b) := (c.1, c.2);
    var mst' := mst + [Reported(c)];
    var T, C := TreeLinks(mst), CandidateLinks(sorted[..i]);
    assert TreeLinks(mst') == T + [(a, b)] by {
      TreeLinksSnoc(mst, Reported(c));
    }
    assert RootsMatch(DisjointSets.Relabel(root, child, parent), T + [(a, b)], n) && !Connected(T, a, b) by {
      KruskalJoin(root, T, n, a, b, child, parent);
    }
    assert IsForest(T + [(a, b)]) by {
      ForestStep(T, a, b);
    }
    assert SameConnectivity(T + [(a, b)], CandidateLinks(sorted[..i + 1])) by {
      CandidateLinksPrefix(sorted, i);
      AddToBoth(T, C, a, b);
    }
    assert total + c.0 == TotalWeight(mst') by {
      TotalWeightSnoc(mst, Reported(c));
    }
    assert |roots - {child}| == |roots| - 1;
    ChosenAppend(mst, sorted, picked, i);
    assert !Connected(C, a, b);
  }

  /** Candidate i joins two nodes of one set: skipping it keeps the invariant. */
  lemma KruskalSkipStep(n: int, sorted: seq<Candidate>, i: int, root: seq<int>, roots: set<int>,
                        mst: seq<TreeEdge>, total: int, picked: seq<int>)
    requires 0 <= i < |sorted| && 0 <= sorted[i].1 < n && 0 <= sorted[i].2 < n
    requires KruskalInv(n, sorted, i, root, roots, mst, total, picked)
    requires root[sorted[i].1] == root[sorted[i].2]
    ensures KruskalInv(n, sorted, i + 1, root, roots, mst, total, picked)
  {
    var c := sorted[i];
    var T, C := TreeLinks(mst), CandidateLinks(sorted[..i]);
    assert Connected(T, c.1, c.2);
    assert Connected(C, c.1, c.2);
    AddRedundant(C, c.1, c.2);
    CandidateLinksPrefix(sorted, i);
    SameConnectivityTrans(T, C, C + [(c.1, c.2)]);
  }

  /** What Kruskal's algorithm delivers once every sorted candidate is scanned: a forest of
      candidate edges, taken in the sorted order, that connects exactly what the whole
      candidate list connects, with one edge fewer than nodes per component. */
  lemma KruskalOutcome(adj: AdjList, sorted: seq<Candidate>, t: seq<int>, root: seq<int>, rank: seq<nat>,
                       mst: seq<TreeEdge>, total: int, picked: seq<int>)
    requires WellFormed(adj) && multiset(sorted) == multiset(Candidates(adj)) && SortedLex(sorted)
    requires |t| == |adj| && DisjointSets.Inv(t, root, rank)
    requires KruskalInv(|adj|, sorted, |sorted|, root, DisjointSets.Roots(t), mst, total, picked)
    ensures IsForest(TreeLinks(mst))
    ensures SameConnectivity(TreeLinks(mst), CandidateLinks(Candidates(adj)))
    ensures forall k :: 0 <= k < |mst| ==> IsCandidate(adj, AsCandidate(mst[k]))
    ensures forall a, b :: 0 <= a < b < |mst| ==> LexLe(AsCandidate(mst[a]), AsCandidate(mst[b]))
    ensures total == TotalWeight(mst)
    ensures |mst| == |adj| - |Leaders(CandidateLinks(Candidates(adj)), |adj|)|
    ensures mst == Greedy(sorted, |sorted|)
  {
    var T, C := TreeLinks(mst), CandidateLinks(Candidates(adj));
    assert sorted[..|sorted|] == sorted;
    CandidateLinksPermuted(sorted, Candidates(adj));
    SameConnectivityTrans(T, CandidateLinks(sorted), C);
    forall k | 0 <= k < |mst| ensures IsCandidate(adj, AsCandidate(mst[k])) {
      PermutedCandidate(adj, sorted, picked[k]);
    }
    forall a, b | 0 <= a < b < |mst| ensures LexLe(AsCandidate(mst[a]), AsCandidate(mst[b])) {
      assert AsCandidate(mst[a]) == sorted[picked[a]] && AsCandidate(mst[b]) == sorted[picked[b]];
    }
    RootsCountComponents(t, root, rank, T, |adj|);
    LeadersAlike(T, C, |adj|);
  }
}
