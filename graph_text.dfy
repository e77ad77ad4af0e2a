/** The text format a graph is read from and printed in: the node names, one per line, in index
    order, followed by the edges as "from to weight" lines that name their endpoints. The text is
    taken here already split into its tokens; the two counts of the format are the lengths of
    the two sequences. */
module GraphTexts {
  import opened Seqs
  import opened Digraphs

  datatype EdgeLine = EdgeLine(from: string, to: string, weight: int)

  datatype GraphText = GraphText(names: seq<string>, edges: seq<EdgeLine>)

  /** What opening the file yields: nothing, or its contents. */
  datatype Source = Unopenable | Opened(text: GraphText)

  /** The name-to-index map the loader builds by assigning, in order, each name its position;
      a later occurrence of a name overwrites an earlier one. */
  function NameIndex(names: seq<string>): map<string, int>
  {
    if names == [] then map[] else NameIndex(names[..|names| - 1])[names[|names| - 1] := |names| - 1]
  }

  /** A name is mapped exactly when it occurs, and it is mapped to its last occurrence. */
  lemma {:induction false} NameIndexLast(names: seq<string>)
    ensures forall x :: x in NameIndex(names) <==> x in names
    ensures forall x :: x in NameIndex(names) ==>
      && 0 <= NameIndex(names)[x] < |names|
      && names[NameIndex(names)[x]] == x
      && forall j :: NameIndex(names)[x] < j < |names| ==> names[j] != x
  {
    if names != [] {
      var init := names[..|names| - 1];
      NameIndexLast(init);
      assert names == init + [names[|names| - 1]];
    }
  }

  /** With no repeated names, every name is mapped to its own position. */
  lemma NameIndexDistinct(names: seq<string>)
    requires Distinct(names)
    ensures forall i :: 0 <= i < |names| ==> names[i] in NameIndex(names) && NameIndex(names)[names[i]] == i
  {
    NameIndexLast(names);
    forall i | 0 <= i < |names|
      ensures names[i] in NameIndex(names) && NameIndex(names)[names[i]] == i
    {
      var m := NameIndex(names);
      assert names[i] in m;
      assert names[m[names[i]]] == names[i];
    }
  }

  /** Both endpoints of the line name nodes. */
  predicate Resolves(m: map<string, int>, line: EdgeLine)
  {
    line.from in m && line.to in m
  }

  /** The entries the loader appends to the list of node u, in input order: one per line whose
      endpoints both resolve and whose source is u. */
  function Outgoing(m: map<string, int>, lines: seq<EdgeLine>, u: int): seq<Edge>
  {
    if lines == [] then []
    else
      var line := lines[|lines| - 1];
      Outgoing(m, lines[..|lines| - 1], u)
        + (if Resolves(m, line) && m[line.from] == u then [Edge(m[line.to], line.weight)] else [])
  }

  /** What reading one more line does to the list of node u. */
  lemma OutgoingSnoc(m: map<string, int>, lines: seq<EdgeLine>, k: int, u: int)
    requires 0 <= k < |lines|
    ensures Resolves(m, lines[k]) && m[lines[k].from] == u ==>
      Outgoing(m, lines[..k + 1], u) == Outgoing(m, lines[..k], u) + [Edge(m[lines[k].to], lines[k].weight)]
    ensures !(Resolves(m, lines[k]) && m[lines[k].from] == u) ==>
      Outgoing(m, lines[..k + 1], u) == Outgoing(m, lines[..k], u)
  {
    assert lines[..k + 1][..k] == lines[..k];
  }

  /** The adjacency lists the loader builds from a text. */
  function LoadedAdj(text: GraphText): AdjList
  {
    seq(|text.names|, u => Outgoing(NameIndex(text.names), text.edges, u))
  }

  /** An entry is stored for u exactly when some line from u resolves to it. */
  lemma {:induction false} OutgoingMembers(m: map<string, int>, lines: seq<EdgeLine>, u: int, e: Edge)
    ensures e in Outgoing(m, lines, u) <==>
      exists k :: 0 <= k < |lines| && Resolves(m, lines[k]) && m[lines[k].from] == u
        && e == Edge(m[lines[k].to], lines[k].weight)
  {
    if lines != [] {
      var init := lines[..|lines| - 1];
      OutgoingMembers(m, init, u, e);
      if e in Outgoing(m, init, u) {
        var k :| 0 <= k < |init| && Resolves(m, init[k]) && m[init[k].from] == u
          && e == Edge(m[init[k].to], init[k].weight);
        assert lines[k] == init[k];
      }
      forall k | 0 <= k < |lines| - 1 ensures lines[k] == init[k] { }
    }
  }

  /** Loaded entries point at nodes. */
  lemma LoadedWellFormed(text: GraphText)
    ensures WellFormed(LoadedAdj(text))
  {
    var m := NameIndex(text.names);
    var adj: seq<seq<Edge>> := LoadedAdj(text);
    NameIndexLast(text.names);
    forall u: int, k: int | 0 <= u < |adj| && 0 <= k < |adj[u]| ensures 0 <= adj[u][k].to < |adj| {
      OutgoingMembers(m, text.edges, u, adj[u][k]);
    }
  }

  /** Lines with both endpoints resolved. */
  function ResolvedCount(m: map<string, int>, lines: seq<EdgeLine>): nat
  {
    if lines == [] then 0
    else ResolvedCount(m, lines[..|lines| - 1]) + (if Resolves(m, lines[|lines| - 1]) then 1 else 0)
  }

  /** The lines stored for the sources 0 .. k-1 of n. */
  function StoredBelow(m: map<string, int>, lines: seq<EdgeLine>, k: nat): nat
  {
    if k == 0 then 0 else StoredBelow(m, lines, k - 1) + |Outgoing(m, lines, k - 1)|
  }

  /** Lines that resolve to a source below k. */
  function ResolvedBelow(m: map<string, int>, lines: seq<EdgeLine>, k: int): nat
  {
    if lines == [] then 0
    else
      var line := lines[|lines| - 1];
      ResolvedBelow(m, lines[..|lines| - 1], k) + (if Resolves(m, line) && m[line.from] < k then 1 else 0)
  }

  lemma {:induction false} StoredBelowStep(m: map<string, int>, lines: seq<EdgeLine>, k: nat)
    ensures StoredBelow(m, lines, k) == ResolvedBelow(m, lines, k) - ResolvedBelow(m, lines, 0)
    ensures ResolvedBelow(m, lines, 0) <= ResolvedBelow(m, lines, k)
  {
    if k > 0 {
      StoredBelowStep(m, lines, k - 1);
      OutgoingSplit(m, lines, k - 1);
    } else {
    }
  }

  lemma {:induction false} OutgoingSplit(m: map<string, int>, lines: seq<EdgeLine>, u: int)
    ensures ResolvedBelow(m, lines, u + 1) == ResolvedBelow(m, lines, u) + |Outgoing(m, lines, u)|
  {
    if lines != [] {
      OutgoingSplit(m, lines[..|lines| - 1], u);
    }
  }

  lemma {:induction false} ResolvedBelowBounds(m: map<string, int>, lines: seq<EdgeLine>, n: int)
    requires forall x :: x in m ==> 0 <= m[x] < n
    ensures ResolvedBelow(m, lines, 0) == 0
    ensures ResolvedBelow(m, lines, n) == ResolvedCount(m, lines)
  {
    if lines != [] {
      ResolvedBelowBounds(m, lines[..|lines| - 1], n);
    }
  }

  lemma {:induction false} TotalLengthStored(adj: AdjList, m: map<string, int>, lines: seq<EdgeLine>, k: nat)
    requires k <= |adj|
    requires forall u :: 0 <= u < k ==> adj[u] == Outgoing(m, lines, u)
    ensures TotalLength(adj[..k]) == StoredBelow(m, lines, k)
  {
    if k > 0 {
      assert adj[..k][..k - 1] == adj[..k - 1];
      TotalLengthStored(adj, m, lines, k - 1);
    }
  }

  /** No line is lost or stored twice: the loaded lists hold exactly as many entries as there
      are lines whose endpoints both resolve. */
  lemma LoadedEdgeCount(text: GraphText)
    ensures TotalLength(LoadedAdj(text)) == ResolvedCount(NameIndex(text.names), text.edges)
  {
    var m, adj := NameIndex(text.names), LoadedAdj(text);
    NameIndexLast(text.names);
    TotalLengthStored(adj, m, text.edges, |adj|);
    assert adj[..|adj|] == adj;
    StoredBelowStep(m, text.edges, |adj|);
    ResolvedBelowBounds(m, text.edges, |adj|);
  }

  /** The edge lines printed for source u, one per entry of es, naming both endpoints. */
  function LinesOf(names: seq<string>, u: int, es: seq<Edge>): seq<EdgeLine>
    requires 0 <= u < |names|
    requires forall j :: 0 <= j < |es| ==> 0 <= es[j].to < |names|
  {
    seq(|es|, j requires 0 <= j < |es| => EdgeLine(names[u], names[es[j].to], es[j].weight))
  }

  /** The edge lines printed for the sources 0 .. k-1, in ascending source order and list order
      within a source. */
  function DumpLines(names: seq<string>, adj: AdjList, k: nat): seq<EdgeLine>
    requires |adj| == |names| && WellFormed(adj) && k <= |adj|
  {
    if k == 0 then [] else DumpLines(names, adj, k - 1) + LinesOf(names, k - 1, adj[k - 1])
  }

  /** The text a graph prints as. */
  function Dump(names: seq<string>, adj: AdjList): GraphText
    requires |adj| == |names| && WellFormed(adj)
  {
    GraphText(names, DumpLines(names, adj, |adj|))
  }

  /** One line is printed per adjacency entry. */
  lemma {:induction false} DumpLinesLength(names: seq<string>, adj: AdjList, k: nat)
    requires |adj| == |names| && WellFormed(adj) && k <= |adj|
    ensures |DumpLines(names, adj, k)| == TotalLength(adj[..k])
  {
    if k > 0 {
      assert adj[..k][..k - 1] == adj[..k - 1];
      DumpLinesLength(names, adj, k - 1);
    }
  }

  lemma {:induction false} OutgoingAppend(m: map<string, int>, a: seq<EdgeLine>, b: seq<EdgeLine>, u: int)
    ensures Outgoing(m, a + b, u) == Outgoing(m, a, u) + Outgoing(m, b, u)
  {
    if b == [] {
      assert a + b == a;
    } else {
      assert (a + b)[..|a + b| - 1] == a + b[..|b| - 1];
      OutgoingAppend(m, a, b[..|b| - 1], u);
    }
  }

  /** The names are told apart by m: each maps to its own position. */
  ghost predicate Identifies(m: map<string, int>, names: seq<string>)
  {
    forall i :: 0 <= i < |names| ==> names[i] in m && m[names[i]] == i
  }

  lemma {:induction false} OutgoingOfLines(m: map<string, int>, names: seq<string>, v: int, es: seq<Edge>, u: int)
    requires Identifies(m, names) && 0 <= v < |names|
    requires forall j :: 0 <= j < |es| ==> 0 <= es[j].to < |names|
    ensures u == v ==> Outgoing(m, LinesOf(names, v, es), u) == es
    ensures u != v ==> Outgoing(m, LinesOf(names, v, es), u) == []
  {
    if es != [] {
      var init := es[..|es| - 1];
      assert LinesOf(names, v, es)[..|es| - 1] == LinesOf(names, v, init);
      OutgoingOfLines(m, names, v, init, u);
      assert es == init + [es[|es| - 1]];
    }
  }

  lemma {:induction false} OutgoingOfDump(m: map<string, int>, names: seq<string>, adj: AdjList, k: nat, u: int)
    requires Identifies(m, names) && |adj| == |names| && WellFormed(adj) && k <= |adj|
    ensures 0 <= u < k ==> Outgoing(m, DumpLines(names, adj, k), u) == adj[u]
    ensures !(0 <= u < k) ==> Outgoing(m, DumpLines(names, adj, k), u) == []
  {
    if k > 0 {
      var pre, last := DumpLines(names, adj, k - 1), LinesOf(names, k - 1, adj[k - 1]);
      var all := DumpLines(names, adj, k);
      assert all == pre + last;
      OutgoingOfDump(m, names, adj, k - 1, u);
      OutgoingAppend(m, pre, last, u);
      OutgoingOfLines(m, names, k - 1, adj[k - 1], u);
      var a, b := Outgoing(m, pre, u), Outgoing(m, last, u);
      assert Outgoing(m, all, u) == a + b;
      if u == k - 1 {
        assert a == [] && b == adj[u];
        assert a + b == adj[u];
      } else {
        assert b == [];
        assert a + b == a;
      }
    }
  }

  /** Printing a graph whose names are all different and loading the printed text gives back
      the same names, the same name map and the same adjacency lists. */
  lemma DumpRoundTrip(names: seq<string>, adj: AdjList)
    requires Distinct(names) && |adj| == |names| && WellFormed(adj)
    ensures Dump(names, adj).names == names
    ensures LoadedAdj(Dump(names, adj)) == adj
  {
    var loaded := LoadedAdj(Dump(names, adj));
    NameIndexDistinct(names);
    forall u | 0 <= u < |adj| ensures loaded[u] == adj[u] {
      OutgoingOfDump(NameIndex(names), names, adj, |adj|, u);
    }
  }

  /** The lines whose endpoints both resolve, in input order: the ones the loader stores. */
  function ResolvedLines(m: map<string, int>, lines: seq<EdgeLine>): (r: seq<EdgeLine>)
    ensures |r| == ResolvedCount(m, lines)
    ensures forall k :: 0 <= k < |r| ==> Resolves(m, r[k]) && r[k] in lines
    ensures (forall k :: 0 <= k < |lines| ==> Resolves(m, lines[k])) ==> r == lines
  {
    if lines == [] then []
    else
      var line := lines[|lines| - 1];
      ResolvedLines(m, lines[..|lines| - 1]) + (if Resolves(m, line) then [line] else [])
  }

  /** No entries, no printed lines. */
  lemma {:induction false} DumpLinesEmpty(names: seq<string>, adj: AdjList, k: nat)
    requires |adj| == |names| && WellFormed(adj) && k <= |adj|
    requires forall u :: 0 <= u < |adj| ==> adj[u] == []
    ensures DumpLines(names, adj, k) == []
  {
    if k > 0 {
      DumpLinesEmpty(names, adj, k - 1);
    }
  }

  /** Appending an entry that points at a node keeps every entry pointing at a node. */
  lemma SnocWellFormed(adj: AdjList, v: int, e: Edge)
    requires WellFormed(adj) && 0 <= v < |adj| && 0 <= e.to < |adj|
    ensures WellFormed(adj[v := adj[v] + [e]])
  {
    var adj': AdjList := adj[v := adj[v] + [e]];
    forall u: int, j: int | 0 <= u < |adj'| && 0 <= j < |adj'[u]| ensures 0 <= adj'[u][j].to < |adj'| {
      if u == v && j == |adj[v]| {
        assert adj'[u][j] == e;
      } else {
        assert adj'[u][j] == adj[u][j];
      }
    }
  }

  /** The lines printed for one more entry of the same source. */
  lemma LinesOfSnoc(names: seq<string>, v: int, es: seq<Edge>, e: Edge)
    requires 0 <= v < |names| && 0 <= e.to < |names|
    requires forall j :: 0 <= j < |es| ==> 0 <= es[j].to < |names|
    ensures LinesOf(names, v, es + [e]) == LinesOf(names, v, es) + [EdgeLine(names[v], names[e.to], e.weight)]
  {
  }

  /** What appending an entry to the list of v does to the lines printed for the sources
      below k: adj' prints one more line, line, when v is below k, and otherwise the same. */
  ghost predicate SnocPrints(names: seq<string>, adj: AdjList, adj': AdjList, v: int, line: EdgeLine, k: nat)
    requires |adj| == |names| && WellFormed(adj) && k <= |adj|
    requires |adj'| == |names| && WellFormed(adj')
  {
    && (v < k ==> multiset(DumpLines(names, adj', k)) == multiset(DumpLines(names, adj, k)) + multiset{line})
    && (k <= v ==> DumpLines(names, adj', k) == DumpLines(names, adj, k))
  }

  /** Appending entry e to the list of v adds, for the sources below k, exactly the one line
      that prints e. */
  lemma {:induction false} DumpLinesSnoc(names: seq<string>, adj: AdjList, adj': AdjList, v: int, e: Edge,
                                         line: EdgeLine, k: nat)
    requires |adj| == |names| && WellFormed(adj) && k <= |adj|
    requires 0 <= v < |adj| && 0 <= e.to < |adj|
    requires adj' == adj[v := adj[v] + [e]] && WellFormed(adj')
    requires line == EdgeLine(names[v], names[e.to], e.weight)
    ensures SnocPrints(names, adj, adj', v, line, k)
  {
    if k > 0 {
      DumpLinesSnoc(names, adj, adj', v, e, line, k - 1);
      DumpLinesSnocStep(names, adj, adj', v, e, line, k);
    }
  }

  /** The step of DumpLinesSnoc from the sources below k-1 to those below k. */
  lemma DumpLinesSnocStep(names: seq<string>, adj: AdjList, adj': AdjList, v: int, e: Edge, line: EdgeLine, k: nat)
    requires |adj| == |names| && WellFormed(adj) && 0 < k <= |adj|
    requires 0 <= v < |adj| && 0 <= e.to < |adj|
    requires adj' == adj[v := adj[v] + [e]] && WellFormed(adj')
    requires line == EdgeLine(names[v], names[e.to], e.weight)
    requires SnocPrints(names, adj, adj', v, line, k - 1)
    ensures SnocPrints(names, adj, adj', v, line, k)
  {
    var a, a' := DumpLines(names, adj, k - 1), DumpLines(names, adj', k - 1);
    var l, l' := LinesOf(names, k - 1, adj[k - 1]), LinesOf(names, k - 1, adj'[k - 1]);
    assert DumpLines(names, adj, k) == a + l && DumpLines(names, adj', k) == a' + l';
    if k - 1 == v {
      LinesOfSnoc(names, v, adj[v], e);
      MultisetAddBack(a, l, l', line);
    } else {
      assert l' == l by {
        assert adj'[k - 1] == adj[k - 1];
      }
      if v < k - 1 {
        MultisetAddFront(a, a', l, line);
      }
    }
  }

  /** Reading one more line whose endpoints resolve appends one entry to its source's list. */
  lemma LoadedAdjSnoc(names: seq<string>, lines: seq<EdgeLine>, line: EdgeLine)
    requires Resolves(NameIndex(names), line)
    ensures 0 <= NameIndex(names)[line.from] < |names| && 0 <= NameIndex(names)[line.to] < |names|
    ensures var m, a := NameIndex(names), LoadedAdj(GraphText(names, lines));
      LoadedAdj(GraphText(names, lines + [line])) == a[m[line.from] := a[m[line.from]] + [Edge(m[line.to], line.weight)]]
  {
    NameIndexLast(names);
    var m, a, a' := NameIndex(names), LoadedAdj(GraphText(names, lines)), LoadedAdj(GraphText(names, lines + [line]));
    var v, e := m[line.from], Edge(m[line.to], line.weight);
    assert (lines + [line])[..|lines|] == lines;
    forall u | 0 <= u < |names| ensures a'[u] == a[v := a[v] + [e]][u] {
      assert a'[u] == Outgoing(m, lines, u) + (if v == u then [e] else []);
    }
  }

  /** Reading one more line with an unknown endpoint changes no list. */
  lemma LoadedAdjDrop(names: seq<string>, lines: seq<EdgeLine>, line: EdgeLine)
    requires !Resolves(NameIndex(names), line)
    ensures LoadedAdj(GraphText(names, lines + [line])) == LoadedAdj(GraphText(names, lines))
  {
    var a, a' := LoadedAdj(GraphText(names, lines)), LoadedAdj(GraphText(names, lines + [line]));
    assert (lines + [line])[..|lines|] == lines;
    forall u | 0 <= u < |names| ensures a'[u] == a[u] {
      assert a'[u] == Outgoing(NameIndex(names), lines, u);
    }
  }

  /** Loading a text and printing the result gives the same names and, up to order, the same
      edge lines: one for each line whose endpoints both resolve. A repeated name prints as
      itself, since it is mapped to a position that carries it. */
  lemma {:induction false} LoadDump(names: seq<string>, lines: seq<EdgeLine>)
    ensures WellFormed(LoadedAdj(GraphText(names, lines)))
    ensures Dump(names, LoadedAdj(GraphText(names, lines))).names == names
    ensures multiset(Dump(names, LoadedAdj(GraphText(names, lines))).edges) ==
      multiset(ResolvedLines(NameIndex(names), lines))
  {
    var m := NameIndex(names);
    var adj := LoadedAdj(GraphText(names, lines));
    LoadedWellFormed(GraphText(names, lines));
    if lines == [] {
      DumpLinesEmpty(names, adj, |adj|);
    } else {
      var init, line := lines[..|lines| - 1], lines[|lines| - 1];
      assert lines == init + [line];
      LoadDump(names, init);
      var prev := LoadedAdj(GraphText(names, init));
      LoadedWellFormed(GraphText(names, init));
      if Resolves(m, line) {
        LoadedAdjSnoc(names, init, line);
        NameIndexLast(names);
        var v, e := m[line.from], Edge(m[line.to], line.weight);
        assert EdgeLine(names[v], names[e.to], e.weight) == line;
        DumpLinesSnoc(names, prev, adj, v, e, line, |prev|);
      } else {
        LoadedAdjDrop(names, init, line);
      }
    }
  }

  /** When every edge line names two nodes, loading and printing gives back the same names and,
      up to order, exactly the same edge lines, so also as many of them. */
  lemma LoadDumpAllResolve(names: seq<string>, lines: seq<EdgeLine>)
    requires forall k :: 0 <= k < |lines| ==> Resolves(NameIndex(names), lines[k])
    ensures WellFormed(LoadedAdj(GraphText(names, lines)))
    ensures Dump(names, LoadedAdj(GraphText(names, lines))).names == names
    ensures multiset(Dump(names, LoadedAdj(GraphText(names, lines))).edges) == multiset(lines)
    ensures |Dump(names, LoadedAdj(GraphText(names, lines))).edges| == |lines|
  {
    LoadDump(names, lines);
    var printed := Dump(names, LoadedAdj(GraphText(names, lines))).edges;
    assert |multiset(printed)| == |printed| && |multiset(lines)| == |lines|;
  }
}
