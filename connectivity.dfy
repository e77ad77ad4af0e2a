/** Undirected connectivity over a list of links between nodes: which nodes a set of chosen
    edges joins together. */
module Connectivity {

  /** An undirected link between two nodes. */
  type Link = (int, int)

  /** x and y are joined by a link of L, in either direction. */
  ghost predicate Adjacent(L: seq<Link>, x: int, y: int)
  {
    (x, y) in L || (y, x) in L
  }

  /** p is a path: each node is joined to the next by a link of L. */
  ghost predicate IsPath(L: seq<Link>, p: seq<int>)
  {
    |p| >= 1 && forall i :: 0 <= i < |p| - 1 ==> Adjacent(L, p[i], p[i + 1])
  }

  /** Some path over L leads from x to y. */
  ghost predicate Connected(L: seq<Link>, x: int, y: int)
  {
    exists p :: IsPath(L, p) && p[0] == x && p[|p| - 1] == y
  }

  /** L and L' connect the same pairs of nodes. */
  ghost predicate SameConnectivity(L: seq<Link>, L': seq<Link>)
  {
    forall x, y :: Connected(L, x, y) <==> Connected(L', x, y)
  }

  /** Extending L by the link (a, b) connects x to y exactly when x and y were connected
      already, or x reaches one end of the new link and y the other. */
  ghost predicate ConnectedVia(L: seq<Link>, a: int, b: int, x: int, y: int)
  {
    || Connected(L, x, y)
    || (Connected(L, x, a) && Connected(L, b, y))
    || (Connected(L, x, b) && Connected(L, a, y))
  }

  /** No smaller node is connected to x. */
  ghost predicate IsLeader(L: seq<Link>, x: int)
  {
    forall y :: 0 <= y < x ==> !Connected(L, y, x)
  }

  /** The smallest node of each component among the nodes 0 .. n-1. */
  ghost function Leaders(L: seq<Link>, n: int): set<int>
  {
    set x | 0 <= x < n && IsLeader(L, x)
  }

  lemma ConnectedRefl(L: seq<Link>, x: int)
    ensures Connected(L, x, x)
  {
    assert IsPath(L, [x]);
  }

  lemma ConnectedLink(L: seq<Link>, x: int, y: int)
    requires Adjacent(L, x, y)
    ensures Connected(L, x, y)
  {
    assert IsPath(L, [x, y]);
  }

  lemma ConnectedSym(L: seq<Link>, x: int, y: int)
    requires Connected(L, x, y)
    ensures Connected(L, y, x)
  {
    var p :| IsPath(L, p) && p[0] == x && p[|p| - 1] == y;
    var r := seq(|p|, i requires 0 <= i < |p| => p[|p| - 1 - i]);
    forall i | 0 <= i < |r| - 1 ensures Adjacent(L, r[i], r[i + 1]) {
      assert Adjacent(L, p[|p| - 2 - i], p[|p| - 1 - i]);
    }
    assert IsPath(L, r);
  }

  lemma ConnectedTrans(L: seq<Link>, x: int, y: int, z: int)
    requires Connected(L, x, y) && Connected(L, y, z)
    ensures Connected(L, x, z)
  {
    var p :| IsPath(L, p) && p[0] == x && p[|p| - 1] == y;
    var q :| IsPath(L, q) && q[0] == y && q[|q| - 1] == z;
    var r := p + q[1..];
    forall i | 0 <= i < |r| - 1 ensures Adjacent(L, r[i], r[i + 1]) {
      if i < |p| - 1 {
        assert r[i] == p[i] && r[i + 1] == p[i + 1];
      } else {
        var k := i - (|p| - 1);
        assert r[i] == q[k] && r[i + 1] == q[k + 1];
      }
    }
    assert IsPath(L, r);
    assert r[|r| - 1] == z;
  }

  /** More links connect at least as much. */
  lemma ConnectedMono(L: seq<Link>, L': seq<Link>, x: int, y: int)
    requires forall l :: l in L ==> l in L'
    requires Connected(L, x, y)
    ensures Connected(L', x, y)
  {
    var p :| IsPath(L, p) && p[0] == x && p[|p| - 1] == y;
    forall i | 0 <= i < |p| - 1 ensures Adjacent(L', p[i], p[i + 1]) {
      assert Adjacent(L, p[i], p[i + 1]);
    }
    assert IsPath(L', p);
  }

  /** Without links each node is connected to itself only. */
  lemma ConnectedEmpty(x: int, y: int)
    ensures Connected([], x, y) <==> x == y
  {
    if Connected([], x, y) {
      var p :| IsPath([], p) && p[0] == x && p[|p| - 1] == y;
      assert |p| < 2 || Adjacent([], p[0], p[1]);
    } else {
      if x == y {
        ConnectedRefl([], x);
      }
    }
  }

  /** One more step of a path over L + [(a, b)]. */
  lemma ViaStep(L: seq<Link>, a: int, b: int, x: int, z: int, y: int)
    requires ConnectedVia(L, a, b, x, z) && Adjacent(L + [(a, b)], z, y)
    ensures ConnectedVia(L, a, b, x, y)
  {
    if Adjacent(L, z, y) {
      ConnectedLink(L, z, y);
      if Connected(L, x, z) {
        ConnectedTrans(L, x, z, y);
      } else if Connected(L, x, a) && Connected(L, b, z) {
        ConnectedTrans(L, b, z, y);
      } else {
        ConnectedTrans(L, a, z, y);
      }
    } else if z == a && y == b {
      ConnectedRefl(L, b);
      if Connected(L, x, b) && Connected(L, a, z) {
        assert Connected(L, x, y);
      }
    } else {
      assert z == b && y == a;
      ConnectedRefl(L, a);
      if Connected(L, x, a) && Connected(L, b, z) {
        assert Connected(L, x, y);
      }
    }
  }

  /** A connection over L + [(a, b)] is a connection over L, possibly through the new link. */
  lemma AddLinkOnly(L: seq<Link>, a: int, b: int, x: int, y: int)
    requires Connected(L + [(a, b)], x, y)
    ensures ConnectedVia(L, a, b, x, y)
  {
    var L' := L + [(a, b)];
    var p :| IsPath(L', p) && p[0] == x && p[|p| - 1] == y;
    ConnectedRefl(L, x);
    var k := 0;
    while k < |p| - 1
      invariant 0 <= k <= |p| - 1
      invariant ConnectedVia(L, a, b, x, p[k])
    {
      ViaStep(L, a, b, x, p[k], p[k + 1]);
      k := k + 1;
    }
  }

  lemma AddLinkIff(L: seq<Link>, a: int, b: int, x: int, y: int)
    ensures Connected(L + [(a, b)], x, y) <==> ConnectedVia(L, a, b, x, y)
  {
    var L' := L + [(a, b)];
    if Connected(L + [(a, b)], x, y) {
      AddLinkOnly(L, a, b, x, y);
    }
    if ConnectedVia(L, a, b, x, y) {
      assert forall l :: l in L ==> l in L';
      ConnectedLink(L', a, b);
      ConnectedSym(L', a, b);
      if Connected(L, x, y) {
        ConnectedMono(L, L', x, y);
      } else if Connected(L, x, a) && Connected(L, b, y) {
        ConnectedMono(L, L', x, a);
        ConnectedMono(L, L', b, y);
        ConnectedTrans(L', x, a, b);
        ConnectedTrans(L', x, b, y);
      } else {
        ConnectedMono(L, L', x, b);
        ConnectedMono(L, L', a, y);
        ConnectedTrans(L', x, b, a);
        ConnectedTrans(L', x, a, y);
      }
    }
  }

  /** Lists with the same links connect the same pairs. */
  lemma SameLinksSameConnectivity(L: seq<Link>, L': seq<Link>)
    requires forall l :: l in L <==> l in L'
    ensures SameConnectivity(L, L')
  {
    forall x, y ensures Connected(L, x, y) <==> Connected(L', x, y) {
      if Connected(L, x, y) {
        ConnectedMono(L, L', x, y);
      }
      if Connected(L', x, y) {
        ConnectedMono(L', L, x, y);
      }
    }
  }

  /** Adding the same link to two lists that connect the same pairs keeps them alike. */
  lemma AddToBoth(L: seq<Link>, L': seq<Link>, a: int, b: int)
    requires SameConnectivity(L, L')
    ensures SameConnectivity(L + [(a, b)], L' + [(a, b)])
  {
    forall x, y ensures Connected(L + [(a, b)], x, y) <==> Connected(L' + [(a, b)], x, y) {
      AddLinkIff(L, a, b, x, y);
      AddLinkIff(L', a, b, x, y);
    }
  }

  /** A link between nodes that are connected already changes nothing. */
  lemma AddRedundant(L: seq<Link>, a: int, b: int)
    requires Connected(L, a, b)
    ensures SameConnectivity(L + [(a, b)], L)
  {
    ConnectedSym(L, a, b);
    forall x, y ensures Connected(L + [(a, b)], x, y) <==> Connected(L, x, y) {
      AddLinkIff(L, a, b, x, y);
      if Connected(L, x, a) && Connected(L, b, y) {
        ConnectedTrans(L, x, a, b);
        ConnectedTrans(L, x, b, y);
      } else if Connected(L, x, b) && Connected(L, a, y) {
        ConnectedTrans(L, x, b, a);
        ConnectedTrans(L, x, a, y);
      }
    }
  }

  lemma SameConnectivityTrans(L1: seq<Link>, L2: seq<Link>, L3: seq<Link>)
    requires SameConnectivity(L1, L2) && SameConnectivity(L2, L3)
    ensures SameConnectivity(L1, L3)
  {
  }

  /** Alike lists have the same components. */
  lemma LeadersAlike(L: seq<Link>, L': seq<Link>, n: int)
    requires SameConnectivity(L, L')
    ensures Leaders(L, n) == Leaders(L', n)
  {
    forall x ensures IsLeader(L, x) <==> IsLeader(L', x) {
    }
  }
}
