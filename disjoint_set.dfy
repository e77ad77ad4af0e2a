/** Union-find over the elements 0 .. n-1 with path compression and union by size.
    The state is one flat array: a negative entry marks a root and holds minus the size of
    its tree, a non-negative entry is a parent pointer (possibly not yet compressed). */
module DisjointSets {
  import Seqs

  /** The elements whose representative is r. */
  ghost function Members(root: seq<int>, r: int): set<int>
  {
    set i | 0 <= i < |root| && root[i] == r
  }

  /** The roots of the forest stored in t. */
  ghost function Roots(t: seq<int>): set<int>
  {
    set r | 0 <= r < |t| && t[r] < 0
  }

  /** Ghost ranks strictly increase along parent pointers and stay below |t|: this is what
      makes following parent pointers terminate. */
  ghost predicate RankOrdered(t: seq<int>, rank: seq<nat>)
  {
    && |rank| == |t|
    && (forall i :: 0 <= i < |t| ==> rank[i] < |t|)
    && (forall i :: 0 <= i < |t| && t[i] >= 0 ==> t[i] < |t|)
    && (forall i {:trigger rank[t[i]]} :: 0 <= i < |t| && t[i] >= 0 ==> rank[i] < rank[t[i]])
  }

  /** The representation invariant. root[i] is the representative of i (the abstract
      partition); every parent pointer stays inside its set; a root's entry is minus the
      number of elements it represents. */
  ghost predicate Inv(t: seq<int>, root: seq<int>, rank: seq<nat>)
  {
    && RankOrdered(t, rank)
    && |root| == |t|
    && (forall i {:trigger root[i]} :: 0 <= i < |t| ==>
          0 <= root[i] < |t| && t[root[i]] < 0 && (t[i] < 0 ==> root[i] == i))
    && (forall i {:trigger Members(root, i)} :: 0 <= i < |t| && t[i] < 0 ==> rank[i] < -t[i] && -t[i] == |Members(root, i)|)
    && (forall i {:trigger root[t[i]]} :: 0 <= i < |t| && t[i] >= 0 ==> root[t[i]] == root[i])
  }

  /** The root reached by following parent pointers from i, without compressing. */
  ghost function FindRoot(t: seq<int>, rank: seq<nat>, i: int): int
    requires RankOrdered(t, rank) && 0 <= i < |t|
    decreases |t| - rank[i]
  {
    if t[i] < 0 then i else FindRoot(t, rank, t[i])
  }

  /** The non-root nodes on the way from i to its root: the nodes find(i) relinks. */
  ghost function Path(t: seq<int>, rank: seq<nat>, i: int): set<int>
    requires RankOrdered(t, rank) && 0 <= i < |t|
    decreases |t| - rank[i]
  {
    if t[i] < 0 then {} else {i} + Path(t, rank, t[i])
  }

  /** The abstract partition after the set represented by child is merged into parent's. */
  ghost function Relabel(root: seq<int>, child: int, parent: int): (r: seq<int>)
    ensures |r| == |root|
    ensures forall j {:trigger r[j]} :: 0 <= j < |root| ==> r[j] == if root[j] == child then parent else root[j]
  {
    seq(|root|, j requires 0 <= j < |root| => if root[j] == child then parent else root[j])
  }

  function Max(a: int, b: int): int
  {
    if a < b then b else a
  }

  /** The freshly constructed array (every entry -1) is n singleton sets. */
  lemma SingletonsInv(n: nat)
    ensures Inv(seq(n, _ => -1), seq(n, i => i), seq(n, _ => 0))
  {
    var root := seq(n, i => i);
    forall i | 0 <= i < n
      ensures |Members(root, i)| == 1
    {
      assert Members(root, i) == {i};
    }
  }

  /** The abstract partition agrees with the array: following parent pointers from i ends
      at root[i]. */
  lemma {:induction false} FindRootIsRoot(t: seq<int>, root: seq<int>, rank: seq<nat>, i: int)
    requires Inv(t, root, rank) && 0 <= i < |t|
    ensures FindRoot(t, rank, i) == root[i]
    decreases |t| - rank[i]
  {
    if t[i] >= 0 {
      FindRootIsRoot(t, root, rank, t[i]);
    }
  }

  /** Every node on the path is a non-root element of i's set. */
  lemma {:induction false} PathInSet(t: seq<int>, root: seq<int>, rank: seq<nat>, i: int, j: int)
    requires Inv(t, root, rank) && 0 <= i < |t|
    requires j in Path(t, rank, i)
    ensures 0 <= j < |t| && t[j] >= 0 && root[j] == root[i]
    decreases |t| - rank[i]
  {
    if j != i {
      PathInSet(t, root, rank, t[i], j);
    }
  }

  /** The array after find(i) has relinked every node on i's path to r. */
  ghost function Compress(t: seq<int>, rank: seq<nat>, i: int, r: int): (t': seq<int>)
    requires RankOrdered(t, rank) && 0 <= i < |t|
    ensures |t'| == |t|
    ensures forall j {:trigger t'[j]} :: 0 <= j < |t| ==> t'[j] == if j in Path(t, rank, i) then r else t[j]
  {
    seq(|t|, j requires 0 <= j < |t| => if j in Path(t, rank, i) then r else t[j])
  }

  /** Ranks increase all the way from a non-root to its representative. */
  lemma {:induction false} RankBelowRoot(t: seq<int>, root: seq<int>, rank: seq<nat>, j: int)
    requires Inv(t, root, rank) && 0 <= j < |t| && t[j] >= 0
    ensures rank[j] < rank[root[j]]
    decreases |t| - rank[j]
  {
    var p := t[j];
    assert root[t[j]] == root[j];
    if t[p] >= 0 {
      RankBelowRoot(t, root, rank, p);
    }
  }

  /** Relinking every node of i's path to i's representative keeps the invariant, the
      partition and the roots with their sizes. */
  lemma CompressPreservesInv(t: seq<int>, root: seq<int>, rank: seq<nat>, i: int)
    requires Inv(t, root, rank) && 0 <= i < |t|
    ensures Inv(Compress(t, rank, i, root[i]), root, rank)
    ensures Roots(Compress(t, rank, i, root[i])) == Roots(t)
    ensures forall j :: 0 <= j < |t| && t[j] < 0 ==> Compress(t, rank, i, root[i])[j] == t[j]
  {
    var r := root[i];
    var t' := Compress(t, rank, i, r);
    var p := Path(t, rank, i);
    forall j | j in p ensures 0 <= j < |t| && t[j] >= 0 && root[j] == r && rank[j] < rank[r] {
      PathInSet(t, root, rank, i, j);
      RankBelowRoot(t, root, rank, j);
    }
    assert RankOrdered(t', rank);
    forall j | 0 <= j < |t| && t'[j] < 0 ensures rank[j] < -t'[j] && -t'[j] == |Members(root, j)| {
      assert j !in p && t'[j] == t[j];
      assert t[j] < 0;
      assert -t[j] == |Members(root, j)|;
      assert rank[j] < -t[j];
    }
    forall j | 0 <= j < |t| && t'[j] >= 0 ensures root[t'[j]] == root[j] {
      if j !in p {
        assert root[t[j]] == root[j];
      }
    }
    assert Roots(t') == Roots(t);
  }

  /** What find(i) promises about the array it leaves behind. */
  lemma CompressFacts(t: seq<int>, root: seq<int>, rank: seq<nat>, i: int)
    requires Inv(t, root, rank) && 0 <= i < |t|
    ensures FindRoot(t, rank, i) == root[i]
    ensures Inv(Compress(t, rank, i, root[i]), root, rank)
    ensures Roots(Compress(t, rank, i, root[i])) == Roots(t)
    ensures t[i] < 0 ==> root[i] == i && Compress(t, rank, i, root[i]) == t
  {
    FindRootIsRoot(t, root, rank, i);
    CompressPreservesInv(t, root, rank, i);
  }

  /** The compression done by find(i) is the parent's compression plus the relink of i. */
  lemma CompressStep(t: seq<int>, root: seq<int>, rank: seq<nat>, i: int)
    requires Inv(t, root, rank) && 0 <= i < |t| && t[i] >= 0
    ensures root[t[i]] == root[i]
    ensures Compress(t, rank, t[i], root[i])[i := root[i]] == Compress(t, rank, i, root[i])
  {
    assert root[t[i]] == root[i];
  }

  lemma DisjointUnionCard(a: set<int>, b: set<int>)
    requires a * b == {}
    ensures |a + b| == |a| + |b|
  {
  }

  /** The ranks after a link: a root's rank stays below the size of its tree. */
  lemma LinkRankOrdered(t: seq<int>, root: seq<int>, rank: seq<nat>, child: int, parent: int)
    requires Inv(t, root, rank)
    requires 0 <= child < |t| && 0 <= parent < |t| && child != parent
    requires t[child] < 0 && t[parent] < 0
    ensures var rank' := rank[parent := Max(rank[parent], rank[child] + 1)];
      && RankOrdered(t[parent := t[parent] + t[child]][child := parent], rank')
      && rank'[parent] < -(t[parent] + t[child])
  {
    var n := |t|;
    var a, b := Members(root, child), Members(root, parent);
    assert a * b == {};
    DisjointUnionCard(a, b);
    Seqs.InRangeCard(a + b, n);
  }

  /** After a link the sets are those of before, with child's set merged into parent's. */
  lemma LinkMembers(t: seq<int>, root: seq<int>, rank: seq<nat>, child: int, parent: int, x: int)
    requires Inv(t, root, rank)
    requires 0 <= child < |t| && 0 <= parent < |t| && child != parent
    requires t[child] < 0 && t[parent] < 0
    ensures Members(Relabel(root, child, parent), x) ==
      if x == parent then Members(root, child) + Members(root, parent)
      else if x == child then {}
      else Members(root, x)
  {
  }

  /** Attaching root child under root parent and adding its size to parent's entry keeps the
      invariant; child's members now have parent as representative. Union by size is not
      needed for this: it only bounds tree heights. */
  lemma LinkPreservesInv(t: seq<int>, root: seq<int>, rank: seq<nat>, child: int, parent: int)
    requires Inv(t, root, rank)
    requires 0 <= child < |t| && 0 <= parent < |t| && child != parent
    requires t[child] < 0 && t[parent] < 0
    ensures Inv(t[parent := t[parent] + t[child]][child := parent],
                Relabel(root, child, parent),
                rank[parent := Max(rank[parent], rank[child] + 1)])
  {
    var n := |t|;
    var t' := t[parent := t[parent] + t[child]][child := parent];
    var root' := Relabel(root, child, parent);
    var rank' := rank[parent := Max(rank[parent], rank[child] + 1)];
    LinkRankOrdered(t, root, rank, child, parent);
    var a, b := Members(root, child), Members(root, parent);
    assert a * b == {};
    DisjointUnionCard(a, b);
    forall x | 0 <= x < n && t'[x] < 0
      ensures rank'[x] < -t'[x] && -t'[x] == |Members(root', x)|
    {
      LinkMembers(t, root, rank, child, parent, x);
      if x != parent {
        assert -t[x] == |Members(root, x)|;
      }
    }
    assert RankOrdered(t', rank');
    assert |root'| == |t'|;
    forall i | 0 <= i < n && t'[i] >= 0 ensures root'[t'[i]] == root'[i] {
      if i != child {
        assert root[t[i]] == root[i];
      }
    }
    assert Inv(t', root', rank');
  }

  /** Everything union needs about the array it leaves behind, given entry by entry: the
      invariant holds for the merged partition, child is no longer a root, and parent's tree
      covers every element exactly when it is the last tree. */
  lemma LinkFacts(t: seq<int>, t': seq<int>, root: seq<int>, root': seq<int>, rank: seq<nat>, rank': seq<nat>,
                  child: int, parent: int)
    requires Inv(t, root, rank)
    requires 0 <= child < |t| && 0 <= parent < |t| && child != parent
    requires t[child] < 0 && t[parent] < 0
    requires |t'| == |t| && t'[child] == parent && t'[parent] == t[parent] + t[child]
    requires forall k :: 0 <= k < |t| && k != child && k != parent ==> t'[k] == t[k]
    requires root' == Relabel(root, child, parent)
    requires rank' == rank[parent := Max(rank[parent], rank[child] + 1)]
    ensures Inv(t', root', rank')
    ensures Roots(t') == Roots(t) - {child}
    ensures -t'[parent] == |t| <==> Roots(t') == {parent}
  {
    assert t' == t[parent := t[parent] + t[child]][child := parent];
    LinkPreservesInv(t, root, rank, child, parent);
    FullTreeIffSingleRoot(t', root', rank', parent);
  }

  /** The sizes stored at the roots below k add up to the number of elements whose
      representative is below k. */
  ghost function SizeSum(t: seq<int>, k: int): int
    requires 0 <= k <= |t|
  {
    if k == 0 then 0 else SizeSum(t, k - 1) + (if t[k - 1] < 0 then -t[k - 1] else 0)
  }

  lemma {:induction false} SizeSumCounts(t: seq<int>, root: seq<int>, k: int)
    requires |root| == |t| && 0 <= k <= |t|
    requires forall j :: 0 <= j < |t| ==> 0 <= root[j] < |t| && t[root[j]] < 0
    requires forall i :: 0 <= i < |t| && t[i] < 0 ==> -t[i] == |Members(root, i)|
    ensures SizeSum(t, k) == |set j | 0 <= j < |t| && root[j] < k|
  {
    if k == 0 {
      assert (set j | 0 <= j < |t| && root[j] < k) == {};
    } else {
      SizeSumCounts(t, root, k - 1);
      var below := set j | 0 <= j < |t| && root[j] < k - 1;
      var m := Members(root, k - 1);
      assert (set j | 0 <= j < |t| && root[j] < k) == below + m;
      assert below * m == {};
      DisjointUnionCard(below, m);
      if t[k - 1] >= 0 {
        assert m == {};
      }
    }
  }

  /** The sizes held by all roots add up to the number of elements. */
  lemma SizesSumToN(t: seq<int>, root: seq<int>, rank: seq<nat>)
    requires Inv(t, root, rank)
    ensures SizeSum(t, |t|) == |t|
  {
    SizeSumCounts(t, root, |t|);
    assert (set j | 0 <= j < |t| && root[j] < |t|) == Seqs.Range(|t|);
    Seqs.RangeCard(|t|);
  }

  /** A tree covers the whole universe exactly when it is the only tree left. */
  lemma FullTreeIffSingleRoot(t: seq<int>, root: seq<int>, rank: seq<nat>, r: int)
    requires Inv(t, root, rank) && 0 <= r < |t| && t[r] < 0
    ensures -t[r] == |t| <==> Roots(t) == {r}
  {
    var n := |t|;
    Seqs.RangeCard(n);
    if -t[r] == n {
      Seqs.SubsetCard(Members(root, r), Seqs.Range(n));
      forall x | x in Roots(t) ensures x == r {
        assert x in Members(root, r);
      }
    }
    if Roots(t) == {r} {
      forall j | 0 <= j < n ensures j in Members(root, r) {
        assert root[j] in Roots(t);
      }
      assert Members(root, r) == Seqs.Range(n);
    }
  }

  /** No element before v is in v's set. */
  ghost predicate FirstInSet(root: seq<int>, v: int)
    requires 0 <= v < |root|
  {
    forall u :: 0 <= u < v ==> root[u] != root[v]
  }

  /** The elements below k that come first in their set. */
  ghost function Firsts(root: seq<int>, k: int): set<int>
    requires 0 <= k <= |root|
  {
    set v | 0 <= v < k && FirstInSet(root, v)
  }

  /** The representatives of the elements below k. */
  ghost function Seen(root: seq<int>, k: int): set<int>
    requires 0 <= k <= |root|
  {
    set j | 0 <= j < k :: root[j]
  }

  lemma SeenStep(root: seq<int>, k: int)
    requires 0 < k <= |root|
    ensures Seen(root, k) == Seen(root, k - 1) + {root[k - 1]}
  {
  }

  lemma FirstsStep(root: seq<int>, k: int)
    requires 0 < k <= |root|
    ensures k - 1 !in Firsts(root, k - 1)
    ensures root[k - 1] in Seen(root, k - 1) ==> Firsts(root, k) == Firsts(root, k - 1)
    ensures root[k - 1] !in Seen(root, k - 1) ==> Firsts(root, k) == Firsts(root, k - 1) + {k - 1}
  {
    if root[k - 1] in Seen(root, k - 1) {
      var u :| 0 <= u < k - 1 && root[u] == root[k - 1];
      assert !FirstInSet(root, k - 1);
    } else {
      forall u | 0 <= u < k - 1 ensures root[u] != root[k - 1] {
        assert root[u] in Seen(root, k - 1);
      }
      assert FirstInSet(root, k - 1);
    }
  }

  /** The number of distinct representatives among the first k elements equals the number of
      elements below k that are the first of their set. */
  lemma {:induction false} FirstsCountClasses(root: seq<int>, k: int)
    requires 0 <= k <= |root|
    ensures |Firsts(root, k)| == |Seen(root, k)|
  {
    if k > 0 {
      FirstsCountClasses(root, k - 1);
      SeenStep(root, k);
      FirstsStep(root, k);
      if root[k - 1] in Seen(root, k - 1) {
        assert Seen(root, k) == Seen(root, k - 1);
      } else {
        assert |Seen(root, k)| == |Seen(root, k - 1)| + 1;
        assert |Firsts(root, k)| == |Firsts(root, k - 1)| + 1;
      }
    }
  }

  /** Under the invariant the representatives are exactly the roots, so the number of sets
      is the number of elements that come first in their set. */
  lemma ClassesAreRoots(t: seq<int>, root: seq<int>, rank: seq<nat>)
    requires Inv(t, root, rank)
    ensures |Roots(t)| == |Firsts(root, |t|)|
  {
    FirstsCountClasses(root, |t|);
    var seen := Seen(root, |t|);
    forall r | r in Roots(t) ensures r in seen {
      assert root[r] == r;
    }
    assert seen == Roots(t);
  }

  class DisjointSet {
    const theArray: array<int>
    /** The number of elements; the constructor's argument. */
    const numValues: nat
    /** Abstract partition: root[i] is the representative find(i) returns. */
    ghost var root: seq<int>
    /** Ghost termination measure for find. */
    ghost var rank: seq<nat>

    ghost predicate Valid()
      reads this, theArray
    {
      theArray.Length == numValues && Inv(theArray[..], root, rank)
    }

    /** numObjects singletons: every entry -1. */
    constructor (numObjects: nat)
      ensures Valid() && fresh(theArray) && numValues == numObjects
      ensures theArray[..] == seq(numObjects, _ => -1)
      ensures root == seq(numObjects, i => i)
      ensures Roots(theArray[..]) == Seqs.Range(numObjects)
    {
      numValues := numObjects;
      theArray := new int[numObjects](_ => -1);
      root := seq(numObjects, i => i);
      rank := seq(numObjects, _ => 0);
      new;
      assert theArray[..] == seq(numObjects, _ => -1);
      SingletonsInv(numObjects);
    }

    /** Returns the root of objectIndex's set and relinks every node on the way straight to
        that root. The partition, the roots and their sizes do not change. */
    method Find(objectIndex: int) returns (r: int)
      requires Valid() && 0 <= objectIndex < numValues
      modifies theArray
      ensures Valid() && root == old(root) && rank == old(rank)
      ensures r == root[objectIndex] && theArray[r] < 0 && root[r] == r
      ensures r == old(FindRoot(theArray[..], rank, objectIndex))
      ensures theArray[..] == old(Compress(theArray[..], rank, objectIndex, r))
      ensures Roots(theArray[..]) == old(Roots(theArray[..]))
      ensures theArray[r] == old(theArray[r])
      ensures rank[objectIndex] <= rank[r]
      decreases numValues - rank[objectIndex]
    {
      ghost var t0 := theArray[..];
      CompressFacts(t0, root, rank, objectIndex);
      if theArray[objectIndex] < 0 {
        r := objectIndex;
      } else {
        var parent := theArray[objectIndex];
        CompressStep(t0, root, rank, objectIndex);
        r := Find(parent);
        ghost var t1 := theArray[..];
        theArray[objectIndex] := r;
        assert theArray[..] == t1[objectIndex := r];
      }
    }

    /** The linking step of doUnion: the root of the smaller tree (root2's on equal sizes) is
        hung under the other root, whose entry takes the combined size. */
    method Link(root1: int, root2: int)
      requires Valid() && 0 <= root1 < numValues && 0 <= root2 < numValues && root1 != root2
      requires theArray[root1] < 0 && theArray[root2] < 0
      modifies this, theArray
      ensures Valid()
      ensures var child := if old(theArray[root1]) > old(theArray[root2]) then root1 else root2;
        var parent := if child == root1 then root2 else root1;
        && theArray[child] == parent
        && theArray[parent] == old(theArray[root1]) + old(theArray[root2])
        && root == Relabel(old(root), child, parent)
        && Roots(theArray[..]) == old(Roots(theArray[..])) - {child}
        && (theArray[parent] == -(numValues as int) <==> Roots(theArray[..]) == {parent})
    {
      ghost var t0 := theArray[..];
      ghost var child, parent := if theArray[root1] > theArray[root2] then root1 else root2,
                                 if theArray[root1] > theArray[root2] then root2 else root1;
      ghost var root0, rank0 := root, rank;
      root := Relabel(root, child, parent);
      rank := rank[parent := Max(rank[parent], rank[child] + 1)];
      if theArray[root1] > theArray[root2] {
        theArray[root2] := theArray[root2] + theArray[root1];
        theArray[root1] := root2;
      } else {
        theArray[root1] := theArray[root1] + theArray[root2];
        theArray[root2] := root1;
      }
      LinkFacts(t0, theArray[..], root0, root, rank0, rank, child, parent);
    }

    /** Merges the sets of objIndex1 and objIndex2 by size (on equal sizes the second root goes
        under the first) and reports whether the merged tree now covers all numValues
        elements. */
    method DoUnion(objIndex1: int, objIndex2: int) returns (covers: bool)
      requires Valid() && 0 <= objIndex1 < numValues && 0 <= objIndex2 < numValues
      modifies this, theArray
      ensures Valid()
      ensures old(root[objIndex1]) == old(root[objIndex2]) ==>
        && !covers
        && root == old(root)
        && Roots(theArray[..]) == old(Roots(theArray[..]))
      ensures old(root[objIndex1]) != old(root[objIndex2]) ==>
        var r1, r2 := old(root[objIndex1]), old(root[objIndex2]);
        var s1, s2 := -old(theArray[r1]), -old(theArray[r2]);
        var child := if s1 < s2 then r1 else r2;
        var parent := if s1 < s2 then r2 else r1;
        && theArray[child] == parent
        && theArray[parent] == -(s1 + s2)
        && root == Relabel(old(root), child, parent)
        && Roots(theArray[..]) == old(Roots(theArray[..])) - {child}
        && (covers <==> s1 + s2 == numValues)
        && (covers <==> Roots(theArray[..]) == {parent})
    {
      var root1 := Find(objIndex1);
      var root2 := Find(objIndex2);
      if root1 == root2 {
        return false;
      }
      Link(root1, root2);
      covers := theArray[root1] == -(numValues as int) || theArray[root2] == -(numValues as int);
    }
  }
}
