/** Facts about sequences and finite sets of indices shared by the other modules. */
module Seqs {

  /** No element occurs twice in s. */
  predicate Distinct<T(==)>(s: seq<T>)
  {
    forall i, j :: 0 <= i < j < |s| ==> s[i] != s[j]
  }

  /** The two halves of a duplicate-free concatenation are duplicate-free and share nothing. */
  lemma DistinctConcat<T>(a: seq<T>, b: seq<T>)
    requires Distinct(a + b)
    ensures Distinct(a) && Distinct(b)
    ensures forall x :: x in a ==> x !in b
  {
    forall i, j | 0 <= i < j < |b| ensures b[i] != b[j] {
      assert b[i] == (a + b)[|a| + i] && b[j] == (a + b)[|a| + j];
    }
    forall x | x in a ensures x !in b {
      var i :| 0 <= i < |a| && a[i] == x;
      forall j | 0 <= j < |b| ensures b[j] != x {
        assert (a + b)[i] == x && (a + b)[|a| + j] == b[j];
      }
    }
    assert forall i :: 0 <= i < |a| ==> a[i] == (a + b)[i];
  }

  /** Concatenation is associative. */
  lemma AppendAssoc<T>(a: seq<T>, b: seq<T>, c: seq<T>)
    ensures (a + b) + c == a + (b + c)
  {
  }

  /** The two halves of a concatenation. */
  lemma AppendHalves<T>(a: seq<T>, b: seq<T>)
    ensures (a + b)[..|a|] == a && (a + b)[|a|..] == b
  {
  }

  /** Adding x to the multiset of a front part adds it to the multiset of the whole. */
  lemma MultisetAddFront<T>(a: seq<T>, a': seq<T>, l: seq<T>, x: T)
    requires multiset(a') == multiset(a) + multiset{x}
    ensures multiset(a' + l) == multiset(a + l) + multiset{x}
  {
    calc {
      multiset(a' + l);
      multiset(a') + multiset(l);
      multiset(a) + multiset{x} + multiset(l);
      multiset(a) + multiset(l) + multiset{x};
      multiset(a + l) + multiset{x};
    }
  }

  /** Adding x at the end of a back part adds it to the multiset of the whole. */
  lemma MultisetAddBack<T>(a: seq<T>, l: seq<T>, l': seq<T>, x: T)
    requires l' == l + [x]
    ensures multiset(a + l') == multiset(a + l) + multiset{x}
  {
    assert a + l' == (a + l) + [x];
  }

  /** A prefix one longer is the prefix and the next element. */
  lemma TakeOneMore<T>(s: seq<T>, k: int)
    requires 0 <= k < |s|
    ensures s[..k + 1] == s[..k] + [s[k]]
  {
  }

  /** Concatenating duplicate-free sequences that share nothing gives a duplicate-free sequence. */
  lemma DistinctAppend<T>(a: seq<T>, b: seq<T>)
    requires Distinct(a) && Distinct(b)
    requires forall x :: x in b ==> x !in a
    ensures Distinct(a + b)
  {
    forall i, j | 0 <= i < j < |a + b| ensures (a + b)[i] != (a + b)[j] {
      if j < |a| {
        assert (a + b)[i] == a[i] && (a + b)[j] == a[j];
      } else if i < |a| {
        assert (a + b)[i] == a[i] && (a + b)[j] == b[j - |a|];
        assert b[j - |a|] in b;
      } else {
        assert (a + b)[i] == b[i - |a|] && (a + b)[j] == b[j - |a|];
      }
    }
  }

  /** The indices 0 .. n-1. */
  ghost function Range(n: int): (r: set<int>)
    ensures forall x :: x in r <==> 0 <= x < n
  {
    if n <= 0 then {} else Range(n - 1) + {n - 1}
  }

  /** The set of the elements of s. */
  ghost function Elements<T>(s: seq<T>): set<T>
  {
    set x | x in s
  }

  lemma {:induction false} RangeCard(n: nat)
    ensures |Range(n)| == n
  {
    if n > 0 {
      RangeCard(n - 1);
    }
  }

  lemma {:induction false} SubsetCard<T>(a: set<T>, b: set<T>)
    requires a <= b
    ensures |a| <= |b|
    ensures |a| == |b| ==> a == b
    decreases |b|
  {
    if b != {} {
      var x :| x in b;
      SubsetCard(a - {x}, b - {x});
      if x in a {
        assert |a - {x}| == |a| - 1;
        if |a| == |b| {
          assert a - {x} == b - {x};
          assert a == (a - {x}) + {x} && b == (b - {x}) + {x};
        }
      } else {
        assert a - {x} == a;
      }
    }
  }

  /** A set of indices below n has at most n elements, and exactly n only when it is all of them. */
  lemma InRangeCard(s: set<int>, n: nat)
    requires forall x :: x in s ==> 0 <= x < n
    ensures |s| <= n
    ensures |s| == n ==> s == Range(n)
  {
    RangeCard(n);
    SubsetCard(s, Range(n));
  }

  lemma {:induction false} DistinctElements<T>(s: seq<T>)
    requires Distinct(s)
    ensures |Elements(s)| == |s|
  {
    if s != [] {
      var t := s[..|s| - 1];
      assert Distinct(t);
      DistinctElements(t);
      assert Elements(s) == Elements(t) + {s[|s| - 1]};
      assert s[|s| - 1] !in Elements(t);
    }
  }

  /** A duplicate-free sequence of indices below n is at most n long, and when it is exactly
      n long every index occurs in it. */
  lemma DistinctInRange(s: seq<int>, n: nat)
    requires Distinct(s)
    requires forall i :: 0 <= i < |s| ==> 0 <= s[i] < n
    ensures |s| <= n
    ensures |s| == n ==> forall v :: 0 <= v < n ==> v in s
  {
    DistinctElements(s);
    InRangeCard(Elements(s), n);
    if |s| == n {
      forall v | 0 <= v < n ensures v in s {
        assert v in Range(n);
      }
    }
  }

  lemma {:induction false} ElementsCard<T>(s: seq<T>)
    ensures |Elements(s)| <= |s|
  {
    if s != [] {
      var t := s[..|s| - 1];
      ElementsCard(t);
      assert Elements(s) == Elements(t) + {s[|s| - 1]};
    }
  }

  /** Fewer than n elements cannot cover all of the indices 0 .. n-1. */
  lemma MissingIndex(s: seq<int>, n: nat) returns (v: int)
    requires |s| < n
    ensures 0 <= v < n && v !in s
  {
    if forall x :: 0 <= x < n ==> x in s {
      ElementsCard(s);
      assert Range(n) <= Elements(s);
      RangeCard(n);
      SubsetCard(Range(n), Elements(s));
      assert false;
    }
    v :| 0 <= v < n && v !in s;
  }

  /** A sequence of more than n indices below n repeats one of them. */
  lemma Pigeonhole(s: seq<int>, n: nat) returns (i: int, j: int)
    requires |s| > n
    requires forall k :: 0 <= k < |s| ==> 0 <= s[k] < n
    ensures 0 <= i < j < |s| && s[i] == s[j]
  {
    if Distinct(s) {
      DistinctInRange(s, n);
      assert false;
    }
    i, j :| 0 <= i < j < |s| && s[i] == s[j];
  }

  /** The total length of the inner sequences. */
  function TotalLength<T>(ss: seq<seq<T>>): nat
  {
    if ss == [] then 0 else TotalLength(ss[..|ss| - 1]) + |ss[|ss| - 1]|
  }
}
