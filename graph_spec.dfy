/**
 * Specification of the DAG algorithms of DAGAlgorithm: the edge counting
 * that the stored in-degrees stand for, paths and cycles, what a finished
 * Kahn sort delivers, and one step of the depth-first iterator as a pure
 * function of its stack and visited vector.
 *
 * A graph is its adjacency lists: vertex u has the out-edges edges[u], in
 * insertion order, and the vertices are 0 .. |edges| - 1.
 */
module GraphSpec {
  import opened Common

  /** Every adjacency entry names a vertex of the graph. */
  ghost predicate EdgesInRange(edges: seq<seq<int>>)
  {
    forall u, k :: 0 <= u < |edges| && 0 <= k < |edges[u]| ==> 0 <= edges[u][k] < |edges|
  }

  /**
   * The number of edges u -> w, counted with multiplicity, whose source u is
   * below n and not in gone.
   */
  ghost function InCount(edges: seq<seq<int>>, w: int, gone: set<int>, n: nat): nat
    requires n <= |edges|
  {
    if n == 0 then 0
    else InCount(edges, w, gone, n - 1) + (if n - 1 in gone then 0 else multiset(edges[n - 1])[w])
  }

  /** The stored in-degree of every vertex is its number of incoming edges. */
  ghost predicate IndegreesConsistent(edges: seq<seq<int>>, indegrees: seq<int>)
  {
    && |indegrees| == |edges|
    && forall w :: 0 <= w < |edges| ==> indegrees[w] == InCount(edges, w, {}, |edges|)
  }

  /** InCount only looks at the sources below n. */
  lemma {:induction false} InCountAgree(edges: seq<seq<int>>, w: int, g1: set<int>, g2: set<int>, n: nat)
    requires n <= |edges|
    requires forall u :: 0 <= u < n ==> (u in g1 <==> u in g2)
    ensures InCount(edges, w, g1, n) == InCount(edges, w, g2, n)
  {
    if n > 0 {
      InCountAgree(edges, w, g1, g2, n - 1);
    }
  }

  /** Removing one more source v takes away exactly the edges v -> w. */
  lemma {:induction false} InCountRemove(edges: seq<seq<int>>, w: int, gone: set<int>, v: int, n: nat)
    requires n <= |edges| && 0 <= v < n && v !in gone
    ensures InCount(edges, w, gone + {v}, n) + multiset(edges[v])[w] == InCount(edges, w, gone, n)
  {
    if v < n - 1 {
      InCountRemove(edges, w, gone, v, n - 1);
    } else {
      InCountAgree(edges, w, gone + {v}, gone, n - 1);
    }
  }

  /** No edge counted means no source outside gone has w as a successor. */
  lemma {:induction false} InCountZero(edges: seq<seq<int>>, w: int, gone: set<int>, n: nat)
    requires n <= |edges|
    ensures InCount(edges, w, gone, n) == 0 <==> forall u :: 0 <= u < n && u !in gone ==> w !in edges[u]
  {
    if n > 0 {
      InCountZero(edges, w, gone, n - 1);
      assert w in edges[n - 1] <==> multiset(edges[n - 1])[w] > 0;
    }
  }

  /** A walk along edges: at least one vertex, each next vertex a successor of the previous one. */
  ghost predicate IsPath(edges: seq<seq<int>>, p: seq<int>)
  {
    && |p| >= 1
    && (forall i :: 0 <= i < |p| ==> 0 <= p[i] < |edges|)
    && (forall i :: 0 <= i < |p| - 1 ==> p[i + 1] in edges[p[i]])
  }

  /** A closed walk of at least one edge (a self-loop is a cycle). */
  ghost predicate IsCycle(edges: seq<seq<int>>, p: seq<int>)
  {
    IsPath(edges, p) && |p| >= 2 && p[0] == p[|p| - 1]
  }

  ghost predicate Acyclic(edges: seq<seq<int>>)
  {
    forall p :: !IsCycle(edges, p)
  }

  /** Whenever sorted[i] -> sorted[j] is an edge, i comes before j. */
  ghost predicate EdgeOrder(edges: seq<seq<int>>, sorted: seq<int>)
  {
    forall i, j ::
      0 <= i < |sorted| && 0 <= j < |sorted| && 0 <= sorted[i] < |edges| && sorted[j] in edges[sorted[i]] ==> i < j
  }

  /**
   * What TopoSort delivers: sorted and unsorted are disjoint, repetition-free
   * and together hold every vertex; unsorted is ascending; every predecessor
   * of a sorted vertex is sorted, and sorted respects every edge; every
   * unsorted vertex still has an incoming edge from an unsorted vertex,
   * which is why its in-degree never dropped to 0.
   */
  ghost predicate IsTopoSplit(edges: seq<seq<int>>, sorted: seq<int>, unsorted: seq<int>)
  {
    && Distinct(sorted)
    && Increasing(unsorted)
    && (forall i :: 0 <= i < |sorted| ==> 0 <= sorted[i] < |edges|)
    && (forall i :: 0 <= i < |unsorted| ==> 0 <= unsorted[i] < |edges|)
    && (forall x :: x in sorted ==> x !in unsorted)
    && (forall x :: 0 <= x < |edges| ==> x in sorted || x in unsorted)
    && (forall w, u :: w in sorted && 0 <= u < |edges| && w in edges[u] ==> u in sorted)
    && EdgeOrder(edges, sorted)
    && (forall w :: w in unsorted ==> InCount(edges, w, SetOf(sorted), |edges|) > 0)
  }

  /** The state TopoSort keeps between steps (deg is its working copy of the in-degrees). */
  ghost predicate TopoState(edges: seq<seq<int>>, deg: seq<int>, sorted: seq<int>, gone: set<int>)
  {
    && |deg| == |edges|
    && Distinct(sorted)
    && (forall x :: x in gone <==> x in sorted)
    && (forall i :: 0 <= i < |sorted| ==> 0 <= sorted[i] < |edges|)
    && (forall w :: 0 <= w < |edges| ==>
          if w in gone then deg[w] == -1 else deg[w] == InCount(edges, w, gone, |edges|))
    && (forall w, u :: w in gone && 0 <= u < |edges| && w in edges[u] ==> u in gone)
    && EdgeOrder(edges, sorted)
  }

  lemma InitialTopoState(edges: seq<seq<int>>, indegrees: seq<int>)
    requires IndegreesConsistent(edges, indegrees)
    ensures TopoState(edges, indegrees, [], {})
  {
  }

  /**
   * Emitting a vertex of working in-degree 0, decrementing the working
   * in-degree of each of its successors and marking it -1 keeps TopoState.
   */
  lemma EmitKeepsTopoState(edges: seq<seq<int>>, deg: seq<int>, deg': seq<int>,
                           sorted: seq<int>, gone: set<int>, v: int)
    requires EdgesInRange(edges) && TopoState(edges, deg, sorted, gone)
    requires 0 <= v < |edges| && deg[v] == 0
    requires |deg'| == |edges|
    requires forall w :: 0 <= w < |edges| ==>
               deg'[w] == if w == v then -1 else deg[w] - multiset(edges[v])[w]
    ensures v !in gone
    ensures TopoState(edges, deg', sorted + [v], gone + {v})
  {
    var n := |edges|;
    assert v !in gone;
    InCountZero(edges, v, gone, n);
    var sorted' := sorted + [v];
    forall w | 0 <= w < n
      ensures if w in gone + {v} then deg'[w] == -1 else deg'[w] == InCount(edges, w, gone + {v}, n)
    {
      if w !in gone && w != v {
        InCountRemove(edges, w, gone, v, n);
      }
    }
    forall i, j | 0 <= i < |sorted'| && 0 <= j < |sorted'| && 0 <= sorted'[i] < n && sorted'[j] in edges[sorted'[i]]
      ensures i < j
    {
      if j < |sorted| {
        assert sorted'[j] in gone;
      }
    }
  }

  /** Two distinct sequences with no common element concatenate to a distinct one. */
  lemma DistinctConcat(a: seq<int>, b: seq<int>)
    requires Distinct(a) && Distinct(b) && forall x :: x in a ==> x !in b
    ensures Distinct(a + b)
  {
    forall i, j | 0 <= i < j < |a + b|
      ensures (a + b)[i] != (a + b)[j]
    {
      if i < |a| && j >= |a| {
        assert (a + b)[i] in a && (a + b)[j] in b;
      }
    }
  }

  /**
   * Once a wave removes nothing, every vertex still in play has a positive
   * working in-degree, and collecting those vertices in ascending order
   * completes the split.
   */
  lemma FinishTopoSplit(edges: seq<seq<int>>, deg: seq<int>, sorted: seq<int>, gone: set<int>,
                        unsorted: seq<int>)
    requires EdgesInRange(edges) && TopoState(edges, deg, sorted, gone)
    requires forall w :: 0 <= w < |edges| ==> deg[w] != 0
    requires Increasing(unsorted)
    requires forall x :: x in unsorted <==> 0 <= x < |edges| && x !in gone
    ensures IsTopoSplit(edges, sorted, unsorted)
  {
    forall x
      ensures x in SetOf(sorted) <==> x in gone
    {
    }
    assert SetOf(sorted) == gone;
    forall i | 0 <= i < |unsorted|
      ensures 0 <= unsorted[i] < |edges|
    {
      assert unsorted[i] in unsorted;
    }
  }

  /** Each vertex appears exactly once in sorted ++ unsorted. */
  lemma SplitPartition(edges: seq<seq<int>>, sorted: seq<int>, unsorted: seq<int>)
    requires IsTopoSplit(edges, sorted, unsorted)
    ensures Distinct(sorted + unsorted)
    ensures forall x :: x in sorted + unsorted <==> 0 <= x < |edges|
  {
    DistinctConcat(sorted, unsorted);
  }

  /** A successor of an unsorted vertex is unsorted. */
  lemma UnsortedSuccessor(edges: seq<seq<int>>, sorted: seq<int>, unsorted: seq<int>, x: int, y: int)
    requires IsTopoSplit(edges, sorted, unsorted)
    requires x in unsorted && 0 <= y < |edges| && y in edges[x]
    ensures y in unsorted
  {
  }

  /** A walk that starts unsorted never leaves unsorted. */
  lemma {:induction false} UnsortedForward(edges: seq<seq<int>>, sorted: seq<int>, unsorted: seq<int>, p: seq<int>)
    requires IsTopoSplit(edges, sorted, unsorted)
    requires IsPath(edges, p) && p[0] in unsorted
    ensures p[|p| - 1] in unsorted
  {
    if |p| > 1 {
      var q := p[..|p| - 1];
      assert IsPath(edges, q);
      UnsortedForward(edges, sorted, unsorted, q);
      assert p[|p| - 1] in edges[q[|q| - 1]];
      UnsortedSuccessor(edges, sorted, unsorted, q[|q| - 1], p[|p| - 1]);
    }
  }

  /** Walking back from sorted[j] along edges only meets vertices sorted strictly earlier. */
  lemma {:induction false} SortedBackward(edges: seq<seq<int>>, sorted: seq<int>, unsorted: seq<int>,
                                          p: seq<int>, j: int)
    requires IsTopoSplit(edges, sorted, unsorted)
    requires IsPath(edges, p) && |p| >= 2 && 0 <= j < |sorted| && p[|p| - 1] == sorted[j]
    ensures exists i :: 0 <= i < j && sorted[i] == p[0]
  {
    var q := p[..|p| - 1];
    assert IsPath(edges, q);
    var x := q[|q| - 1];
    assert sorted[j] in edges[x] && sorted[j] in sorted;
    assert x in sorted;
    var j' :| 0 <= j' < |sorted| && sorted[j'] == x;
    assert j' < j;
    if |q| >= 2 {
      SortedBackward(edges, sorted, unsorted, q, j');
    }
  }

  /** Every vertex of a cycle ends up unsorted. */
  lemma CycleUnsorted(edges: seq<seq<int>>, sorted: seq<int>, unsorted: seq<int>, c: seq<int>)
    requires IsTopoSplit(edges, sorted, unsorted) && IsCycle(edges, c)
    ensures forall k :: 0 <= k < |c| ==> c[k] in unsorted
  {
    if c[0] in sorted {
      var j :| 0 <= j < |sorted| && sorted[j] == c[0];
      SortedBackward(edges, sorted, unsorted, c, j);
    }
    assert c[0] in unsorted;
    forall k | 0 <= k < |c|
      ensures c[k] in unsorted
    {
      assert IsPath(edges, c[..k + 1]);
      UnsortedForward(edges, sorted, unsorted, c[..k + 1]);
    }
  }

  ghost function SetOf(s: seq<int>): set<int>
  {
    set x | x in s
  }

  /** The vertex set 0 .. n - 1. */
  ghost function Range(n: nat): (r: set<int>)
    ensures forall x :: x in r <==> 0 <= x < n
  {
    if n == 0 then {} else Range(n - 1) + {n - 1}
  }

  lemma {:induction false} DistinctCard(s: seq<int>)
    requires Distinct(s)
    ensures |SetOf(s)| == |s|
  {
    if s != [] {
      DistinctCard(s[1..]);
      assert SetOf(s) == {s[0]} + SetOf(s[1..]);
    }
  }

  lemma {:induction false} RangeCard(n: nat)
    ensures |Range(n)| == n
  {
    if n > 0 {
      RangeCard(n - 1);
    }
  }

  lemma SubsetCard(a: set<int>, b: set<int>)
    requires a <= b
    ensures |a| <= |b|
  {
    assert b == a + (b - a);
  }

  /** Pigeonhole: more than n entries drawn from 0 .. n - 1 repeat one. */
  lemma Pigeonhole(s: seq<int>, n: nat)
    requires forall k :: 0 <= k < |s| ==> 0 <= s[k] < n
    requires |s| > n
    ensures !Distinct(s)
  {
    if Distinct(s) {
      DistinctCard(s);
      RangeCard(n);
      SubsetCard(SetOf(s), Range(n));
    }
  }

  /**
   * The part of a topological split that keeps the unsorted vertices stuck:
   * each is a vertex, every vertex is sorted or unsorted, and each unsorted
   * one has an edge from a vertex not sorted.
   */
  ghost predicate Stalled(edges: seq<seq<int>>, sorted: seq<int>, unsorted: seq<int>)
  {
    && (forall i :: 0 <= i < |unsorted| ==> 0 <= unsorted[i] < |edges|)
    && (forall x :: 0 <= x < |edges| ==> x in sorted || x in unsorted)
    && (forall w :: w in unsorted ==> InCount(edges, w, SetOf(sorted), |edges|) > 0)
  }

  /** Every unsorted vertex has an unsorted predecessor. */
  lemma UnsortedPredecessor(edges: seq<seq<int>>, sorted: seq<int>, unsorted: seq<int>, w: int) returns (u: int)
    requires Stalled(edges, sorted, unsorted) && w in unsorted
    ensures 0 <= u < |edges| && u in unsorted && w in edges[u]
  {
    InCountZero(edges, w, SetOf(sorted), |edges|);
    u :| 0 <= u < |edges| && u !in SetOf(sorted) && w in edges[u];
  }

  /** A path extended backwards by a predecessor of its first vertex. */
  lemma PathCons(edges: seq<seq<int>>, u: int, q: seq<int>)
    requires IsPath(edges, q) && 0 <= u < |edges| && q[0] in edges[u]
    ensures IsPath(edges, [u] + q)
  {
    var p := [u] + q;
    forall i | 0 <= i < |p| - 1
      ensures p[i + 1] in edges[p[i]]
    {
      if i > 0 {
        assert p[i] == q[i - 1] && p[i + 1] == q[i];
      }
    }
  }

  /**
   * From an unsorted vertex one can walk backwards through unsorted vertices
   * for as long as one likes.
   */
  lemma {:induction false} BackChain(edges: seq<seq<int>>, sorted: seq<int>, unsorted: seq<int>, w: int, n: nat)
    returns (p: seq<int>)
    requires Stalled(edges, sorted, unsorted) && w in unsorted
    ensures |p| == n + 1 && IsPath(edges, p) && p[n] == w
    ensures forall k :: 0 <= k < |p| ==> p[k] in unsorted
  {
    if n == 0 {
      p := [w];
    } else {
      var q := BackChain(edges, sorted, unsorted, w, n - 1);
      var u := UnsortedPredecessor(edges, sorted, unsorted, q[0]);
      PathCons(edges, u, q);
      p := [u] + q;
      forall k | 0 <= k < |p|
        ensures p[k] in unsorted
      {
        if k > 0 {
          assert p[k] == q[k - 1];
        }
      }
    }
  }

  /** On an acyclic graph nothing is left unsorted. */
  lemma AcyclicSortsAll(edges: seq<seq<int>>, sorted: seq<int>, unsorted: seq<int>)
    requires IsTopoSplit(edges, sorted, unsorted) && Acyclic(edges)
    ensures unsorted == []
  {
    if unsorted != [] {
      var n := |edges|;
      var p := BackChain(edges, sorted, unsorted, unsorted[0], n);
      Pigeonhole(p, n);
      var i, j :| 0 <= i < j < |p| && p[i] == p[j];
      var c := p[i..j + 1];
      assert IsPath(edges, c) by {
        forall k | 0 <= k < |c| - 1
          ensures c[k + 1] in edges[c[k]]
        {
          assert c[k] == p[i + k] && c[k + 1] == p[i + k + 1];
        }
      }
      assert IsCycle(edges, c);
    }
  }

  /** A split leaves nothing unsorted exactly when the graph has no cycle. */
  lemma UnsortedEmptyIffAcyclic(edges: seq<seq<int>>, sorted: seq<int>, unsorted: seq<int>)
    requires IsTopoSplit(edges, sorted, unsorted)
    ensures unsorted == [] <==> Acyclic(edges)
  {
    if Acyclic(edges) {
      AcyclicSortsAll(edges, sorted, unsorted);
    } else {
      var c :| IsCycle(edges, c);
      CycleUnsorted(edges, sorted, unsorted, c);
      assert c[0] in unsorted;
    }
  }
}
