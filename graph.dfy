/**
 * DAGAlgorithm: a directed graph stored as adjacency lists plus a cached
 * in-degree per vertex, with head/tail detection, Kahn's topological sort
 * and an explicit-stack depth-first iterator.
 */
module Graph {
  import opened Common
  import opened GraphSpec
  import opened DfsSpec

  class DagAlgorithm {
    /** edges[u]: the successors of u in insertion order. */
    var edges: seq<seq<int>>
    /** indegrees[v]: the number of edges into v, kept up to date by the graph's builders. */
    var indegrees: seq<int>

    ghost predicate Valid()
      reads this
    {
      EdgesInRange(edges) && IndegreesConsistent(edges, indegrees)
    }

    /** A graph with the given adjacency lists and their in-degrees. */
    constructor (edges: seq<seq<int>>, indegrees: seq<int>)
      requires EdgesInRange(edges) && IndegreesConsistent(edges, indegrees)
      ensures this.edges == edges && this.indegrees == indegrees && Valid()
    {
      this.edges := edges;
      this.indegrees := indegrees;
    }

    /**
     * The heads: every vertex of in-degree 0, ascending, each once; these are
     * exactly the vertices that no edge enters.
     */
    method GetHeads() returns (heads: seq<int>)
      requires Valid()
      ensures Increasing(heads)
      ensures forall v :: v in heads <==> 0 <= v < |edges| && indegrees[v] == 0
      ensures forall v :: v in heads <==> 0 <= v < |edges| && forall u :: 0 <= u < |edges| ==> v !in edges[u]
    {
      heads := [];
      for v := 0 to |edges|
        invariant Increasing(heads) && forall i :: 0 <= i < |heads| ==> heads[i] < v
        invariant forall x :: x in heads <==> 0 <= x < v && indegrees[x] == 0
      {
        if indegrees[v] == 0 {
          heads := heads + [v];
        }
      }
      forall v | 0 <= v < |edges|
        ensures indegrees[v] == 0 <==> forall u :: 0 <= u < |edges| ==> v !in edges[u]
      {
        InCountZero(edges, v, {}, |edges|);
      }
    }

    /** The tails: every vertex with an empty adjacency list, ascending, each once. */
    method GetTails() returns (tails: seq<int>)
      requires Valid()
      ensures Increasing(tails)
      ensures forall v :: v in tails <==> 0 <= v < |edges| && edges[v] == []
    {
      tails := [];
      for v := 0 to |edges|
        invariant Increasing(tails) && forall i :: 0 <= i < |tails| ==> tails[i] < v
        invariant forall x :: x in tails <==> 0 <= x < v && edges[x] == []
      {
        if |edges[v]| == 0 {
          tails := tails + [v];
        }
      }
    }

    /**
     * Kahn's algorithm in waves over a working copy of the in-degrees: each
     * wave emits, in index order, every vertex whose working in-degree is 0,
     * decrements its successors and marks it -1; the waves stop once one
     * emits nothing, and the vertices not marked -1 are returned as unsorted.
     * The stored in-degrees are left as they were (the method modifies nothing).
     */
    method TopoSort() returns (sorted: seq<int>, unsorted: seq<int>)
      requires Valid()
      ensures IsTopoSplit(edges, sorted, unsorted)
    {
      var n := |edges|;
      var deg := indegrees;
      sorted := [];
      ghost var gone: set<int> := {};
      InitialTopoState(edges, indegrees);
      var removed := true;
      while removed
        invariant TopoState(edges, deg, sorted, gone)
        invariant !removed ==> forall w :: 0 <= w < n ==> deg[w] != 0
        decreases Range(n) - gone, if removed then 1 else 0
      {
        removed := false;
        ghost var waveStart := gone;
        for v := 0 to n
          invariant TopoState(edges, deg, sorted, gone)
          invariant waveStart <= gone <= Range(n)
          invariant removed ==> waveStart < gone
          invariant !removed ==> gone == waveStart && forall w :: 0 <= w < v ==> deg[w] != 0
        {
          if deg[v] == 0 {
            ghost var before := deg;
            deg := RemoveVertex(deg, v);
            EmitKeepsTopoState(edges, before, deg, sorted, gone, v);
            sorted := sorted + [v];
            gone := gone + {v};
            removed := true;
          }
        }
      }
      unsorted := [];
      for v := 0 to n
        invariant Increasing(unsorted) && forall i :: 0 <= i < |unsorted| ==> unsorted[i] < v
        invariant forall x :: x in unsorted <==> 0 <= x < v && x !in gone
      {
        if deg[v] != -1 {
          unsorted := unsorted + [v];
        }
      }
      FinishTopoSplit(edges, deg, sorted, gone, unsorted);
    }

    /**
     * One removal in TopoSort: decrement the working in-degree of every
     * successor of v, once per edge, then mark v removed with -1.
     */
    method RemoveVertex(deg: seq<int>, v: int) returns (deg': seq<int>)
      requires EdgesInRange(edges) && |deg| == |edges| && 0 <= v < |edges|
      ensures |deg'| == |edges|
      ensures forall w :: 0 <= w < |edges| ==> deg'[w] == if w == v then -1 else deg[w] - multiset(edges[v])[w]
    {
      deg' := deg;
      for k := 0 to |edges[v]|
        invariant |deg'| == |edges|
        invariant forall w :: 0 <= w < |edges| ==> deg'[w] == deg[w] - multiset(edges[v][..k])[w]
      {
        var w := edges[v][k];
        deg' := deg'[w := deg'[w] - 1];
        assert edges[v][..k + 1] == edges[v][..k] + [w];
      }
      assert edges[v][..|edges[v]|] == edges[v];
      deg' := deg'[v := -1];
    }

    /** The end iterator: an empty stack and no visited vector. */
    method DFSEnd() returns (it: DfsIterator)
      requires Valid()
      ensures fresh(it) && fresh(it.visit) && it.dag == this && it.Valid()
      ensures it.stack == [] && it.visit.Length == 0
    {
      it := new DfsIterator(this, 0);
    }

    /**
     * A traversal from every head: all heads are stacked in ascending order
     * and only the top one (the largest) is marked visited.
     */
    method DFSBegin() returns (it: DfsIterator)
      requires Valid()
      ensures fresh(it) && fresh(it.visit) && it.dag == this && it.Valid()
      ensures it.visit.Length == |edges|
      ensures forall v :: v in it.stack <==> 0 <= v < |edges| && indegrees[v] == 0
      ensures Increasing(it.stack) && it.roots == SetOf(it.stack)
      ensures forall v :: 0 <= v < |edges| ==> (it.visit[v] <==> it.stack != [] && v == Last(it.stack))
    {
      it := new DfsIterator(this, |edges|);
      var heads := GetHeads();
      it.stack := heads;
      it.roots := SetOf(heads);
      if heads != [] {
        assert Last(heads) in heads;
        it.visit[Last(heads)] := true;
      }
      forall i | 0 <= i < |heads|
        ensures 0 <= heads[i] < |edges|
      {
        assert heads[i] in heads;
      }
      StartInvariant(edges, heads, it.visit[..]);
    }

    /**
     * A traversal from one vertex: the stack is [vertex] and only it is
     * visited; an index outside the graph gives the end iterator.
     */
    method DFSBeginFrom(vertex: int) returns (it: DfsIterator)
      requires Valid()
      ensures fresh(it) && fresh(it.visit) && it.dag == this && it.Valid()
      ensures !(0 <= vertex < |edges|) ==> it.stack == [] && it.visit.Length == 0
      ensures 0 <= vertex < |edges| ==>
        && it.stack == [vertex] && it.roots == {vertex} && it.visit.Length == |edges|
        && forall v :: 0 <= v < |edges| ==> (it.visit[v] <==> v == vertex)
    {
      if vertex >= |edges| || vertex < 0 {
        it := DFSEnd();
        return;
      }
      it := new DfsIterator(this, |edges|);
      it.stack := [vertex];
      it.roots := {vertex};
      it.visit[vertex] := true;
      assert SetOf([vertex]) == {vertex};
      StartInvariant(edges, [vertex], it.visit[..]);
    }
  }

  /**
   * DFSIterator: an explicit stack whose last element is the top, and a
   * visited vector owned by this iterator. The ghost roots are the vertices
   * the traversal started from.
   */
  class DfsIterator {
    const dag: DagAlgorithm
    var stack: seq<int>
    var visit: array<bool>
    ghost var roots: set<int>

    ghost predicate Valid()
      reads this, visit, dag
    {
      && dag.Valid()
      && ((stack == [] && visit.Length == 0) || DfsInvariant(dag.edges, roots, stack, visit[..]))
    }

    /** An iterator over dag with an empty stack and n unvisited slots. */
    constructor (dag: DagAlgorithm, n: nat)
      requires dag.Valid() && (n == 0 || n == |dag.edges|)
      ensures this.dag == dag && stack == [] && roots == {} && Valid()
      ensures fresh(visit) && visit.Length == n && forall v :: 0 <= v < n ==> !visit[v]
    {
      this.dag := dag;
      stack := [];
      roots := {};
      visit := new bool[n](_ => false);
    }

    /**
     * operator++: unwind the stack as Unwind describes, then mark the new top
     * visited. An iterator whose stack is empty stays as it is.
     */
    method Next()
      requires Valid()
      modifies this, this.visit
      ensures Valid() && visit == old(visit) && roots == old(roots)
      ensures old(stack) == [] ==> stack == [] && visit[..] == old(visit[..])
      ensures old(stack) != [] ==> (stack, visit[..]) == Advance(dag.edges, old(stack), old(visit[..]))
    {
      ghost var start := stack;
      ghost var edges := dag.edges;
      if start != [] {
        AdvanceKeepsInvariant(edges, roots, start, visit[..]);
      }
      while stack != []
        invariant visit == old(visit) && visit[..] == old(visit[..]) && roots == old(roots)
        invariant start != [] ==> DfsShape(edges, stack, visit[..])
        invariant start != [] ==> Unwind(edges, stack, visit[..]) == Unwind(edges, start, visit[..])
        invariant start == [] ==> stack == []
        decreases |stack|
      {
        var top := stack[|stack| - 1];
        if !visit[top] {
          assert Unwind(edges, stack, visit[..]) == stack;
          break;
        }
        var succ := dag.edges[top];
        var k := 0;
        while k < |succ| && visit[succ[k]]
          invariant 0 <= k <= |succ|
          invariant forall i :: 0 <= i < k ==> visit[succ[i]]
        {
          k := k + 1;
        }
        assert k == FirstUnvisited(succ, visit[..]);
        if k == |succ| {
          stack := stack[..|stack| - 1];
        } else {
          assert Unwind(edges, stack, visit[..]) == stack + [succ[k]];
          stack := stack + [succ[k]];
          break;
        }
      }
      assert start != [] ==> stack == Unwind(edges, start, old(visit[..]));
      if stack != [] {
        visit[stack[|stack| - 1]] := true;
      }
    }

    /**
     * operator==: the same graph, the same stack size and, when not empty,
     * the same top. Against an end iterator of the same graph this holds
     * exactly when the traversal is exhausted.
     */
    predicate Equals(other: DfsIterator): (r: bool)
      reads this, other
      ensures other.stack == [] && dag == other.dag ==> (r <==> stack == [])
      ensures r ==> dag == other.dag && |stack| == |other.stack|
      ensures r && stack != [] ==> Last(stack) == Last(other.stack)
    {
      dag == other.dag && |stack| == |other.stack| && (|stack| == 0 || Last(stack) == Last(other.stack))
    }
  }
}
