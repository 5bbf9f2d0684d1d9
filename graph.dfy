/** The undirected graph of `graph.rs`: a vertex count and one adjacency list
    per vertex, built from an edge list and then sorted. */
module Graphs {
  import opened Sorting

  /** Vertices are the indices 0 .. n-1. */
  type Vertex = nat

  /** An edge as the loader hands it over: a pair of vertex indices. */
  type Edge = (Vertex, Vertex)

  /** Both endpoints of every edge are vertices of a graph with n vertices;
      otherwise indexing the adjacency lists fails. */
  predicate EdgesInRange(n: nat, edges: seq<Edge>) {
    forall i :: 0 <= i < |edges| ==> edges[i].0 < n && edges[i].1 < n
  }

  /** Every neighbour stored in any list is itself a vertex. */
  ghost predicate WellFormed(adj: seq<seq<Vertex>>) {
    forall x, j :: 0 <= x < |adj| && 0 <= j < |adj[x]| ==> adj[x][j] < |adj|
  }

  /** adj has one list per vertex, and y occurs in x's list once for every
      edge (x, y) and once for every edge (y, x): each edge contributes its
      opposite endpoint to both of its endpoints, a self-loop (x, x)
      contributes x twice to x's list, and parallel edges are all kept. */
  ghost predicate Represents(adj: seq<seq<Vertex>>, n: nat, edges: seq<Edge>) {
    |adj| == n &&
    forall x, y :: 0 <= x < n ==> multiset(adj[x])[y] == multiset(edges)[(x, y)] + multiset(edges)[(y, x)]
  }

  /** Adjacency is symmetric, with multiplicities: y occurs in x's list as
      often as x occurs in y's list. */
  ghost predicate Symmetric(adj: seq<seq<Vertex>>) {
    forall x, y :: 0 <= x < |adj| && 0 <= y < |adj| ==> multiset(adj[x])[y] == multiset(adj[y])[x]
  }

  class Graph {
    var n: nat
    var outedges: seq<seq<Vertex>>

    /** One adjacency list per vertex, and every neighbour is a vertex. */
    ghost predicate Valid()
      reads this
    {
      |outedges| == n && WellFormed(outedges)
    }

    /** Builds the undirected graph on n vertices with the given edges: starting
        from n empty lists, each edge (u, v) appends v to u's list and u to v's
        list, then every list is sorted. */
    constructor Undirected(n: nat, edges: seq<Edge>)
      requires EdgesInRange(n, edges)
      ensures this.n == n && Valid()
      ensures Represents(outedges, n, edges)
      ensures forall x :: 0 <= x < n ==> Sorted(outedges[x])
    {
      var adj: seq<seq<Vertex>> := seq(n, _ => []);
      NoEdges(n);
      assert edges[..0] == [];
      for i := 0 to |edges|
        invariant Represents(adj, n, edges[..i])
      {
        var (u, v) := edges[i];
        ghost var before := adj;
        adj := adj[u := adj[u] + [v]];
        adj := adj[v := adj[v] + [u]];
        PushBoth(before, adj, n, edges, i);
      }
      assert edges[..|edges|] == edges;
      this.n := n;
      outedges := adj;
      new;
      Sort();
      RepresentsPermuted(adj, outedges, n, edges);
      RepresentsWellFormed(outedges, n, edges);
    }

    /** Sorts every adjacency list ascending, in place; n, the number of lists
        and the contents of every list are unchanged. */
    method Sort()
      modifies this
      ensures n == old(n) && |outedges| == |old(outedges)|
      ensures forall x :: 0 <= x < |outedges| ==> Sorted(outedges[x])
      ensures forall x :: 0 <= x < |outedges| ==> multiset(outedges[x]) == multiset(old(outedges)[x])
    {
      for x := 0 to |outedges|
        invariant n == old(n) && |outedges| == |old(outedges)|
        invariant forall y :: 0 <= y < x ==> Sorted(outedges[y])
        invariant forall y :: 0 <= y < x ==> multiset(outedges[y]) == multiset(old(outedges)[y])
        invariant forall y :: x <= y < |outedges| ==> outedges[y] == old(outedges)[y]
      {
        var sorted := SortList(outedges[x]);
        outedges := outedges[x := sorted];
      }
    }
  }

  /** n empty lists represent the empty edge list. */
  lemma NoEdges(n: nat)
    ensures Represents(seq(n, _ => []), n, [])
  {
  }

  /** Appending v to u's list and then u to v's list, for the edge (u, v) at
      position i, extends the representation from edges[..i] to edges[..i + 1]. */
  lemma PushBoth(adj: seq<seq<Vertex>>, adj': seq<seq<Vertex>>, n: nat, edges: seq<Edge>, i: nat)
    requires i < |edges| && EdgesInRange(n, edges)
    requires Represents(adj, n, edges[..i])
    requires
      var (u, v) := edges[i];
      var mid := adj[u := adj[u] + [v]];
      adj' == mid[v := mid[v] + [u]]
    ensures Represents(adj', n, edges[..i + 1])
  {
    var (u, v) := edges[i];
    var mid := adj[u := adj[u] + [v]];
    assert edges[..i + 1] == edges[..i] + [(u, v)];
    var added := multiset{(u, v)};
    assert multiset(edges[..i + 1]) == multiset(edges[..i]) + added;
    forall x, y | 0 <= x < n
      ensures multiset(adj'[x])[y] == multiset(edges[..i + 1])[(x, y)] + multiset(edges[..i + 1])[(y, x)]
    {
      PushCount(adj, u, v, x, y);
      PushCount(mid, v, u, x, y);
    }
  }

  /** Appending b to a's list adds one occurrence of b to a's list and changes nothing else. */
  lemma PushCount(adj: seq<seq<Vertex>>, a: Vertex, b: Vertex, x: Vertex, y: Vertex)
    requires a < |adj| && x < |adj|
    ensures multiset(adj[a := adj[a] + [b]][x])[y] == multiset(adj[x])[y] + (if x == a && y == b then 1 else 0)
  {
    if x == a {
      assert multiset(adj[a] + [b]) == multiset(adj[a]) + multiset{b};
    }
  }

  /** Reordering each list keeps the representation. */
  lemma RepresentsPermuted(a: seq<seq<Vertex>>, b: seq<seq<Vertex>>, n: nat, edges: seq<Edge>)
    requires Represents(a, n, edges) && |b| == |a|
    requires forall x :: 0 <= x < |a| ==> multiset(b[x]) == multiset(a[x])
    ensures Represents(b, n, edges)
  {
  }

  /** The lists of a graph built from in-range edges hold only vertices. */
  lemma RepresentsWellFormed(adj: seq<seq<Vertex>>, n: nat, edges: seq<Edge>)
    requires Represents(adj, n, edges) && EdgesInRange(n, edges)
    ensures WellFormed(adj)
  {
    forall x, j | 0 <= x < |adj| && 0 <= j < |adj[x]|
      ensures adj[x][j] < |adj|
    {
      var y := adj[x][j];
      assert y in multiset(adj[x]);
      if (x, y) in multiset(edges) {
        var i :| 0 <= i < |edges| && edges[i] == (x, y);
      } else {
        assert (y, x) in multiset(edges);
        var i :| 0 <= i < |edges| && edges[i] == (y, x);
      }
    }
  }

  /** Undirectedness: the built lists are symmetric, multiplicities included. */
  lemma RepresentsSymmetric(adj: seq<seq<Vertex>>, n: nat, edges: seq<Edge>)
    requires Represents(adj, n, edges)
    ensures Symmetric(adj)
  {
  }

  /** Every edge (u, v) puts v in u's list and u in v's list. */
  lemma RepresentsEdges(adj: seq<seq<Vertex>>, n: nat, edges: seq<Edge>)
    requires Represents(adj, n, edges) && EdgesInRange(n, edges)
    ensures forall i :: 0 <= i < |edges| ==> edges[i].1 in adj[edges[i].0] && edges[i].0 in adj[edges[i].1]
  {
    forall i | 0 <= i < |edges|
      ensures edges[i].1 in adj[edges[i].0] && edges[i].0 in adj[edges[i].1]
    {
      var (u, v) := edges[i];
      assert (u, v) in multiset(edges);
      assert v in multiset(adj[u]);
      assert u in multiset(adj[v]);
    }
  }

  /** The sorted graph is a function of n and the edge list: two sorted
      representations of the same edges are identical. */
  lemma SortedRepresentationUnique(a: seq<seq<Vertex>>, b: seq<seq<Vertex>>, n: nat, edges: seq<Edge>)
    requires Represents(a, n, edges) && Represents(b, n, edges)
    requires forall x :: 0 <= x < n ==> Sorted(a[x]) && Sorted(b[x])
    ensures a == b
  {
    forall x | 0 <= x < n
      ensures a[x] == b[x]
    {
      assert multiset(a[x]) == multiset(b[x]) by {
        forall y ensures multiset(a[x])[y] == multiset(b[x])[y] { }
      }
      SortedUnique(a[x], b[x]);
    }
  }
}
