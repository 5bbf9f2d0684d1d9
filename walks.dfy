/** Hop-count distances in an adjacency-list graph, stated through walks.
    This is the specification that breadth-first search is proved against:
    a vertex's distance from s is the least number of edges of a walk from s
    to it. (A shortest walk repeats no vertex, so it is a shortest path.) */
module Walks {
  import opened Graphs

  /** p is a walk: every vertex of it is a vertex of the graph and each next
      vertex is in the previous vertex's adjacency list. */
  ghost predicate IsWalk(adj: seq<seq<Vertex>>, p: seq<Vertex>) {
    0 < |p| &&
    (forall i :: 0 <= i < |p| ==> p[i] < |adj|) &&
    (forall i :: 0 <= i < |p| - 1 ==> p[i + 1] in adj[p[i]])
  }

  /** Some walk with exactly e edges leads from s to v. */
  ghost predicate Reaches(adj: seq<seq<Vertex>>, s: Vertex, v: Vertex, e: nat) {
    exists p :: IsWalk(adj, p) && |p| == e + 1 && p[0] == s && p[e] == v
  }

  /** v can be reached from s at all. */
  ghost predicate Connected(adj: seq<seq<Vertex>>, s: Vertex, v: Vertex) {
    exists e :: Reaches(adj, s, v, e)
  }

  /** d is the distance from s to v: a walk of d edges exists and none shorter. */
  ghost predicate IsDistance(adj: seq<seq<Vertex>>, s: Vertex, v: Vertex, d: nat) {
    Reaches(adj, s, v, d) && forall e: nat :: e < d ==> !Reaches(adj, s, v, e)
  }

  /** The distance from s to v, or None when no walk leads from s to v. */
  ghost function Distance(adj: seq<seq<Vertex>>, s: Vertex, v: Vertex): (r: Option<nat>)
    ensures r.Some? <==> Connected(adj, s, v)
    ensures r.Some? ==> IsDistance(adj, s, v, r.value)
  {
    if Connected(adj, s, v) then
      var e :| Reaches(adj, s, v, e);
      LeastWalk(adj, s, v, e);
      var d :| IsDistance(adj, s, v, d);
      Some(d)
    else
      None
  }

  /** The distances from s to every vertex. */
  ghost function Distances(adj: seq<seq<Vertex>>, s: Vertex): (r: seq<Option<nat>>)
    ensures |r| == |adj|
    ensures forall v :: 0 <= v < |adj| ==> r[v] == Distance(adj, s, v)
  {
    seq(|adj|, v requires 0 <= v < |adj| => Distance(adj, s, v))
  }

  datatype Option<T> = None | Some(value: T)

  // ---------------------------------------------------------------------------
  // Facts about walks

  /** The one-vertex walk: s reaches itself in zero edges. */
  lemma ReachesSelf(adj: seq<seq<Vertex>>, s: Vertex)
    requires s < |adj|
    ensures Reaches(adj, s, s, 0)
  {
    assert IsWalk(adj, [s]);
  }

  /** A walk of zero edges ends where it starts. */
  lemma ReachesZero(adj: seq<seq<Vertex>>, s: Vertex, v: Vertex)
    requires Reaches(adj, s, v, 0)
    ensures v == s
  {
  }

  /** Walks end at vertices of the graph. */
  lemma ReachesInRange(adj: seq<seq<Vertex>>, s: Vertex, v: Vertex, e: nat)
    requires Reaches(adj, s, v, e)
    ensures s < |adj| && v < |adj|
  {
  }

  /** One more edge, from u to a neighbour w of u, extends a walk. */
  lemma ReachesExtend(adj: seq<seq<Vertex>>, s: Vertex, u: Vertex, w: Vertex, e: nat)
    requires WellFormed(adj)
    requires Reaches(adj, s, u, e) && u < |adj| && w in adj[u]
    ensures Reaches(adj, s, w, e + 1)
  {
    var p :| IsWalk(adj, p) && |p| == e + 1 && p[0] == s && p[e] == u;
    var q := p + [w];
    assert q[e + 1] == w && q[e] == u;
    assert IsWalk(adj, q);
  }

  /** The last edge of a walk of e > 0 edges comes from a vertex reached in e - 1 edges. */
  lemma ReachesStep(adj: seq<seq<Vertex>>, s: Vertex, v: Vertex, e: nat) returns (u: Vertex)
    requires Reaches(adj, s, v, e) && 0 < e
    ensures u < |adj| && Reaches(adj, s, u, e - 1) && v in adj[u]
  {
    var p :| IsWalk(adj, p) && |p| == e + 1 && p[0] == s && p[e] == v;
    u := p[e - 1];
    assert IsWalk(adj, p[..e]);
  }

  /** Least-number principle for walks: a vertex reached in e edges has a
      distance, and it is at most e. */
  lemma {:induction false} LeastWalk(adj: seq<seq<Vertex>>, s: Vertex, v: Vertex, e: nat)
    requires Reaches(adj, s, v, e)
    ensures exists d: nat :: d <= e && IsDistance(adj, s, v, d)
    decreases e
  {
    if !IsDistance(adj, s, v, e) {
      var e': nat :| e' < e && Reaches(adj, s, v, e');
      LeastWalk(adj, s, v, e');
    }
  }

  /** A distance is never larger than the length of any walk. */
  lemma DistanceAtMost(adj: seq<seq<Vertex>>, s: Vertex, v: Vertex, d: nat, e: nat)
    requires IsDistance(adj, s, v, d) && Reaches(adj, s, v, e)
    ensures d <= e
  {
  }

  /** Relaxation across an edge: a neighbour w of a vertex u at distance d
      from s is reachable too, at distance at most d + 1. */
  lemma DistanceEdge(adj: seq<seq<Vertex>>, s: Vertex, u: Vertex, w: Vertex)
    requires WellFormed(adj) && u < |adj| && w in adj[u] && Distance(adj, s, u).Some?
    ensures Distance(adj, s, w).Some? && Distance(adj, s, w).value <= Distance(adj, s, u).value + 1
  {
    var d := Distance(adj, s, u).value;
    ReachesExtend(adj, s, u, w, d);
    assert Connected(adj, s, w);
    DistanceAtMost(adj, s, w, Distance(adj, s, w).value, d + 1);
  }

  /** Distances are unique, so Distance is exactly characterised by IsDistance. */
  lemma DistanceIff(adj: seq<seq<Vertex>>, s: Vertex, v: Vertex, d: nat)
    ensures Distance(adj, s, v) == Some(d) <==> IsDistance(adj, s, v, d)
  {
    if IsDistance(adj, s, v, d) {
      var r := Distance(adj, s, v);
      assert Connected(adj, s, v);
      DistanceAtMost(adj, s, v, r.value, d);
      DistanceAtMost(adj, s, v, d, r.value);
    }
  }

  /** A vertex is at distance 0 from itself and from nothing else. */
  lemma DistanceZero(adj: seq<seq<Vertex>>, s: Vertex, v: Vertex)
    requires s < |adj|
    ensures Distance(adj, s, v) == Some(0) <==> v == s
  {
    DistanceIff(adj, s, v, 0);
    if v == s {
      ReachesSelf(adj, s);
    }
  }
  // ---------------------------------------------------------------------------
  // Undirected graphs

  /** In a symmetric graph every walk can be walked backwards. */
  lemma ReachesReverse(adj: seq<seq<Vertex>>, s: Vertex, v: Vertex, e: nat)
    requires Symmetric(adj) && Reaches(adj, s, v, e)
    ensures Reaches(adj, v, s, e)
  {
    var p :| IsWalk(adj, p) && |p| == e + 1 && p[0] == s && p[e] == v;
    var q := seq(e + 1, i requires 0 <= i <= e => p[e - i]);
    forall i | 0 <= i < e
      ensures q[i + 1] in adj[q[i]]
    {
      var k := e - i - 1;
      assert p[k + 1] in adj[p[k]];
      assert multiset(adj[p[k]])[p[k + 1]] > 0;
      assert multiset(adj[p[k + 1]])[p[k]] > 0;
    }
    assert IsWalk(adj, q);
  }

  /** In a symmetric graph the distance from s to v is the distance from v to s. */
  lemma DistanceSymmetric(adj: seq<seq<Vertex>>, s: Vertex, v: Vertex)
    requires Symmetric(adj)
    ensures Distance(adj, s, v) == Distance(adj, v, s)
  {
    if Connected(adj, s, v) {
      OneWay(adj, s, v);
    } else if Connected(adj, v, s) {
      OneWay(adj, v, s);
    }
  }

  /** One direction of DistanceSymmetric. */
  lemma OneWay(adj: seq<seq<Vertex>>, s: Vertex, v: Vertex)
    requires Symmetric(adj) && Connected(adj, s, v)
    ensures Distance(adj, s, v) == Distance(adj, v, s)
  {
    var d := Distance(adj, s, v).value;
    ReachesReverse(adj, s, v, d);
    forall e: nat | e < d
      ensures !Reaches(adj, v, s, e)
    {
      if Reaches(adj, v, s, e) {
        ReachesReverse(adj, v, s, e);
      }
    }
    DistanceIff(adj, v, s, d);
  }
}
