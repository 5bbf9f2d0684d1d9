/** Breadth-first search over a Graph (`bfs_distance`) and the all-pairs table
    of distances kept within a threshold (`filtered_distances`), from
    `breathfirstsearch.rs`. */
module BreadthFirstSearch {
  import opened Graphs
  import opened Walks

  // ---------------------------------------------------------------------------
  // What the search keeps true. D is the distance vector, q the queue.

  /** Every labelled vertex carries its true distance from s. */
  ghost predicate Sound(adj: seq<seq<Vertex>>, s: Vertex, D: seq<Option<nat>>) {
    |D| == |adj| &&
    forall v :: 0 <= v < |D| && D[v].Some? ==> IsDistance(adj, s, v, D[v].value)
  }

  /** Every labelled vertex that is neither waiting in q nor in `busy` has had
      all its neighbours labelled. */
  ghost predicate Expanded(adj: seq<seq<Vertex>>, D: seq<Option<nat>>, q: seq<Vertex>, busy: set<Vertex>) {
    forall v :: 0 <= v < |D| && D[v].Some? && v !in q && v !in busy ==> v < |adj| && AllLabelled(D, adj[v])
  }

  /** The queue holds labelled vertices, in non-decreasing order of label,
      every label being k or k + 1. */
  ghost predicate Layered(D: seq<Option<nat>>, q: seq<Vertex>, k: nat) {
    (forall i :: 0 <= i < |q| ==> q[i] < |D| && D[q[i]].Some? && k <= D[q[i]].value <= k + 1) &&
    (forall i, j :: 0 <= i <= j < |q| ==> D[q[i]].value <= D[q[j]].value)
  }

  /** Every vertex reachable from s in fewer than k edges is labelled. */
  ghost predicate Complete(adj: seq<seq<Vertex>>, s: Vertex, D: seq<Option<nat>>, k: nat) {
    forall v: Vertex, e: nat :: e < k && Reaches(adj, s, v, e) ==> v < |D| && D[v].Some?
  }

  /** Every vertex of ns is labelled. */
  ghost predicate AllLabelled(D: seq<Option<nat>>, ns: seq<Vertex>) {
    forall i :: 0 <= i < |ns| ==> ns[i] < |D| && D[ns[i]].Some?
  }

  /** The vertices not yet labelled. */
  ghost function Unlabelled(D: seq<Option<nat>>): set<Vertex> {
    set v | 0 <= v < |D| && D[v].None?
  }

  // ---------------------------------------------------------------------------
  // bfs_distance

  /** Single-source hop distances: the result has one entry per vertex, and
      entry v is Some(d) exactly when d is the length of a shortest walk from
      start to v, and None exactly when no walk leads there. */
  method BfsDistance(start: Vertex, graph: Graph) returns (distance: seq<Option<nat>>)
    requires graph.Valid() && start < graph.n
    ensures |distance| == graph.n
    ensures distance[start] == Some(0)
    ensures forall v, d: nat :: 0 <= v < |distance| ==> (distance[v] == Some(d) <==> IsDistance(graph.outedges, start, v, d))
    ensures forall v :: 0 <= v < |distance| ==> (distance[v] == None <==> !Connected(graph.outedges, start, v))
    ensures distance == Distances(graph.outedges, start)
  {
    ghost var adj := graph.outedges;
    var dist: seq<Option<nat>> := seq(graph.n, _ => None);
    var queue: seq<Vertex> := [];

    dist := dist[start := Some(0)];
    queue := queue + [start];
    Started(adj, start, dist);

    while queue != []
      invariant Waiting(adj, start, dist, queue)
      decreases |Unlabelled(dist)| + |queue|
    {
      ghost var measure := |Unlabelled(dist)| + |queue|;
      var current := queue[0];
      Popped(adj, start, dist, queue);
      queue := queue[1..];
      match dist[current]
      case Some(currentDistance) =>
        var neighbours := graph.outedges[current];
        for j := 0 to |neighbours|
          invariant Expanding(adj, start, dist, queue, current, currentDistance, neighbours[..j])
          invariant |Unlabelled(dist)| + |queue| + 1 == measure
        {
          var neighbour := neighbours[j];
          if dist[neighbour].None? {
            Label(adj, start, dist, queue, current, currentDistance, neighbours, j);
            dist := dist[neighbour := Some(currentDistance + 1)];
            queue := queue + [neighbour];
          } else {
            Skip(adj, start, dist, queue, current, currentDistance, neighbours, j);
          }
        }
        Expand(adj, start, dist, queue, current, currentDistance);
      case None =>
    }

    Finished(adj, start, dist);
    distance := dist;
  }

  /** The state of the search while vertex c, labelled k, is being expanded. */
  ghost predicate Searching(adj: seq<seq<Vertex>>, s: Vertex, D: seq<Option<nat>>, q: seq<Vertex>, busy: set<Vertex>, k: nat) {
    WellFormed(adj) && Sound(adj, s, D) && s < |D| && D[s] == Some(0) &&
    Expanded(adj, D, q, busy) && Layered(D, q, k) && Complete(adj, s, D, k)
  }

  /** The state of the search between two dequeues. */
  ghost predicate Waiting(adj: seq<seq<Vertex>>, s: Vertex, D: seq<Option<nat>>, q: seq<Vertex>) {
    if q == [] then
      Sound(adj, s, D) && s < |D| && D[s] == Some(0) && Expanded(adj, D, q, {})
    else
      q[0] < |D| && D[q[0]].Some? && Searching(adj, s, D, q, {}, D[q[0]].value)
  }

  /** Labelling start with 0 and queueing it starts the search. */
  lemma Started(adj: seq<seq<Vertex>>, s: Vertex, D: seq<Option<nat>>)
    requires WellFormed(adj) && s < |adj|
    requires D == seq(|adj|, _ => None)[s := Some(0)]
    ensures Waiting(adj, s, D, [s])
  {
    ReachesSelf(adj, s);
  }

  /** Taking the front vertex c off the queue makes it the one being expanded. */
  lemma Popped(adj: seq<seq<Vertex>>, s: Vertex, D: seq<Option<nat>>, q: seq<Vertex>)
    requires Waiting(adj, s, D, q) && q != []
    ensures q[0] < |adj| && D[q[0]].Some? && Searching(adj, s, D, q[1..], {q[0]}, D[q[0]].value)
  {
  }

  /** When the queue runs empty, the labels are exactly the distances. */
  lemma Finished(adj: seq<seq<Vertex>>, s: Vertex, D: seq<Option<nat>>)
    requires Sound(adj, s, D) && s < |D| && D[s] == Some(0)
    requires Expanded(adj, D, [], {})
    ensures forall v, d: nat :: 0 <= v < |D| ==> (D[v] == Some(d) <==> IsDistance(adj, s, v, d))
    ensures forall v :: 0 <= v < |D| ==> (D[v] == None <==> !Connected(adj, s, v))
    ensures D == Distances(adj, s)
  {
    forall v: Vertex, e: nat | Reaches(adj, s, v, e)
      ensures v < |D| && D[v].Some?
    {
      ExpandedCloses(adj, s, D, v, e);
    }
    forall v | 0 <= v < |D|
      ensures D[v] == Distance(adj, s, v)
    {
      if D[v].Some? {
        DistanceIff(adj, s, v, D[v].value);
      }
    }
    forall v, d: nat | 0 <= v < |D|
      ensures D[v] == Some(d) <==> IsDistance(adj, s, v, d)
    {
      DistanceIff(adj, s, v, d);
    }
  }

  /** The state of the search while the vertex c, labelled k, has its
      neighbours `done` looked at. */
  ghost predicate Expanding(adj: seq<seq<Vertex>>, s: Vertex, D: seq<Option<nat>>, q: seq<Vertex>, c: Vertex, k: nat, done: seq<Vertex>) {
    Searching(adj, s, D, q, {c}, k) && c < |D| && D[c] == Some(k) && AllLabelled(D, done)
  }

  /** Labelling the unlabelled neighbour w = ns[j] of the vertex c being
      expanded, at distance k, with k + 1 and queueing it keeps the invariants
      of the search. */
  lemma Label(adj: seq<seq<Vertex>>, s: Vertex, D: seq<Option<nat>>, q: seq<Vertex>, c: Vertex, k: nat, ns: seq<Vertex>, j: nat)
    requires c < |adj| && ns == adj[c] && j < |ns|
    requires Expanding(adj, s, D, q, c, k, ns[..j])
    requires D[ns[j]] == None
    ensures var w := ns[j];
      Expanding(adj, s, D[w := Some(k + 1)], q + [w], c, k, ns[..j + 1]) &&
      |Unlabelled(D[w := Some(k + 1)])| == |Unlabelled(D)| - 1
  {
    var w := ns[j];
    assert ns[..j + 1] == ns[..j] + [w];
    NextLayer(adj, s, D, q, c, k, w);
    var D' := D[w := Some(k + 1)];
    assert Unlabelled(D') == Unlabelled(D) - {w};
    assert w in Unlabelled(D);
  }

  /** A neighbour that is already labelled is passed over. */
  lemma Skip(adj: seq<seq<Vertex>>, s: Vertex, D: seq<Option<nat>>, q: seq<Vertex>, c: Vertex, k: nat, ns: seq<Vertex>, j: nat)
    requires c < |adj| && ns == adj[c] && j < |ns|
    requires Expanding(adj, s, D, q, c, k, ns[..j])
    requires D[ns[j]].Some?
    ensures Expanding(adj, s, D, q, c, k, ns[..j + 1])
  {
    assert ns[..j + 1] == ns[..j] + [ns[j]];
  }

  /** Once every neighbour of c has been looked at, c counts as expanded, and
      the invariants hold for the next vertex at the front of the queue. */
  lemma Expand(adj: seq<seq<Vertex>>, s: Vertex, D: seq<Option<nat>>, q: seq<Vertex>, c: Vertex, k: nat)
    requires c < |adj| && Expanding(adj, s, D, q, c, k, adj[c][..|adj[c]|])
    ensures Waiting(adj, s, D, q)
  {
    assert adj[c][..|adj[c]|] == adj[c];
    assert Expanded(adj, D, q, {});
    if q != [] && D[q[0]].value != k {
      Advance(adj, s, D, q, k);
    }
  }

  /** The step that labels a new vertex: a neighbour w of the vertex c being
      expanded, at distance k, that is still unlabelled is at distance k + 1. */
  lemma NextLayer(adj: seq<seq<Vertex>>, s: Vertex, D: seq<Option<nat>>, q: seq<Vertex>, c: Vertex, k: nat, w: Vertex)
    requires WellFormed(adj)
    requires Sound(adj, s, D) && s < |D| && D[s] == Some(0)
    requires c < |D| && D[c] == Some(k)
    requires Expanded(adj, D, q, {c})
    requires Layered(D, q, k)
    requires Complete(adj, s, D, k)
    requires w in adj[c] && w < |D| && D[w] == None
    ensures IsDistance(adj, s, w, k + 1)
  {
    ReachesExtend(adj, s, c, w, k);
    forall e: nat | e < k + 1
      ensures !Reaches(adj, s, w, e)
    {
      if Reaches(adj, s, w, e) {
        if e == 0 {
          ReachesZero(adj, s, w);
          assert false;
        } else {
          var u := ReachesStep(adj, s, w, e);
          // u is labelled, below k, hence expanded, hence w is labelled
          assert D[u].Some?;
          DistanceAtMost(adj, s, u, D[u].value, e - 1);
          assert false;
        }
      }
    }
  }

  /** When the front of the queue moves on to label k + 1, every vertex within
      k edges of s is labelled. */
  lemma Advance(adj: seq<seq<Vertex>>, s: Vertex, D: seq<Option<nat>>, q: seq<Vertex>, k: nat)
    requires Sound(adj, s, D) && s < |D| && D[s] == Some(0)
    requires Expanded(adj, D, q, {})
    requires Complete(adj, s, D, k)
    requires q != [] && Layered(D, q, k) && D[q[0]].value == k + 1
    ensures Layered(D, q, k + 1)
    ensures Complete(adj, s, D, k + 1)
  {
    forall v: Vertex, e: nat | e < k + 1 && Reaches(adj, s, v, e)
      ensures v < |D| && D[v].Some?
    {
      if e == k {
        if e == 0 {
          ReachesZero(adj, s, v);
        } else {
          var u := ReachesStep(adj, s, v, e);
          assert D[u].Some?;
          DistanceAtMost(adj, s, u, D[u].value, e - 1);
          assert u !in q;
        }
      }
    }
  }

  /** Once nothing is waiting, every vertex reachable from s is labelled. */
  lemma {:induction false} ExpandedCloses(adj: seq<seq<Vertex>>, s: Vertex, D: seq<Option<nat>>, v: Vertex, e: nat)
    requires |D| == |adj| && s < |D| && D[s].Some?
    requires Expanded(adj, D, [], {})
    requires Reaches(adj, s, v, e)
    ensures v < |D| && D[v].Some?
    decreases e
  {
    if e == 0 {
      ReachesZero(adj, s, v);
    } else {
      var u := ReachesStep(adj, s, v, e);
      ExpandedCloses(adj, s, D, u, e - 1);
    }
  }
}
