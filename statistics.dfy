/** The all-pairs table of distances kept within a threshold
    (`filtered_distances`) and the four statistics computed from it
    (`average_distance`, `max_distance`, `mode_distance`,
    `distribution_percentage`), from `breathfirstsearch.rs`. */
module DistanceStatistics {
  import opened Graphs
  import opened Walks
  import opened BreadthFirstSearch

  type Table = seq<seq<Option<nat>>>

  // ---------------------------------------------------------------------------
  // filtered_distances

  /** Keeps a distance only when it is positive and at most `degree`. */
  function Keep(d: Option<nat>, degree: nat): (r: Option<nat>)
    ensures forall val :: r == Some(val) <==> d == Some(val) && 0 < val <= degree
  {
    match d
    case Some(val) => if val <= degree && val > 0 then Some(val) else None
    case None => None
  }

  /** Keep applied to every entry of one row. */
  function FilterRow(row: seq<Option<nat>>, degree: nat): (r: seq<Option<nat>>)
    ensures |r| == |row|
    ensures forall j :: 0 <= j < |row| ==> r[j] == Keep(row[j], degree)
  {
    seq(|row|, j requires 0 <= j < |row| => Keep(row[j], degree))
  }

  /** Row i holds the kept distances from vertex i to every vertex. */
  ghost function FilteredTable(adj: seq<seq<Vertex>>, degree: nat): (t: Table)
    ensures |t| == |adj|
    ensures forall i :: 0 <= i < |adj| ==> t[i] == FilterRow(Distances(adj, i), degree)
  {
    seq(|adj|, i requires 0 <= i < |adj| => FilterRow(Distances(adj, i), degree))
  }

  /** Runs the search from every vertex and keeps the distances in
      1 .. degree: an n-by-n table. */
  method FilteredDistances(graph: Graph, degree: nat) returns (table: Table)
    requires graph.Valid()
    ensures |table| == graph.n && forall i :: 0 <= i < graph.n ==> |table[i]| == graph.n
    ensures table == FilteredTable(graph.outedges, degree)
  {
    table := [];
    for i := 0 to |graph.outedges|
      invariant |table| == i
      invariant forall k :: 0 <= k < i ==> table[k] == FilterRow(Distances(graph.outedges, k), degree)
    {
      var row := BfsDistance(i, graph);
      table := table + [FilterRow(row, degree)];
    }
  }

  /** An entry of the table is Some(val) exactly when val is the distance
      between its two vertices and lies in 1 .. degree. */
  lemma FilteredEntry(adj: seq<seq<Vertex>>, degree: nat, i: Vertex, j: Vertex, val: nat)
    requires i < |adj| && j < |adj|
    ensures FilteredTable(adj, degree)[i][j] == Some(val) <==> IsDistance(adj, i, j, val) && 0 < val <= degree
  {
    DistanceIff(adj, i, j, val);
  }

  /** A vertex is never counted as a pair with itself. */
  lemma FilteredDiagonal(adj: seq<seq<Vertex>>, degree: nat, i: Vertex)
    requires i < |adj|
    ensures FilteredTable(adj, degree)[i][i] == None
  {
    ReachesSelf(adj, i);
    DistanceZero(adj, i, i);
  }

  /** For an undirected graph the table is symmetric: each unordered pair
      is counted twice, once from each end. */
  lemma FilteredSymmetric(adj: seq<seq<Vertex>>, degree: nat, i: Vertex, j: Vertex)
    requires Symmetric(adj) && i < |adj| && j < |adj|
    ensures FilteredTable(adj, degree)[i][j] == FilteredTable(adj, degree)[j][i]
  {
    DistanceSymmetric(adj, i, j);
  }

  // ---------------------------------------------------------------------------
  // Reading the table row by row

  /** The entries of a table, row after row. */
  function Entries(t: Table): (r: seq<Option<nat>>)
  {
    if t == [] then [] else Entries(t[..|t| - 1]) + t[|t| - 1]
  }

  /** The values of the Some entries, in order. */
  function Values(s: seq<Option<nat>>): (r: seq<nat>)
    ensures |r| <= |s|
  {
    if s == [] then [] else Values(s[..|s| - 1]) + ValueOf(s[|s| - 1])
  }

  /** The value of one entry, as a list of zero or one element. */
  function ValueOf(x: Option<nat>): seq<nat>
  {
    match x
    case Some(v) => [v]
    case None => []
  }

  /** The sum of a list of values. */
  function Sum(xs: seq<nat>): nat
  {
    if xs == [] then 0 else Sum(xs[..|xs| - 1]) + xs[|xs| - 1]
  }

  /** The values the statistics are taken over: one per ordered pair of
      vertices whose distance lies in 1 .. degree. */
  ghost function FilteredValues(adj: seq<seq<Vertex>>, degree: nat): seq<nat>
  {
    Values(Entries(FilteredTable(adj, degree)))
  }

  /** The values among the first i rows and the first j entries of row i. */
  function Seen(t: Table, i: nat, j: nat): seq<nat>
    requires i < |t| && j <= |t[i]|
  {
    Values(Entries(t[..i]) + t[i][..j])
  }

  /** Entry j of row i adds its value, if any, to what has been seen. */
  lemma SeenStep(t: Table, i: nat, j: nat)
    requires i < |t| && j < |t[i]|
    ensures Seen(t, i, j + 1) == Seen(t, i, j) + ValueOf(t[i][j])
  {
    var s := Entries(t[..i]) + t[i][..j + 1];
    assert s[..|s| - 1] == Entries(t[..i]) + t[i][..j];
  }

  /** A row starts where the previous rows end, and a finished row joins them. */
  lemma SeenRow(t: Table, i: nat)
    requires i < |t|
    ensures Seen(t, i, 0) == Values(Entries(t[..i]))
    ensures Seen(t, i, |t[i]|) == Values(Entries(t[..i + 1]))
  {
    assert Entries(t[..i]) + t[i][..0] == Entries(t[..i]);
    assert t[..i + 1][..i] == t[..i];
    assert t[i][..|t[i]|] == t[i];
  }

  /** Adding at most one value at the end adds it to the sum. */
  lemma SumSnoc(xs: seq<nat>, ys: seq<nat>)
    requires |ys| <= 1
    ensures Sum(xs + ys) == Sum(xs) + Sum(ys)
  {
    if ys != [] {
      assert (xs + ys)[..|xs + ys| - 1] == xs;
      assert ys[..0] == [];
    } else {
      assert xs + ys == xs;
    }
  }

  // ---------------------------------------------------------------------------
  // The four statistics

  /** The mean of a list of values, 0 for the empty list. */
  ghost function Mean(xs: seq<nat>): real
  {
    if |xs| > 0 then Sum(xs) as real / |xs| as real else 0.0
  }

  /** m is the largest of xs, or 0 when xs is empty. */
  ghost predicate MaxOf(m: nat, xs: seq<nat>) {
    (xs == [] ==> m == 0) && (xs != [] ==> m in xs) && forall v :: v in xs ==> v <= m
  }

  /** Taking entry j of row i into account keeps the running maximum. */
  lemma MaxStep(t: Table, i: nat, j: nat, m: nat)
    requires i < |t| && j < |t[i]|
    requires MaxOf(m, Seen(t, i, j))
    ensures match t[i][j]
      case Some(val) => MaxOf(if val > m then val else m, Seen(t, i, j + 1))
      case None => MaxOf(m, Seen(t, i, j + 1))
  {
    SeenStep(t, i, j);
    var xs := Seen(t, i, j);
    match t[i][j]
    case Some(x) =>
      forall v | v in xs + [x]
        ensures v <= (if x > m then x else m)
      {
        assert v in xs || v == x;
      }
    case None =>
  }

  /** m occurs in xs, and no value occurs in xs more often than m. */
  ghost predicate ModeOf(m: nat, xs: seq<nat>) {
    m in xs && forall v :: multiset(xs)[v] <= multiset(xs)[m]
  }

  /** frequency maps each value occurring in seen to its number of occurrences. */
  ghost predicate Counts(frequency: map<nat, nat>, seen: seq<nat>) {
    (forall v :: v in frequency ==> frequency[v] == multiset(seen)[v]) &&
    (forall v :: v !in frequency ==> multiset(seen)[v] == 0)
  }

  /** Counting one more occurrence of val keeps frequency in step with seen. */
  lemma CountsAdd(frequency: map<nat, nat>, seen: seq<nat>, val: nat)
    requires Counts(frequency, seen)
    ensures Counts(frequency[val := (if val in frequency then frequency[val] else 0) + 1], seen + [val])
  {
    forall v
      ensures multiset(seen + [val])[v] == multiset(seen)[v] + (if v == val then 1 else 0)
    {
      assert multiset(seen + [val]) == multiset(seen) + multiset{val};
    }
  }

  /** valid out of total, as a percentage; 0 when total is 0. */
  ghost function Percentage(valid: nat, total: nat): real
  {
    if total > 0 then (valid as real / total as real) * 100.0 else 0.0
  }

  /** The mean distance over all ordered pairs whose distance lies in
      1 .. degree, or 0 when there are none. */
  method AverageDistance(graph: Graph, degree: nat) returns (r: real)
    requires graph.Valid()
    ensures r == Mean(FilteredValues(graph.outedges, degree))
  {
    var distances := FilteredDistances(graph, degree);
    r := AverageOf(distances);
  }

  /** The accumulation loop of `average_distance`: the mean of the Some
      entries of the table. */
  method AverageOf(distances: Table) returns (r: real)
    ensures r == Mean(Values(Entries(distances)))
  {
    var totalDistance, validPairs := 0, 0;
    assert distances[..0] == [];
    for i := 0 to |distances|
      invariant totalDistance == Sum(Values(Entries(distances[..i])))
      invariant validPairs == |Values(Entries(distances[..i]))|
    {
      var row := distances[i];
      SeenRow(distances, i);
      ghost var seen := Seen(distances, i, 0);
      for j := 0 to |row|
        invariant seen == Seen(distances, i, j)
        invariant totalDistance == Sum(seen) && validPairs == |seen|
      {
        SeenStep(distances, i, j);
        match row[j]
        case Some(val) =>
          SumSnoc(seen, [val]);
          totalDistance := totalDistance + val;
          validPairs := validPairs + 1;
          seen := seen + [val];
        case None =>
      }
    }
    assert distances[..|distances|] == distances;
    if validPairs > 0 {
      r := totalDistance as real / validPairs as real;
    } else {
      r := 0.0;
    }
  }

  /** The largest distance in 1 .. degree between any ordered pair, or 0
      when there is none. */
  method MaxDistance(graph: Graph, degree: nat) returns (r: nat)
    requires graph.Valid()
    ensures MaxOf(r, FilteredValues(graph.outedges, degree))
  {
    var distances := FilteredDistances(graph, degree);
    r := MaxOfTable(distances);
  }

  /** The accumulation loop of `max_distance`: the largest Some entry of the
      table, starting from 0. */
  method MaxOfTable(distances: Table) returns (r: nat)
    ensures MaxOf(r, Values(Entries(distances)))
  {
    var maxDistance := 0;
    assert distances[..0] == [];
    for i := 0 to |distances|
      invariant MaxOf(maxDistance, Values(Entries(distances[..i])))
    {
      var row := distances[i];
      SeenRow(distances, i);
      for j := 0 to |row|
        invariant MaxOf(maxDistance, Seen(distances, i, j))
      {
        MaxStep(distances, i, j, maxDistance);
        match row[j]
        case Some(val) =>
          if val > maxDistance {
            maxDistance := val;
          }
        case None =>
      }
    }
    assert distances[..|distances|] == distances;
    r := maxDistance;
  }

  /** A distance in 1 .. degree shared by the largest number of ordered
      pairs. There must be at least one pair to count. */
  method ModeDistance(graph: Graph, degree: nat) returns (r: nat)
    requires graph.Valid()
    requires FilteredValues(graph.outedges, degree) != []
    ensures ModeOf(r, FilteredValues(graph.outedges, degree))
  {
    var distances := FilteredDistances(graph, degree);
    r := ModeOfTable(distances);
  }

  /** The counting loop of `mode_distance`, followed by the unwrapped
      `max_by_key` over the frequency map. */
  method ModeOfTable(distances: Table) returns (r: nat)
    requires Values(Entries(distances)) != []
    ensures ModeOf(r, Values(Entries(distances)))
  {
    var frequency: map<nat, nat> := map[];
    assert distances[..0] == [];
    for i := 0 to |distances|
      invariant Counts(frequency, Values(Entries(distances[..i])))
    {
      var row := distances[i];
      SeenRow(distances, i);
      ghost var seen := Seen(distances, i, 0);
      for j := 0 to |row|
        invariant seen == Seen(distances, i, j)
        invariant Counts(frequency, seen)
      {
        SeenStep(distances, i, j);
        match row[j]
        case Some(val) =>
          CountsAdd(frequency, seen, val);
          frequency := frequency[val := (if val in frequency then frequency[val] else 0) + 1];
          seen := seen + [val];
        case None =>
      }
    }
    assert distances[..|distances|] == distances;
    ghost var vals := Values(Entries(distances));
    assert vals[0] in frequency;
    var best := MaxByCount(frequency);
    r := best.value;
  }

  /** `max_by_key` over the frequency map: a key of largest count, None for
      the empty map. Among several keys of the largest count the one met last
      in the map's iteration order is returned; that order is left open. */
  method MaxByCount(frequency: map<nat, nat>) returns (best: Option<nat>)
    ensures best.None? <==> frequency == map[]
    ensures best.Some? ==> best.value in frequency
    ensures best.Some? ==> forall k :: k in frequency ==> frequency[k] <= frequency[best.value]
  {
    best := None;
    var keys := frequency.Keys;
    while keys != {}
      invariant keys <= frequency.Keys
      invariant best.None? <==> keys == frequency.Keys
      invariant best.Some? ==> best.value in frequency
      invariant best.Some? ==> forall k :: k in frequency && k !in keys ==> frequency[k] <= frequency[best.value]
    {
      var k :| k in keys;
      if best.None? || frequency[k] >= frequency[best.value] {
        best := Some(k);
      }
      keys := keys - {k};
    }
    if best.None? {
      assert frequency.Keys == {};
    }
  }

  /** The share, in percent, of ordered pairs of vertices (the n * n
      entries of the table) whose distance lies in 1 .. degree. */
  method DistributionPercentage(graph: Graph, degree: nat) returns (r: real)
    requires graph.Valid()
    ensures r == Percentage(|FilteredValues(graph.outedges, degree)|, graph.n * graph.n)
    ensures 0.0 <= r <= 100.0
  {
    var distances := FilteredDistances(graph, degree);
    EntriesLength(distances, graph.n);
    r := PercentageOf(distances);
  }

  /** The counting loop of `distribution_percentage`: the share, in percent,
      of the table's entries that are Some. */
  method PercentageOf(distances: Table) returns (r: real)
    ensures r == Percentage(|Values(Entries(distances))|, |Entries(distances)|)
    ensures 0.0 <= r <= 100.0
  {
    var totalPairs, validPairs := 0, 0;
    assert distances[..0] == [];
    for i := 0 to |distances|
      invariant totalPairs == |Entries(distances[..i])|
      invariant validPairs == |Values(Entries(distances[..i]))|
    {
      var row := distances[i];
      SeenRow(distances, i);
      for j := 0 to |row|
        invariant totalPairs == |Entries(distances[..i])| + j
        invariant validPairs == |Seen(distances, i, j)|
      {
        SeenStep(distances, i, j);
        totalPairs := totalPairs + 1;
        if row[j].Some? {
          validPairs := validPairs + 1;
        }
      }
      assert |Entries(distances[..i + 1])| == |Entries(distances[..i])| + |row| by {
        assert distances[..i + 1][..i] == distances[..i];
      }
    }
    assert distances[..|distances|] == distances;
    PercentageBounds(validPairs, totalPairs);
    if totalPairs > 0 {
      r := (validPairs as real / totalPairs as real) * 100.0;
    } else {
      r := 0.0;
    }
  }

  /** A share of at most the whole is between 0 and 100 percent. */
  lemma PercentageBounds(valid: nat, total: nat)
    requires valid <= total
    ensures 0.0 <= Percentage(valid, total) <= 100.0
  {
    if total > 0 {
      var share := valid as real / total as real;
      assert share * total as real == valid as real;
      assert share <= 1.0;
    }
  }

  // ---------------------------------------------------------------------------
  // Properties of the statistics

  /** A table of rows of length m has |t| * m entries. */
  lemma {:induction false} EntriesLength(t: Table, m: nat)
    requires forall i :: 0 <= i < |t| ==> |t[i]| == m
    ensures |Entries(t)| == |t| * m
  {
    if t != [] {
      EntriesLength(t[..|t| - 1], m);
      assert |t| * m == (|t| - 1) * m + m;
    }
  }

  /** Exactly the entries of the rows are the entries of the table. */
  lemma {:induction false} EntriesMember(t: Table, x: Option<nat>)
    ensures x in Entries(t) <==> exists i, j :: 0 <= i < |t| && 0 <= j < |t[i]| && t[i][j] == x
  {
    if t != [] {
      var last := |t| - 1;
      EntriesMember(t[..last], x);
      if x in t[last] {
        var j :| 0 <= j < |t[last]| && t[last][j] == x;
        assert t[last][j] == x;
      }
      if exists i, j :: 0 <= i < |t| && 0 <= j < |t[i]| && t[i][j] == x {
        var i, j :| 0 <= i < |t| && 0 <= j < |t[i]| && t[i][j] == x;
        if i < last {
          assert t[..last][i][j] == x;
        } else {
          assert t[last][j] == x;
        }
      }
    }
  }

  /** Each value occurs in Values(s) as often as Some of it occurs in s. */
  lemma {:induction false} ValuesCount(s: seq<Option<nat>>, v: nat)
    ensures multiset(Values(s))[v] == multiset(s)[Some(v)]
  {
    if s != [] {
      var init, x := s[..|s| - 1], s[|s| - 1];
      ValuesCount(init, v);
      assert s == init + [x];
      assert multiset(Values(s))[v] == multiset(Values(init))[v] + multiset(ValueOf(x))[v];
      assert multiset(s)[Some(v)] == multiset(init)[Some(v)] + multiset([x])[Some(v)];
      ValueOfCount(x, v);
    }
  }

  /** The one-entry case of ValuesCount. */
  lemma ValueOfCount(x: Option<nat>, v: nat)
    ensures multiset(ValueOf(x))[v] == multiset([x])[Some(v)]
  {
    assert multiset([x]) == multiset{x};
    match x
    case None =>
      assert multiset(ValueOf(x)) == multiset{};
    case Some(y) =>
      assert multiset(ValueOf(x)) == multiset{y};
  }

  /** A value is kept exactly when it is the distance of some ordered pair of
      vertices and lies in 1 .. degree. */
  lemma FilteredValuesMember(adj: seq<seq<Vertex>>, degree: nat, v: nat)
    ensures v in FilteredValues(adj, degree) <==>
      0 < v <= degree && exists i: Vertex, j: Vertex :: i < |adj| && j < |adj| && IsDistance(adj, i, j, v)
  {
    var t := FilteredTable(adj, degree);
    ValuesCount(Entries(t), v);
    assert v in FilteredValues(adj, degree) <==> Some(v) in Entries(t);
    EntriesMember(t, Some(v));
    if v in FilteredValues(adj, degree) {
      var i, j :| 0 <= i < |t| && 0 <= j < |t[i]| && t[i][j] == Some(v);
      FilteredEntry(adj, degree, i, j, v);
    }
    if 0 < v <= degree && exists i: Vertex, j: Vertex :: i < |adj| && j < |adj| && IsDistance(adj, i, j, v) {
      var i: Vertex, j: Vertex :| i < |adj| && j < |adj| && IsDistance(adj, i, j, v);
      FilteredEntry(adj, degree, i, j, v);
      assert t[i][j] == Some(v);
    }
  }

  /** With a threshold of 0 nothing is kept. */
  lemma DegreeZero(adj: seq<seq<Vertex>>)
    ensures FilteredValues(adj, 0) == []
  {
    if FilteredValues(adj, 0) != [] {
      FilteredValuesMember(adj, 0, FilteredValues(adj, 0)[0]);
    }
  }

  /** Any edge between two distinct vertices gives a pair at distance 1, so
      with a threshold of at least 1 the mode is defined. */
  lemma EdgeGivesValue(adj: seq<seq<Vertex>>, degree: nat, u: Vertex, w: Vertex)
    requires WellFormed(adj) && u < |adj| && w in adj[u] && u != w && 1 <= degree
    ensures 1 in FilteredValues(adj, degree)
  {
    ReachesSelf(adj, u);
    ReachesExtend(adj, u, u, w, 0);
    forall e: nat | e < 1
      ensures !Reaches(adj, u, w, e)
    {
      if Reaches(adj, u, w, e) {
        ReachesZero(adj, u, w);
      }
    }
    assert IsDistance(adj, u, w, 1);
    FilteredValuesMember(adj, degree, 1);
  }

  /** The sum of values that lie in 1 .. hi is at least their number and at
      most hi times it. */
  lemma {:induction false} SumBounds(xs: seq<nat>, hi: nat)
    requires forall k :: 0 <= k < |xs| ==> 1 <= xs[k] <= hi
    ensures |xs| <= Sum(xs) <= |xs| * hi
  {
    if xs != [] {
      var init := xs[..|xs| - 1];
      SumBounds(init, hi);
      assert |xs| * hi == |init| * hi + hi;
    }
  }

  /** A quotient of a sum between n and n * hi by n lies in 1 .. hi. */
  lemma QuotientBounds(sum: real, n: real, hi: real)
    requires 0.0 < n && n <= sum <= n * hi
    ensures 1.0 <= sum / n <= hi
  {
    var q := sum / n;
    assert q * n == sum;
    assert (q - 1.0) * n >= 0.0;
    assert (hi - q) * n >= 0.0;
  }

  /** The average distance, when there is any pair to average over, lies
      between 1 and the threshold. */
  lemma AverageBounds(adj: seq<seq<Vertex>>, degree: nat)
    requires FilteredValues(adj, degree) != []
    ensures 1.0 <= Mean(FilteredValues(adj, degree)) <= degree as real
  {
    ValuesInRange(adj, degree);
    MeanBounds(FilteredValues(adj, degree), degree);
  }

  /** The mean of values that lie in 1 .. hi lies in 1 .. hi. */
  lemma MeanBounds(xs: seq<nat>, hi: nat)
    requires xs != [] && forall k :: 0 <= k < |xs| ==> 1 <= xs[k] <= hi
    ensures 1.0 <= Mean(xs) <= hi as real
  {
    SumBounds(xs, hi);
    QuotientBounds(Sum(xs) as real, |xs| as real, hi as real);
  }

  /** Every kept value, and so the maximum and the mode, lies in 1 .. degree. */
  lemma ValuesInRange(adj: seq<seq<Vertex>>, degree: nat)
    ensures forall k :: 0 <= k < |FilteredValues(adj, degree)| ==> 1 <= FilteredValues(adj, degree)[k] <= degree
  {
    var vals := FilteredValues(adj, degree);
    forall k | 0 <= k < |vals|
      ensures 1 <= vals[k] <= degree
    {
      FilteredValuesMember(adj, degree, vals[k]);
    }
  }
}
