# Degrees of separation in an undirected graph

The program loads an undirected road network and reports, for a threshold
`degree` of hops, how far apart its vertices are. Four statistics are computed
over the ordered vertex pairs whose shortest distance `d` satisfies
`0 < d <= degree`:

- the mean of those distances;
- the largest of them;
- the most frequent one;
- the share, in percent, of all `n * n` ordered pairs that qualify.

This project models the two parts that carry the logic and proves what they
compute:

- **Graph construction** (`graph.rs`). `Graph::undirected` starts from `n`
  empty adjacency lists. For every edge `(u, v)` it appends `v` to `u`'s list
  and `u` to `v`'s list. `Graph::sort` then sorts every list.
  - The model is a class `Graphs.Graph` with the fields `n` and `outedges`. It
    has a constructor `Undirected` and an in-place method `Sort`.
  - The resulting lists are pinned down by counts: `y` occurs in `x`'s list
    once for every edge `(x, y)` and once for every edge `(y, x)`.
  - Duplicates and self-loops are kept, as the code keeps them.
  - Every list is sorted, and every neighbour is a vertex.
  - The sorted lists are uniquely determined by `n` and the edges.
- **Breadth-first search and the statistics** (`breathfirstsearch.rs`).
  - `BreadthFirstSearch.BfsDistance` runs the queue-based search of
    `bfs_distance` on a distance sequence and a queue. It is proved against a
    specification by walks (module `Walks`): entry `v` is `Some(d)` exactly
    when `d` is the least number of edges of a walk from the start to `v`, and
    `None` exactly when no walk leads there.
  - `DistanceStatistics.FilteredDistances` builds the table of
    `filtered_distances`. It runs the search from every vertex and keeps a
    distance only when it lies in `1 .. degree`.
  - Each statistic is a method over the graph. That method builds the table
    and hands it to the accumulation loop of the source function, modelled as
    a method over the table. Each result is tied to a specification function
    of the kept values: `Mean`, `MaxOf`, `ModeOf` and `Percentage`.
  - Lemmas state what the kept values are:
    - an entry is kept exactly when it is the distance of its pair and lies
      in `1 .. degree`;
    - the diagonal is never kept;
    - for an undirected graph the table is symmetric;
    - a threshold of 0 keeps nothing;
    - the mean lies in `1 .. degree`;
    - any edge between two distinct vertices makes the mode defined for
      `degree >= 1`.

Modules:

- `Sorting`: the list sort used by `Graph::sort`.
- `Graphs`: `graph.rs`.
- `Walks`: hop distances defined by walks.
- `BreadthFirstSearch`: `bfs_distance`.
- `DistanceStatistics`: `filtered_distances` and the four statistics.

## Model

| member | source | states |
|---|---|---|
| `Graphs.Graph.Undirected` | FinalCode/src/graph.rs:37-48 | Requires every edge endpoint to be below `n` (the code indexes the lists with them). Ensures `n` is stored unchanged, there are `n` lists, and every neighbour is a vertex. Ensures `y` occurs in `x`'s list exactly as often as `(x, y)` plus `(y, x)` occur among the edges, and that every list is sorted. |
| `Graphs.Graph.Sort` | FinalCode/src/graph.rs:51-55 | Every list ends sorted and holds the same elements, with multiplicities. `n` and the number of lists are unchanged. |
| `Sorting.SortList` | FinalCode/src/graph.rs:53 | The sort of one list: the result is non-decreasing and a permutation of the input. |
| `Sorting.SortedUnique` | FinalCode/src/graph.rs:53 | Two sorted permutations of the same list are equal, so any sorting algorithm gives the same lists. |
| `Graphs.NoEdges` | FinalCode/src/graph.rs:38 | `n` empty lists represent the empty edge list. |
| `Graphs.PushBoth` | FinalCode/src/graph.rs:41-44 | Appending `v` to `u`'s list and `u` to `v`'s list for the next edge extends the representation by exactly that edge. |
| `Graphs.RepresentsPermuted` | FinalCode/src/graph.rs:46-55 | Reordering each list keeps the representation. |
| `Graphs.RepresentsWellFormed` | FinalCode/src/graph.rs:41-44 | With in-range endpoints, every stored neighbour is a vertex. |
| `Graphs.RepresentsSymmetric` | FinalCode/src/graph.rs:41-44 | `y` occurs in `x`'s list exactly as often as `x` occurs in `y`'s list. |
| `Graphs.RepresentsEdges` | FinalCode/src/graph.rs:41-44 | Every edge `(u, v)` puts `v` in `u`'s list and `u` in `v`'s list. |
| `Graphs.SortedRepresentationUnique` | FinalCode/src/graph.rs:37-55 | The constructed graph is a function of `n` and the edge list: two sorted representations of the same edges are identical. |
| `BreadthFirstSearch.BfsDistance` | FinalCode/src/breathfirstsearch.rs:5-24 | Requires a well-formed graph and `start < n`. The result has one entry per vertex and `start` maps to `Some(0)`. Entry `v` is `Some(d)` iff `d` is the shortest walk length from `start` to `v`, and `None` iff `v` is unreachable. |
| `BreadthFirstSearch.Started` | FinalCode/src/breathfirstsearch.rs:6-10 | Labelling `start` with 0 and queueing it establishes the loop invariant. |
| `BreadthFirstSearch.Popped` | FinalCode/src/breathfirstsearch.rs:12-13 | The dequeued vertex is labelled. The queue behind it stays layered by distance. |
| `BreadthFirstSearch.NextLayer` | FinalCode/src/breathfirstsearch.rs:15-16 | An unlabelled neighbour of a vertex at distance `k` is at distance exactly `k + 1`. |
| `BreadthFirstSearch.Label` | FinalCode/src/breathfirstsearch.rs:15-18 | Labelling such a neighbour `k + 1` and queueing it keeps every invariant, and the number of unlabelled vertices drops by one. |
| `BreadthFirstSearch.Skip` | FinalCode/src/breathfirstsearch.rs:14-15 | An already labelled neighbour is passed over with the invariant intact. |
| `BreadthFirstSearch.Expand` | FinalCode/src/breathfirstsearch.rs:13-20 | After all neighbours of the dequeued vertex are looked at, the invariant holds for the next dequeue. |
| `BreadthFirstSearch.Advance` | FinalCode/src/breathfirstsearch.rs:12-21 | When the front of the queue reaches label `k + 1`, every vertex within `k` edges is labelled. |
| `BreadthFirstSearch.ExpandedCloses` | FinalCode/src/breathfirstsearch.rs:12-21 | With an empty queue and every labelled vertex expanded, every reachable vertex is labelled. |
| `BreadthFirstSearch.Finished` | FinalCode/src/breathfirstsearch.rs:21-23 | When the queue runs empty the labels are exactly the shortest distances, and `None` exactly the unreachable vertices. |
| `Walks.Distance` | FinalCode/src/breathfirstsearch.rs:5-24 | The specified distance is `Some` exactly for reachable vertices, and is then a least walk length. |
| `Walks.LeastWalk` | FinalCode/src/breathfirstsearch.rs:5-24 | A vertex reached in `e` edges has a distance of at most `e`. |
| `Walks.DistanceIff` | FinalCode/src/breathfirstsearch.rs:5-24 | `Distance == Some(d)` exactly when `d` is a least walk length. |
| `Walks.DistanceZero` | FinalCode/src/breathfirstsearch.rs:9 | The start is at distance 0, and no other vertex is. |
| `Walks.DistanceEdge` | FinalCode/src/breathfirstsearch.rs:14-17 | A neighbour of a vertex at distance `d` is reachable, at distance at most `d + 1`. |
| `Walks.ReachesReverse` | FinalCode/src/graph.rs:41-44 | In a symmetric graph every walk can be walked backwards. |
| `Walks.DistanceSymmetric` | FinalCode/src/breathfirstsearch.rs:5-24 | In a symmetric graph the distance from `s` to `v` equals the distance from `v` to `s`. |
| `DistanceStatistics.Keep` | FinalCode/src/breathfirstsearch.rs:30-38 | The per-entry filter: the result is `Some(val)` exactly when the input is `Some(val)` with `0 < val <= degree`. |
| `DistanceStatistics.FilteredDistances` | FinalCode/src/breathfirstsearch.rs:26-41 | The result is an `n`-by-`n` table whose row `i` is the filtered distance vector from `i`. |
| `DistanceStatistics.FilteredEntry` | FinalCode/src/breathfirstsearch.rs:26-41 | Entry `[i][j]` is `Some(val)` iff `val` is the distance from `i` to `j` and `0 < val <= degree`. |
| `DistanceStatistics.FilteredDiagonal` | FinalCode/src/breathfirstsearch.rs:31 | Every diagonal entry is `None`. |
| `DistanceStatistics.FilteredSymmetric` | FinalCode/src/breathfirstsearch.rs:26-41 | For an undirected graph, entry `[i][j]` equals entry `[j][i]`. |
| `DistanceStatistics.FilteredValuesMember` | FinalCode/src/breathfirstsearch.rs:47-53 | A value is among those the statistics read iff it lies in `1 .. degree` and is the distance of some ordered pair. |
| `DistanceStatistics.ValuesCount` | FinalCode/src/breathfirstsearch.rs:84-90 | Each value occurs among the read values as often as `Some` of it occurs among the entries. |
| `DistanceStatistics.ValuesInRange` | FinalCode/src/breathfirstsearch.rs:31-35 | Every value the statistics read lies in `1 .. degree`. |
| `DistanceStatistics.DegreeZero` | FinalCode/src/breathfirstsearch.rs:31 | With `degree == 0` no value is kept. |
| `DistanceStatistics.AverageDistance` | FinalCode/src/breathfirstsearch.rs:43-61 | The result is the mean of the kept distances, or 0 when there are none. |
| `DistanceStatistics.AverageOf` | FinalCode/src/breathfirstsearch.rs:45-60 | The loop's sum and count are those of the `Some` entries, and the result is their quotient, or 0. |
| `DistanceStatistics.AverageBounds` | FinalCode/src/breathfirstsearch.rs:56-57 | When any pair is kept, the average lies between 1 and `degree`. |
| `DistanceStatistics.MeanBounds` | FinalCode/src/breathfirstsearch.rs:56-57 | The mean of values in `1 .. hi` lies in `1 .. hi`. |
| `DistanceStatistics.SumBounds` | FinalCode/src/breathfirstsearch.rs:50 | The sum of values in `1 .. hi` is at least their number and at most `hi` times it. |
| `DistanceStatistics.MaxDistance` | FinalCode/src/breathfirstsearch.rs:63-78 | The result is 0 when nothing is kept. Otherwise it is a kept distance, and no kept distance exceeds it. |
| `DistanceStatistics.MaxOfTable` | FinalCode/src/breathfirstsearch.rs:65-77 | The running maximum from 0 ends as the largest `Some` entry, or 0. |
| `DistanceStatistics.MaxStep` | FinalCode/src/breathfirstsearch.rs:69-73 | Taking one more entry into account keeps the running maximum. |
| `DistanceStatistics.ModeDistance` | FinalCode/src/breathfirstsearch.rs:80-93 | Requires some pair to be kept (the code unwraps). The result is a kept distance, and no kept distance occurs more often. |
| `DistanceStatistics.ModeOfTable` | FinalCode/src/breathfirstsearch.rs:82-92 | The frequency map counts each `Some` value. The unwrapped key of largest count is a value of largest multiplicity. |
| `DistanceStatistics.CountsAdd` | FinalCode/src/breathfirstsearch.rs:87 | Incrementing the entry of `val` (starting from 0 when absent) keeps the map equal to the occurrence counts. |
| `DistanceStatistics.MaxByCount` | FinalCode/src/breathfirstsearch.rs:92 | `max_by_key` by count. It is `None` exactly for the empty map. Otherwise it returns a key whose count no other key exceeds. |
| `DistanceStatistics.EdgeGivesValue` | FinalCode/src/breathfirstsearch.rs:92 | An edge between two distinct vertices puts distance 1 among the kept values when `degree >= 1`, so the unwrap cannot fail. |
| `DistanceStatistics.DistributionPercentage` | FinalCode/src/breathfirstsearch.rs:95-113 | The result is `100 * kept / (n * n)` over the ordered pairs, or 0 when `n == 0`. It lies in `[0, 100]`. |
| `DistanceStatistics.PercentageOf` | FinalCode/src/breathfirstsearch.rs:97-112 | `total_pairs` counts every entry and `valid_pairs` the `Some` entries. The result is their percentage, in `[0, 100]`. |
| `DistanceStatistics.PercentageBounds` | FinalCode/src/breathfirstsearch.rs:108-112 | A share of at most the whole lies between 0 and 100 percent. |
| `DistanceStatistics.EntriesLength` | FinalCode/src/breathfirstsearch.rs:97-106 | A table of `n` rows of length `n` has `n * n` entries, which is `total_pairs`. |

## Left out

- `Graph::read_csv` (`graph.rs:18-34`): file access, CSV parsing and the
  conversion from 1-based to 0-based indices are not modelled. The model
  starts from an edge list. `read_csv` itself adds each edge in both
  directions before calling `undirected`, so a loaded graph lists every
  neighbour twice. The model keeps multiplicities, so it covers that case,
  and the distances do not depend on it.
- `main` (`main.rs`): the fixed file name, the vertex count, the loop over
  thresholds 1 to 30 and the printing are not modelled.
- The commented-out `print` method of `Graph` is not modelled.
- `Graphs.Graph.Undirected`: an edge endpoint of `n` or more makes the code
  panic. The model makes in-range endpoints a precondition instead of
  modelling the panic. A design that reports an "invalid vertex index" error
  for such input is not what the code does, and the model follows the code.
- `DistanceStatistics.ModeDistance`: when no pair is kept the code panics on
  `unwrap`. The model makes a non-empty set of kept values a precondition.
  `EdgeGivesValue` states when that holds.
- `DistanceStatistics.ModeDistance`: ties are broken by the iteration order of
  a `HashMap`, which is unspecified. `MaxByCount` picks the keys in an
  arbitrary order, and the last key of largest count wins, as with
  `max_by_key`. So the contract says only that the result has the largest
  multiplicity, not which such value is returned. Breaking ties towards the
  smallest value would be deterministic, but the code does not do that.
- `DistanceStatistics.AverageDistance`, `DistanceStatistics.DistributionPercentage`:
  the `f64` arithmetic is modelled as exact `real` arithmetic. Rounding of the
  conversion and the division is not modelled.
- Integer widths: distances and `degree` are `u32`, vertices `usize`, and the
  counters default to `i32`. They are modelled as unbounded `nat`. Overflow of
  `current_distance + 1` and of the running totals is not modelled.
- `Sorting.SortList`: `Vec::sort` of the standard library is a merge sort. It
  is modelled by an insertion sort with the same contract (sorted
  permutation). `SortedUnique` shows that the resulting lists do not depend on
  the algorithm.
- `BreadthFirstSearch.BfsDistance`: the `Vec` of distances and the
  `VecDeque` are local to the function. They are modelled as sequence values
  that the loop reassigns, because nothing else refers to them.
- `DistanceStatistics.FilteredDistances`: the source builds the table with
  iterator adaptors. Because it calls the search, which is a method here, it
  is a method whose loop appends one filtered row per vertex. Its result is
  tied to the ghost specification `FilteredTable`. The per-entry filter is
  the function `Keep`.
- Each statistic's nested loop over the table is a method of its own
  (`AverageOf`, `MaxOfTable`, `ModeOfTable`, `PercentageOf`), called by the
  method over the graph that first builds the table. `max_by_key` is the
  method `MaxByCount`. In the source each statistic is one function.
- `Graph::undirected` takes the edge list by reference and returns a new
  graph. The lists are built in a local sequence and stored in the new
  object, which then sorts itself.
