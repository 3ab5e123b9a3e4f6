# Out-degree distribution of a directed edge list

This project models the computing core of a small Rust program,
`src/main.rs`. The program reads the subreddit hyperlink network as a list
of directed edges (source subreddit → target subreddit) and computes the
out-degree distribution of the source nodes. The model covers its
three-stage pipeline:

1. `adj_list` folds the edges into a map from each distinct source to the
   list of its targets. The first occurrence of a source creates a
   one-element list, and every later occurrence appends. Duplicate edges
   and self-loops count once per occurrence. A node seen only as a target
   never becomes a key.
2. `calc_length` emits the length of every list. It walks the map in hash
   order, so only the multiset of the lengths is determined.
3. `length_freq` tallies each length in a working map. It copies the map's
   `(length, count)` entries into a vector and sorts the vector.

The stages are written as imperative methods with loops that mirror the
Rust loops. Each is proved against pure specification functions whose
properties are proved as lemmas:

- `Adjacency.BuildAdjList` against the fold `AdjList`. Its declarative
  reading is the keys `Sources` and the per-source target list `TargetsOf`.
- `Degrees.CalcLength` against the multiset `Lengths`.
- `Histogram.LengthFreq` against the predicate `IsHistogramOf`. The
  predicate says: strictly ascending degrees, each paired with its exact
  positive count, and exactly the degrees that occur. Any two histograms of
  the same multiset are equal, so the pipeline's output is fixed by its
  input. This holds even though both hash maps hand out their entries in
  an unspecified order.

Hash-map iteration order is modelled as an unconstrained choice
(`:|`). `Vec::sort` is modelled as an in-place insertion sort on an array.
It compares tuples lexicographically, as Rust does. The comment above the
sort in `src/main.rs` says "descending", but `Vec::sort` sorts ascending.
The model follows the code: the histogram is ascending by degree.

Modules: `Adjacency` (adjacency.dfy), `Degrees` (degrees.dfy), `Histogram`
(histogram.dfy) and `Pipeline` (pipeline.dfy) follow the program's
functions. `Bags` (bags.dfy) holds sums and counts over multisets of
naturals.

## Model

| member | source | states |
|---|---|---|
| `Adjacency.BuildAdjList` | src/main.rs:38-51 | The loop's result is the left fold `AdjList(edges)`. Its keys are exactly the distinct sources. Each key maps to the targets of that source's edges, in input order, one per edge. |
| `Adjacency.AdjListCharacterization` | src/main.rs:38-51 | The fold of create-or-append steps equals its declarative reading. The key set is `Sources(edges)`. Every value is `TargetsOf(edges, s)`, the targets of the edges leaving `s` in input order. |
| `Adjacency.TargetOnlyNodeIsNotKey` | src/main.rs:40-48 | A node that is the source of no edge is never a key, for instance a node seen only as a target. |
| `Adjacency.AdjListValuesNonEmpty` | src/main.rs:41-47 | Every list in the map holds at least one target. |
| `Adjacency.AdjListLengthIsEdgeCount` | src/main.rs:41-47 | A key's list length is the number of edges with that source, counting duplicate edges and self-loops individually. A node is a key exactly when it has at least one out-edge. |
| `Degrees.AddEdgeTotal` | src/main.rs:41-48 | One step of the `adj_list` loop raises the total list length by exactly one, whichever branch it takes. |
| `Degrees.TotalOutDegree` | src/main.rs:38-61 | The list lengths of `adj_list(edges)` add up to the number of edges. |
| `Degrees.LengthsCardinality` | src/main.rs:55-59 | There is exactly one length per key of the map. |
| `Degrees.LengthsCount` | src/main.rs:55-59 | A value `d` occurs among the lengths as often as there are keys whose list has length `d`. |
| `Degrees.EnumerationLengths` | src/main.rs:56-59 | Measuring every key exactly once, in any order, yields the multiset of list lengths. So the output of `calc_length` does not depend on the iteration order beyond a permutation. |
| `Degrees.CalcLength` | src/main.rs:54-61 | Emits one length per key, with no precondition, so zero-length lists are measured too. The keys are taken in some order that visits each key exactly once. The i-th output is the length of the i-th visited key's list. As a multiset the output equals `Lengths(graph)`. |
| `Histogram.SortEntries` | src/main.rs:82 | Afterwards the array is non-decreasing in lexicographic tuple order. It is a permutation of the array before. |
| `Histogram.InsertLast` | src/main.rs:82 | One insertion step of the sort. A sorted prefix of length `i` grows to a sorted prefix of length `i + 1`. Entries after position `i` are left untouched, and the array stays a permutation. |
| `Histogram.SortedTallyIsHistogram` | src/main.rs:76-82 | Take the tally's distinct `(degree, count)` entries, one per key. Once sorted, they are the histogram of the input: degrees strictly ascending, each count exact. |
| `Histogram.LengthFreq` | src/main.rs:64-84 | The result is the histogram of the input. Degrees are strictly ascending, so no degree repeats. Each count equals the degree's number of occurrences and is at least 1. The degrees are exactly the values that occur. |
| `Histogram.HistogramDeterminedByMultiset` | src/main.rs:77-82 | Two histograms of the same multiset are identical. So `length_freq` gives the same output for every permutation of its input and every order in which the tally map hands out its entries. |
| `Histogram.HistogramCountsSum` | src/main.rs:67-74 | The counts of the histogram add up to the number of input degrees. |
| `Histogram.HistogramEmptyIff` | src/main.rs:64-84 | The histogram is empty exactly when there are no degrees. An empty input therefore gives an empty result. |
| `Histogram.HistogramWeightedSum` | src/main.rs:64-84 | Degree times count, summed over the histogram, equals the sum of the input degrees. |
| `Pipeline.DegreeDistribution` | src/main.rs:88-91 | Runs `adj_list`, `calc_length` and `length_freq` in sequence. The result is the histogram of the source nodes' out-degrees. Each entry's count is the number of source nodes with that out-degree. The counts add up to the number of distinct sources. Degree times count adds up to the number of edges. |
| `Pipeline.DistributionIsDeterministic` | src/main.rs:88-91 | The pipeline's output is determined by the edge list alone. Hash-map iteration order does not affect it. |
| `Pipeline.ExampleRepeatedEdgeAdjacency` | src/main.rs:38-51 | Edges A→B, A→C, B→C, A→B give the map {A: [B, C, B], B: [C]}. C, seen only as a target, is not a key. |
| `Pipeline.ExampleRepeatedEdgeLengths` | src/main.rs:54-61 | The out-degrees for that edge list are the multiset {3, 1}. |
| `Pipeline.ExampleRepeatedEdgeHistogram` | src/main.rs:64-84 | The histogram for that edge list is [(1, 1), (3, 1)]. |
| `Pipeline.ExampleNoEdges` | src/main.rs:88-91 | No edges give an empty map and an empty histogram. |
| `Pipeline.ExampleSelfLoop` | src/main.rs:88-91 | The single self-loop X→X gives {X: [X]} and the histogram [(1, 1)]. |

## Left out

- `read_csv` (src/main.rs:17-34) is file I/O through the `csv` crate: tab delimiter, header row, flexible records, and a panic on a missing file or a short record. The edge sequence is a parameter of the model instead.
- Everything in `main` after the pipeline (src/main.rs:92-116) is left out: the console print and the bar chart drawn with the plotters crate, which uses floating-point coordinates and panics on drawing errors. These are I/O and foreign-library work.
- Hash functions and the concrete iteration order of `HashMap` are not modelled. Each walk over a map picks its next key by unconstrained choice, so every proved property holds for every iteration order.
- The clone-then-reinsert of a key's list in `adj_list` (src/main.rs:42-44) is modelled only by its effect: the target is appended to that key's list.
- `Histogram.SortEntries`: the model uses an insertion sort, while `Vec::sort` is a stable merge sort. Both meet the same contract: sorted and a permutation. No two entries are equal, so that contract fixes the result.
- Counts and lengths are unbounded naturals. Rust's `usize` could overflow only with more than 2^64 edges, which cannot be held in memory.
- Ownership and moves (`into_iter`, passing the map and vectors by value) do not matter to the results and are not modelled.
