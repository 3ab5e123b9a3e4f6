/**
 * The three stages composed as the program runs them: the edge list becomes
 * an adjacency map, the map becomes a list of out-degrees, and the degrees
 * become a histogram sorted by ascending degree. Reading the edge file and
 * drawing the chart lie outside this model; the edges are a parameter.
 */
module Pipeline {
  import opened Adjacency
  import opened Degrees
  import opened Histogram

  /** The source nodes with exactly `d` out-edges. */
  ghost function NodesWithOutDegree(edges: seq<Edge>, d: nat): set<Node>
  {
    set s | s in Sources(edges) && |TargetsOf(edges, s)| == d
  }

  /** The source nodes of a given out-degree are the keys of `adj_list` with lists of that length. */
  lemma NodesWithOutDegreeAreKeys(edges: seq<Edge>, d: nat)
    ensures NodesWithOutDegree(edges, d) == KeysWithLength(AdjList(edges), d)
  {
    AdjListCharacterization(edges);
  }

  /**
   * The pipeline of the program's entry point: `adj_list`, then
   * `calc_length`, then `length_freq`. The result is the histogram of the
   * out-degrees of the source nodes: each entry counts the nodes of one
   * out-degree, the counts add up to the number of source nodes, and degree
   * times count adds up to the number of edges.
   */
  method DegreeDistribution(edges: seq<Edge>) returns (hist: seq<Entry>)
    ensures IsHistogramOf(Lengths(AdjList(edges)), hist)
    ensures forall i :: 0 <= i < |hist| ==> hist[i].1 == |NodesWithOutDegree(edges, hist[i].0)|
    ensures SumCounts(hist) == |Sources(edges)|
    ensures WeightedSum(hist) == |edges|
  {
    var graph := BuildAdjList(edges);
    var lengths;
    ghost var order;
    lengths, order := CalcLength(graph);
    hist := LengthFreq(lengths);
    forall i | 0 <= i < |hist|
      ensures hist[i].1 == |NodesWithOutDegree(edges, hist[i].0)|
    {
      LengthsCount(graph, hist[i].0);
      NodesWithOutDegreeAreKeys(edges, hist[i].0);
    }
    HistogramCountsSum(Lengths(graph), hist);
    LengthsCardinality(graph);
    assert |graph| == |graph.Keys|;
    HistogramWeightedSum(Lengths(graph), hist);
    TotalOutDegree(edges);
  }

  /**
   * Whatever order the maps hand out their entries in, the pipeline's result
   * is fixed by the edges alone.
   */
  lemma DistributionIsDeterministic(edges: seq<Edge>, h1: seq<Entry>, h2: seq<Entry>)
    requires IsHistogramOf(Lengths(AdjList(edges)), h1)
    requires IsHistogramOf(Lengths(AdjList(edges)), h2)
    ensures h1 == h2
  {
    HistogramDeterminedByMultiset(Lengths(AdjList(edges)), h1, h2);
  }

  /** Four edges, one of them repeated: A has out-degree 3, B has 1, C has none. */
  const RepeatedEdge: seq<Edge> :=
    [Edge("A", "B"), Edge("A", "C"), Edge("B", "C"), Edge("A", "B")]

  lemma ExampleRepeatedEdgeAdjacency()
    ensures AdjList(RepeatedEdge) == map["A" := ["B", "C", "B"], "B" := ["C"]]
  {
    var e1 := [Edge("A", "B")];
    var e2 := e1 + [Edge("A", "C")];
    var e3 := e2 + [Edge("B", "C")];
    assert e1[..0] == [] && e2[..1] == e1 && e3[..2] == e2 && RepeatedEdge[..3] == e3;
    assert AdjList(e1) == map["A" := ["B"]];
    assert ["B"] + ["C"] == ["B", "C"];
    assert AdjList(e2) == map["A" := ["B", "C"]];
    assert AdjList(e3) == map["A" := ["B", "C"], "B" := ["C"]];
    assert ["B", "C"] + ["B"] == ["B", "C", "B"];
  }

  lemma ExampleRepeatedEdgeLengths()
    ensures Lengths(AdjList(RepeatedEdge)) == multiset{3, 1}
  {
    ExampleRepeatedEdgeAdjacency();
    LengthsPair("A", ["B", "C", "B"], "B", ["C"]);
  }

  lemma ExampleRepeatedEdgeHistogram(h: seq<Entry>)
    requires IsHistogramOf(Lengths(AdjList(RepeatedEdge)), h)
    ensures h == [(1, 1), (3, 1)]
  {
    ExampleRepeatedEdgeLengths();
    var expected: seq<Entry> := [(1, 1), (3, 1)];
    assert DegreesOf(expected) == {1, 3} by {
      assert expected[0] in expected && expected[1] in expected;
    }
    assert IsHistogramOf(multiset{3, 1}, expected);
    HistogramDeterminedByMultiset(multiset{3, 1}, h, expected);
  }

  /** No edges: no keys, no degrees, an empty histogram. */
  lemma ExampleNoEdges(h: seq<Entry>)
    requires IsHistogramOf(Lengths(AdjList([])), h)
    ensures AdjList([]) == map[] && h == []
  {
    HistogramEmptyIff(Lengths(AdjList([])), h);
  }

  /** A single self-loop: X points to itself once and has out-degree 1. */
  lemma ExampleSelfLoop(h: seq<Entry>)
    requires IsHistogramOf(Lengths(AdjList([Edge("X", "X")])), h)
    ensures AdjList([Edge("X", "X")]) == map["X" := ["X"]]
    ensures h == [(1, 1)]
  {
    var edges := [Edge("X", "X")];
    assert edges[..0] == [];
    var graph := map["X" := ["X"]];
    assert AdjList(edges) == graph;
    LengthsSingleton("X", ["X"]);
    var expected: seq<Entry> := [(1, 1)];
    assert DegreesOf(expected) == {1} by {
      assert expected[0] in expected;
    }
    assert IsHistogramOf(multiset{1}, expected);
    HistogramDeterminedByMultiset(multiset{1}, h, expected);
  }
}
