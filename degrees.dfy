/**
 * The out-degree stage of the pipeline (`calc_length`): the length of every
 * list in an adjacency map, in whatever order the map is walked. Only the
 * multiset of the lengths is determined; the order is not.
 */
module Degrees {
  import opened Adjacency
  import opened Bags

  /** The multiset of list lengths, one per key of the map. */
  ghost function Lengths(graph: AdjacencyMap): multiset<nat>
    decreases |graph|
  {
    if graph == map[] then multiset{}
    else
      var k :| k in graph;
      multiset{|graph[k]|} + Lengths(graph - {k})
  }

  /** The keys whose list has length `d`. */
  ghost function KeysWithLength(graph: AdjacencyMap, d: nat): set<Node>
  {
    set k | k in graph && |graph[k]| == d
  }

  /** Lengths does not depend on which key its definition picks first. */
  lemma {:induction false} LengthsRemove(graph: AdjacencyMap, k: Node)
    requires k in graph
    ensures Lengths(graph) == multiset{|graph[k]|} + Lengths(graph - {k})
    decreases |graph|
  {
    var j :| j in graph && Lengths(graph) == multiset{|graph[j]|} + Lengths(graph - {j});
    if j != k {
      assert graph - {j} - {k} == graph - {k} - {j};
      LengthsRemove(graph - {j}, k);
      LengthsRemove(graph - {k}, j);
    }
  }

  /** A map with a single key has a single length. */
  lemma LengthsSingleton(k: Node, targets: seq<Node>)
    ensures Lengths(map[k := targets]) == multiset{|targets|}
  {
    LengthsRemove(map[k := targets], k);
    assert map[k := targets] - {k} == map[];
  }

  /** A map with two keys has two lengths. */
  lemma LengthsPair(k1: Node, targets1: seq<Node>, k2: Node, targets2: seq<Node>)
    requires k1 != k2
    ensures Lengths(map[k1 := targets1, k2 := targets2]) == multiset{|targets1|, |targets2|}
  {
    var graph := map[k1 := targets1, k2 := targets2];
    var rest := map[k2 := targets2];
    assert graph - {k1} == rest by {
      assert (graph - {k1}).Keys == rest.Keys;
    }
    calc {
      Lengths(graph);
      { LengthsRemove(graph, k1); }
      multiset{|targets1|} + Lengths(rest);
      { LengthsSingleton(k2, targets2); }
      multiset{|targets1|} + multiset{|targets2|};
    }
  }

  /** There is exactly one length per key. */
  lemma {:induction false} LengthsCardinality(graph: AdjacencyMap)
    ensures |Lengths(graph)| == |graph|
    decreases |graph|
  {
    if graph != map[] {
      var k :| k in graph;
      LengthsRemove(graph, k);
      LengthsCardinality(graph - {k});
    }
  }

  /** Taking one key out of the map removes it from the keys with its length, and only there. */
  lemma KeysWithLengthRemove(graph: AdjacencyMap, k: Node, d: nat)
    requires k in graph
    ensures |KeysWithLength(graph, d)|
         == |KeysWithLength(graph - {k}, d)| + (if |graph[k]| == d then 1 else 0)
  {
    var below := KeysWithLength(graph - {k}, d);
    assert k !in below;
    if |graph[k]| == d {
      assert KeysWithLength(graph, d) == below + {k};
    } else {
      assert KeysWithLength(graph, d) == below;
    }
  }

  /** A length occurs in Lengths as often as there are keys with a list of that length. */
  lemma {:induction false} LengthsCount(graph: AdjacencyMap, d: nat)
    ensures Lengths(graph)[d] == |KeysWithLength(graph, d)|
    decreases |graph|
  {
    if graph != map[] {
      var k :| k in graph;
      LengthsRemove(graph, k);
      LengthsCount(graph - {k}, d);
      KeysWithLengthRemove(graph, k, d);
    } else {
      assert KeysWithLength(graph, d) == {};
    }
  }

  /** Adding one edge raises the total of the list lengths by exactly one. */
  lemma AddEdgeTotal(graph: AdjacencyMap, e: Edge)
    ensures BagSum(Lengths(AddEdge(graph, e))) == BagSum(Lengths(graph)) + 1
  {
    var g, s := AddEdge(graph, e), e.source;
    var rest := graph - {s};
    assert g - {s} == rest;
    LengthsRemove(g, s);
    BagSumAdd(Lengths(rest), |g[s]|);
    if s in graph {
      LengthsRemove(graph, s);
      BagSumAdd(Lengths(rest), |graph[s]|);
    } else {
      assert rest == graph;
    }
  }

  /** The list lengths of `adj_list(edges)` add up to the number of edges. */
  lemma {:induction false} TotalOutDegree(edges: seq<Edge>)
    ensures BagSum(Lengths(AdjList(edges))) == |edges|
  {
    if |edges| > 0 {
      TotalOutDegree(edges[..|edges| - 1]);
      AddEdgeTotal(AdjList(edges[..|edges| - 1]), edges[|edges| - 1]);
    }
  }

  /** The multiset of a nonempty sequence splits off its last element. */
  lemma MultisetOfSnoc(s: seq<nat>)
    requires |s| > 0
    ensures multiset(s) == multiset(s[..|s| - 1]) + multiset{s[|s| - 1]}
  {
    assert s == s[..|s| - 1] + [s[|s| - 1]];
  }

  /**
   * `order` lists every key of the map exactly once and `lengths` holds the
   * length of each listed key's list, position by position.
   */
  ghost predicate Enumerates(graph: AdjacencyMap, order: seq<Node>, lengths: seq<nat>)
  {
    && |lengths| == |order|
    && (forall i, j :: 0 <= i < j < |order| ==> order[i] != order[j])
    && (forall i :: 0 <= i < |order| ==> order[i] in graph && lengths[i] == |graph[order[i]]|)
    && (forall k :: k in graph ==> k in order)
  }

  /** Dropping the last key of an enumeration enumerates the map without that key. */
  lemma EnumerationPrefix(graph: AdjacencyMap, order: seq<Node>, lengths: seq<nat>)
    requires Enumerates(graph, order, lengths) && |order| > 0
    ensures Enumerates(graph - {order[|order| - 1]}, order[..|order| - 1], lengths[..|order| - 1])
  {
    var n := |order| - 1;
    var smaller := graph - {order[n]};
    forall key | key in smaller
      ensures key in order[..n]
    {
      var i :| 0 <= i < |order| && order[i] == key;
      assert i != n;
    }
  }

  /**
   * Measuring the keys of a map one by one, each exactly once, in any order,
   * yields exactly the multiset of its list lengths.
   */
  lemma {:induction false} EnumerationLengths(graph: AdjacencyMap, order: seq<Node>, lengths: seq<nat>)
    requires Enumerates(graph, order, lengths)
    ensures multiset(lengths) == Lengths(graph)
    decreases |order|
  {
    if |order| == 0 {
      assert graph == map[];
    } else {
      var n := |order| - 1;
      EnumerationPrefix(graph, order, lengths);
      EnumerationLengths(graph - {order[n]}, order[..n], lengths[..n]);
      LengthsRemove(graph, order[n]);
      MultisetOfSnoc(lengths);
    }
  }

  /**
   * `calc_length`: walks the map in an unspecified order (the ghost `order`
   * records the one taken) and emits the length of each key's list. Lists
   * of length zero are measured like any other.
   */
  method CalcLength(graph: AdjacencyMap) returns (lengths: seq<nat>, ghost order: seq<Node>)
    ensures |lengths| == |order| == |graph|
    ensures forall i, j :: 0 <= i < j < |order| ==> order[i] != order[j]
    ensures forall i :: 0 <= i < |order| ==> order[i] in graph && lengths[i] == |graph[order[i]]|
    ensures multiset(lengths) == Lengths(graph)
  {
    lengths, order := [], [];
    var rest := graph.Keys;
    while rest != {}
      invariant rest <= graph.Keys
      invariant |lengths| == |order|
      invariant forall i, j :: 0 <= i < j < |order| ==> order[i] != order[j]
      invariant forall i :: 0 <= i < |order| ==>
        order[i] in graph && order[i] !in rest && lengths[i] == |graph[order[i]]|
      invariant forall k :: k in graph && k !in rest ==> k in order
      decreases rest
    {
      var k :| k in rest;
      var length := |graph[k]|;
      lengths := lengths + [length];
      order := order + [k];
      rest := rest - {k};
    }
    EnumerationLengths(graph, order, lengths);
    LengthsCardinality(graph);
  }
}
