/**
 * The adjacency-list stage of the out-degree pipeline (`adj_list`): a
 * sequence of directed edges is folded into a map from every distinct source
 * node to the targets of its out-edges, in input order. Duplicate edges and
 * self-loops are recorded once per occurrence; a node that only ever appears
 * as a target never becomes a key.
 */
module Adjacency {

  /** Node identifiers are opaque strings. */
  type Node = string

  /** A directed edge from `source` to `target`. */
  datatype Edge = Edge(source: Node, target: Node)

  /** Each source node mapped to the targets it points to. */
  type AdjacencyMap = map<Node, seq<Node>>

  /**
   * One iteration of the loop in `adj_list`: the first occurrence of a source
   * creates a one-element list, every later one appends its target.
   */
  function AddEdge(graph: AdjacencyMap, e: Edge): AdjacencyMap
  {
    if e.source in graph then graph[e.source := graph[e.source] + [e.target]]
    else graph[e.source := [e.target]]
  }

  /** The map `adj_list` returns: AddEdge folded over the edges from the left. */
  function AdjList(edges: seq<Edge>): AdjacencyMap
  {
    if |edges| == 0 then map[]
    else AddEdge(AdjList(edges[..|edges| - 1]), edges[|edges| - 1])
  }

  /** The distinct source nodes of the edges. */
  function Sources(edges: seq<Edge>): set<Node>
  {
    set e | e in edges :: e.source
  }

  /** The targets of the edges leaving `s`, one per edge, in input order. */
  function TargetsOf(edges: seq<Edge>, s: Node): seq<Node>
  {
    if |edges| == 0 then []
    else (if edges[0].source == s then [edges[0].target] else []) + TargetsOf(edges[1..], s)
  }

  /** The source of every edge, in input order (duplicates kept). */
  function SourceList(edges: seq<Edge>): seq<Node>
  {
    seq(|edges|, i requires 0 <= i < |edges| => edges[i].source)
  }

  /** The number of edges leaving `s`, duplicates included. */
  function EdgeCount(edges: seq<Edge>, s: Node): nat
  {
    multiset(SourceList(edges))[s]
  }

  lemma {:induction false} TargetsOfSnoc(edges: seq<Edge>, e: Edge, s: Node)
    ensures TargetsOf(edges + [e], s)
         == TargetsOf(edges, s) + (if e.source == s then [e.target] else [])
  {
    if |edges| == 0 {
      assert (edges + [e])[1..] == [];
    } else {
      assert (edges + [e])[1..] == edges[1..] + [e];
      TargetsOfSnoc(edges[1..], e, s);
    }
  }

  /**
   * The fold agrees with the declarative reading of `adj_list`: its keys are
   * exactly the distinct sources, and each key holds the targets of that
   * source's edges in input order.
   */
  lemma {:induction false} AdjListCharacterization(edges: seq<Edge>)
    ensures AdjList(edges).Keys == Sources(edges)
    ensures forall s :: s in AdjList(edges) ==> AdjList(edges)[s] == TargetsOf(edges, s)
  {
    if |edges| > 0 {
      var n := |edges| - 1;
      var prefix, e := edges[..n], edges[n];
      assert edges == prefix + [e];
      AdjListCharacterization(prefix);
      assert Sources(edges) == Sources(prefix) + {e.source};
      forall s | s in AdjList(edges)
        ensures AdjList(edges)[s] == TargetsOf(edges, s)
      {
        TargetsOfSnoc(prefix, e, s);
        if s == e.source && s !in AdjList(prefix) {
          assert s !in Sources(prefix);
          TargetsOfNone(prefix, s);
        }
      }
    }
  }

  /** A node that is the source of no edge has no targets. */
  lemma {:induction false} TargetsOfNone(edges: seq<Edge>, s: Node)
    requires s !in Sources(edges)
    ensures TargetsOf(edges, s) == []
  {
    if |edges| > 0 {
      assert edges[0] in edges;
      assert Sources(edges[1..]) <= Sources(edges) by {
        forall x | x in Sources(edges[1..]) ensures x in Sources(edges) {
          var e :| e in edges[1..] && e.source == x;
          assert e in edges;
        }
      }
      TargetsOfNone(edges[1..], s);
    }
  }

  /** A node that is never a source (for instance, one seen only as a target) is not a key. */
  lemma TargetOnlyNodeIsNotKey(edges: seq<Edge>, t: Node)
    requires forall e :: e in edges ==> e.source != t
    ensures t !in AdjList(edges)
  {
    AdjListCharacterization(edges);
  }

  /** Every list in the adjacency map holds at least one target. */
  lemma {:induction false} AdjListValuesNonEmpty(edges: seq<Edge>)
    ensures forall s :: s in AdjList(edges) ==> |AdjList(edges)[s]| >= 1
  {
    if |edges| > 0 {
      AdjListValuesNonEmpty(edges[..|edges| - 1]);
    }
  }

  /**
   * The length of a node's list is the number of edges leaving it, counting
   * duplicate edges and self-loops individually; nodes without out-edges are
   * absent.
   */
  lemma {:induction false} AdjListLengthIsEdgeCount(edges: seq<Edge>, s: Node)
    ensures s in AdjList(edges) ==> |AdjList(edges)[s]| == EdgeCount(edges, s)
    ensures s !in AdjList(edges) <==> EdgeCount(edges, s) == 0
  {
    if |edges| > 0 {
      var n := |edges| - 1;
      var prefix := edges[..n];
      AdjListLengthIsEdgeCount(prefix, s);
      assert SourceList(edges) == SourceList(prefix) + [edges[n].source];
    }
  }

  /**
   * `adj_list`: walks the edges once, creating a one-element list on the
   * first occurrence of a source and appending the target on every later
   * one.
   */
  method BuildAdjList(edges: seq<Edge>) returns (graph: AdjacencyMap)
    ensures graph == AdjList(edges)
    ensures graph.Keys == Sources(edges)
    ensures forall s :: s in graph ==> graph[s] == TargetsOf(edges, s)
  {
    graph := map[];
    for i := 0 to |edges|
      invariant graph == AdjList(edges[..i])
    {
      var v := edges[i];
      assert edges[..i + 1][..i] == edges[..i];
      if v.source in graph {
        var x := graph[v.source];
        x := x + [v.target];
        graph := graph[v.source := x];
      } else {
        var newList := [v.target];
        graph := graph[v.source := newList];
      }
    }
    assert edges[..|edges|] == edges;
    AdjListCharacterization(edges);
  }
}
