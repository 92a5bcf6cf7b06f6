/** The instance graph: vertex count, declared edge count and the edge list,
    with 0-based endpoints, exactly as the file reader stores them. */
module Graphs {

  type Edge = (int, int)

  datatype Graph = Graph(n: nat, m: int, edges: seq<Edge>)

  /** Every listed edge joins two vertices of [0, n). The reader does not
      check this; the rest of the model takes it as given. */
  ghost predicate WellFormed(g: Graph) {
    forall k :: 0 <= k < |g.edges| ==> 0 <= g.edges[k].0 < g.n && 0 <= g.edges[k].1 < g.n
  }

  /** Adjacency as the separation code tests it: the pair is listed in
      either orientation. */
  predicate Adjacent(g: Graph, u: int, v: int) {
    (u, v) in g.edges || (v, u) in g.edges
  }

  lemma AdjacentSymmetric(g: Graph, u: int, v: int)
    ensures Adjacent(g, u, v) <==> Adjacent(g, v, u)
  {
  }

  /** std::find over the edge list: the index of the first occurrence of
      e, or |edges| (the end iterator) when e is not listed. */
  method Find(edges: seq<Edge>, e: Edge) returns (k: nat)
    ensures k <= |edges|
    ensures k < |edges| ==> edges[k] == e
    ensures forall p :: 0 <= p < k ==> edges[p] != e
    ensures k == |edges| <==> e !in edges
  {
    k := 0;
    while k < |edges| && edges[k] != e
      invariant k <= |edges|
      invariant forall p :: 0 <= p < k ==> edges[p] != e
    {
      k := k + 1;
    }
  }
}
