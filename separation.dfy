/** The user-cut callback: for every colour it sorts the vertices by their
    relaxation value, grows a clique greedily and hands the clique cut to
    the engine, counting the cuts it adds. The relaxation values of one
    invocation are passed in as vals[vertex][colour]; the engine's add()
    is an append to the list `added`. */
module Separation {
  import opened Graphs
  import opened Formulation
  import opened Clique
  import opened Cuts

  /** One relaxation snapshot: a value for every x[i][j], n by n. */
  ghost predicate IsSnapshot(vals: seq<seq<real>>, n: nat) {
    |vals| == n && forall i :: 0 <= i < n ==> |vals[i]| == n
  }

  /** The values of colour j, indexed by vertex. */
  function Column(vals: seq<seq<real>>, j: nat): (col: seq<real>)
    requires forall i :: 0 <= i < |vals| ==> j < |vals[i]|
    ensures |col| == |vals| && forall i :: 0 <= i < |vals| ==> col[i] == vals[i][j]
  {
    seq(|vals|, i requires 0 <= i < |vals| => vals[i][j])
  }

  /** A cut the callback may emit for colour j: the clique cut of a clique
      the heuristic can return for the values of colour j. */
  ghost predicate IsEmittedCut(g: Graph, vals: seq<seq<real>>, j: nat, cut: Cut) {
    IsSnapshot(vals, g.n) && j < g.n &&
    exists c :: IsGreedyClique(g, Column(vals, j), c) && cut == CliqueCut(c, j)
  }

  /** Entries of a are vertices of [0, |key|). */
  ghost predicate Vertices(a: array<int>, key: seq<real>)
    reads a
  {
    forall m :: 0 <= m < a.Length ==> 0 <= a[m] < |key|
  }

  /** Every cut the callback emits for a clique c of two or more vertices
      is satisfied by every 0/1 point that meets the conflict constraints
      (3), so it removes no coloring the model admits. */
  lemma EmittedCutSound(g: Graph, vals: seq<seq<real>>, j: nat, c: seq<int>, x: seq<seq<int>>, w: seq<int>)
    requires IsEmittedCut(g, vals, j, CliqueCut(c, j)) && |c| >= 2
    requires WellFormed(g) && IsMatrix(x, w, g.n) && IsBinary(x, w) && Conflict(g, x, w)
    ensures Satisfied(CliqueCut(c, j), x, w)
  {
    var c' :| IsGreedyClique(g, Column(vals, j), c') && CliqueCut(c, j) == CliqueCut(c', j);
    assert |c'| + 1 == |CliqueCut(c', j).lhs| == |CliqueCut(c, j).lhs| == |c| + 1;
    GreedyCliqueProperties(g, Column(vals, j), c');
    CliqueCutSound(g, c', j, x, w);
  }

  /** Every cut the callback emits, one-vertex cliques included, is
      satisfied by every 0/1 point that meets (3) and the linking
      constraint. */
  lemma EmittedCutSoundLinked(g: Graph, vals: seq<seq<real>>, j: nat, cut: Cut, x: seq<seq<int>>, w: seq<int>)
    requires IsEmittedCut(g, vals, j, cut)
    requires WellFormed(g) && IsMatrix(x, w, g.n) && IsBinary(x, w) && Conflict(g, x, w) && Linked(x, w, g.n)
    ensures Satisfied(cut, x, w)
  {
    var c :| IsGreedyClique(g, Column(vals, j), c) && cut == CliqueCut(c, j);
    GreedyCliqueProperties(g, Column(vals, j), c);
    CliqueCutSoundLinked(g, c, j, x, w);
  }

  /** The graph of one vertex and no edge. */
  function Isolated(): Graph {
    Graph(1, 0, [])
  }

  /** On one isolated vertex the only vertex order is [0], so the heuristic
      returns [0] whatever the value of x[0][j]. */
  lemma IsolatedVertexClique(key: seq<real>, c: seq<int>)
    requires IsGreedyClique(Isolated(), key, c)
    ensures c == [0]
  {
    var order :| IsVertexOrder(order, 1) && NonIncreasing(order, key) && c == Greedy(Isolated(), order);
    VertexOrderFacts(order, 1);
    assert order == [0];
    assert order[..0] == [];
    assert Greedy(Isolated(), [0]) == [0];
  }

  /** On one isolated vertex the callback posts x[0][0] - w[0] <= 0 for
      colour 0, whatever the relaxation value. */
  lemma IsolatedVertexCutPosted(v: real)
    ensures IsEmittedCut(Isolated(), [[v]], 0, CliqueCut([0], 0))
  {
    var key := Column([[v]], 0);
    IsolatedVertexOrder();
    assert NonIncreasing([0], key);
    assert IsGreedyClique(Isolated(), key, [0]);
  }

  /** [0] is the vertex order of one vertex, and its greedy clique is [0]. */
  lemma IsolatedVertexOrder()
    ensures IsVertexOrder([0], 1) && Greedy(Isolated(), [0]) == [0]
  {
    assert Range(1) == [0];
    assert [0][..0] == [];
  }

  /** ... and no other cut for colour 0. */
  lemma IsolatedVertexCutUnique(vals: seq<seq<real>>, cut: Cut)
    requires IsEmittedCut(Isolated(), vals, 0, cut)
    ensures cut == CliqueCut([0], 0)
  {
    var c :| IsGreedyClique(Isolated(), Column(vals, 0), c) && cut == CliqueCut(c, 0);
    IsolatedVertexClique(Column(vals, 0), c);
  }

  /** The cut posted on one isolated vertex is violated by x = [[1]],
      w = [0], a point meeting (2)-(5). */
  lemma IsolatedVertexCutIsInvalid(v: real)
    ensures IsEmittedCut(Isolated(), [[v]], 0, CliqueCut([0], 0))
    ensures Feasible(Isolated(), [[1]], [0]) && !Satisfied(CliqueCut([0], 0), [[1]], [0])
  {
    IsolatedVertexCutPosted(v);
    SingletonCutExcludesFeasiblePoint();
  }

  /** std::sort of the vertex list with comparator key[a] > key[b]: a
      permutation by non-increasing key. Equal keys are left in no promised
      order; this insertion sort happens to keep them in index order. */
  method SortByValue(a: array<int>, key: seq<real>)
    requires InRange(a[..], |key|)
    modifies a
    ensures NonIncreasing(a[..], key)
    ensures multiset(a[..]) == multiset(old(a[..]))
  {
    var i := 0;
    while i < a.Length
      invariant 0 <= i <= a.Length
      invariant Vertices(a, key)
      invariant forall p, q :: 0 <= p < q < i ==> key[a[p]] >= key[a[q]]
      invariant multiset(a[..]) == multiset(old(a[..]))
    {
      InsertLast(a, i, key);
      i := i + 1;
    }
  }

  /** One insertion step: moves a[i] left past every entry of smaller key,
      so that a[..i+1] is sorted when a[..i] was. */
  method InsertLast(a: array<int>, i: nat, key: seq<real>)
    requires i < a.Length && Vertices(a, key)
    requires forall p, q :: 0 <= p < q < i ==> key[a[p]] >= key[a[q]]
    modifies a
    ensures Vertices(a, key)
    ensures forall p, q :: 0 <= p < q <= i ==> key[a[p]] >= key[a[q]]
    ensures multiset(a[..]) == multiset(old(a[..]))
  {
    var k := i;
    while k > 0 && key[a[k - 1]] < key[a[k]]
      invariant 0 <= k <= i
      invariant Vertices(a, key)
      invariant forall p, q :: 0 <= p < q <= i && p != k && q != k ==> key[a[p]] >= key[a[q]]
      invariant forall q :: k < q <= i ==> key[a[q]] < key[a[k]]
      invariant multiset(a[..]) == multiset(old(a[..]))
    {
      Swap(a, k - 1, k);
      k := k - 1;
    }
  }

  method Swap(a: array<int>, p: nat, q: nat)
    requires p < q < a.Length
    modifies a
    ensures a[p] == old(a[q]) && a[q] == old(a[p])
    ensures forall m :: 0 <= m < a.Length && m != p && m != q ==> a[m] == old(a[m])
    ensures multiset(a[..]) == multiset(old(a[..]))
  {
    a[p], a[q] := a[q], a[p];
  }

  /** The inner loop of the heuristic: v may join when, for every member u,
      (v, u) or (u, v) is in the edge list; the scan stops at the first
      member that fails. */
  method CanJoin(g: Graph, v: int, clique: seq<int>) returns (ok: bool)
    ensures ok <==> AdjacentToAll(g, v, clique)
  {
    ok := true;
    var i := 0;
    while i < |clique|
      invariant 0 <= i <= |clique|
      invariant ok
      invariant forall p :: 0 <= p < i ==> Adjacent(g, v, clique[p])
    {
      var u := clique[i];
      var vu := Find(g.edges, (v, u));
      var uv := Find(g.edges, (u, v));
      if vu == |g.edges| && uv == |g.edges| {
        assert u in clique && !Adjacent(g, v, u);
        ok := false;
        break;
      }
      i := i + 1;
    }
  }

  /** The IloExpr of separarCortes: +1 * x[i][j] for each member i in
      clique order, then -1 * w[j], posted as lhs <= 0. */
  method CliqueCutOf(clique: seq<int>, j: int) returns (cut: Cut)
    ensures cut == CliqueCut(clique, j)
  {
    var lhs: seq<Term> := [];
    for i := 0 to |clique|
      invariant lhs == XTerms(clique[..i], j)
    {
      lhs := lhs + [X(clique[i], j, 1)];
    }
    assert clique[..|clique|] == clique;
    lhs := lhs + [W(j, -1)];
    cut := Cut(lhs, LessEq, 0);
  }

  /** The outer loop of the heuristic: walk the sorted vertices and keep
      each one that can join the clique built so far. A candidate is never
      already a member, so it is never tested against itself. */
  method GreedyWalk(g: Graph, order: seq<int>) returns (clique: seq<int>)
    requires NoDup(order)
    ensures clique == Greedy(g, order)
  {
    clique := [];
    var k := 0;
    while k < |order|
      invariant 0 <= k <= |order|
      invariant clique == Greedy(g, order[..k])
    {
      var v := order[k];
      CandidateNotInClique(g, order, k);
      assert v !in clique;
      var canAdd := CanJoin(g, v, clique);
      assert order[..k + 1][..k] == order[..k];
      if canAdd {
        clique := clique + [v];
      }
      k := k + 1;
    }
    assert order[..|order|] == order;
  }

  class CutCallback {
    const graph: Graph
    /** numCortes: the cuts this instance has added. */
    var numCuts: int
    /** The cuts handed to the engine's add(), in order. */
    var added: seq<Cut>

    ghost predicate Valid()
      reads this
    {
      WellFormed(graph) && numCuts == |added|
    }

    constructor (g: Graph)
      requires WellFormed(g)
      ensures Valid() && graph == g
      ensures numCuts == 0 && added == []
    {
      graph := g;
      numCuts := 0;
      added := [];
    }

    /** getNumCortes: the counter, which equals the number of cuts added. */
    method GetNumCuts() returns (r: int)
      requires Valid()
      ensures r == |added|
    {
      r := numCuts;
    }

    /** encontrarCliqueHeuristica(j): sort the vertices by the values of
        colour j, then keep each vertex adjacent to all kept so far. The
        result is the greedy clique of the order the sort produced, so
        everything proved of greedy cliques of every such order holds. */
    method FindCliqueHeuristic(vals: seq<seq<real>>, j: nat) returns (clique: seq<int>)
      requires IsSnapshot(vals, graph.n) && j < graph.n
      ensures IsGreedyClique(graph, Column(vals, j), clique)
      ensures IsClique(graph, clique) && Maximal(graph, clique, graph.n)
      ensures NoDup(clique) && NonIncreasing(clique, Column(vals, j)) && 1 <= |clique| <= graph.n
    {
      var n := graph.n;
      var vertices := new int[n](i => i);
      assert vertices[..] == Range(n);
      var key := Column(vals, j);
      SortByValue(vertices, key);
      var order := vertices[..];
      VertexOrderFacts(order, n);
      clique := GreedyWalk(graph, order);
      GreedyOrderProperties(graph, key, order);
      assert IsVertexOrder(order, n) && NonIncreasing(order, key) && clique == Greedy(graph, order);
    }

    /** separarCortes: for every colour j in increasing order, find the
        clique and, when it is non-empty, add Σ_{i ∈ clique} x[i][j] − w[j]
        <= 0 and count it. With n >= 1 every clique is non-empty, so each
        call adds exactly n cuts. */
    method SeparateCuts(vals: seq<seq<real>>)
      requires Valid() && IsSnapshot(vals, graph.n)
      modifies this
      ensures Valid()
      ensures |added| == old(|added|) + graph.n && added[..old(|added|)] == old(added)
      ensures forall k :: old(|added|) <= k < |added| ==> IsEmittedCut(graph, vals, k - old(|added|), added[k])
      ensures numCuts == old(numCuts) + graph.n
    {
      ghost var start := |added|;
      var j := 0;
      while j < graph.n
        invariant 0 <= j <= graph.n
        invariant Valid()
        invariant |added| == start + j && added[..start] == old(added)
        invariant forall k :: start <= k < |added| ==> IsEmittedCut(graph, vals, k - start, added[k])
      {
        var clique := FindCliqueHeuristic(vals, j);
        if clique != [] {
          var cut := CliqueCutOf(clique, j);
          ghost var before := added;
          added := added + [cut];
          numCuts := numCuts + 1;
          assert IsEmittedCut(graph, vals, j, cut);
          forall k | start <= k < |added|
            ensures IsEmittedCut(graph, vals, k - start, added[k])
          {
            if k < |before| {
              assert added[k] == before[k];
            } else {
              assert k - start == j && added[k] == cut;
            }
          }
        }
        j := j + 1;
      }
    }
  }
}
