/** The integer program handed to the solver: x[i][j] = 1 when vertex i
    gets colour j, w[j] = 1 when colour j is used. Only its constraints are
    modelled, as predicates over 0/1 matrices; the solver is not. */
module Formulation {
  import opened Graphs

  function Sum(s: seq<int>): int
  {
    if s == [] then 0 else s[0] + Sum(s[1..])
  }

  /** x is n-by-n (vertex by colour) and w has one entry per colour. */
  ghost predicate IsMatrix(x: seq<seq<int>>, w: seq<int>, n: nat) {
    |x| == n && |w| == n && forall i :: 0 <= i < n ==> |x[i]| == n
  }

  /** Every variable is an IloBoolVar. */
  ghost predicate IsBinary(x: seq<seq<int>>, w: seq<int>) {
    (forall i, j :: 0 <= i < |x| && 0 <= j < |x[i]| ==> x[i][j] == 0 || x[i][j] == 1) &&
    (forall j :: 0 <= j < |w| ==> w[j] == 0 || w[j] == 1)
  }

  ghost predicate IsBinarySeq(s: seq<int>) {
    forall k :: 0 <= k < |s| ==> s[k] == 0 || s[k] == 1
  }

  /** The entries of colour j, one per vertex. */
  function ColumnOf(x: seq<seq<int>>, j: nat): seq<int>
    requires forall i :: 0 <= i < |x| ==> j < |x[i]|
  {
    seq(|x|, i requires 0 <= i < |x| => x[i][j])
  }

  /** Constraint (2): every vertex receives exactly one colour. */
  ghost predicate Assignment(x: seq<seq<int>>, w: seq<int>, n: nat)
    requires IsMatrix(x, w, n)
  {
    forall i :: 0 <= i < n ==> Sum(x[i]) == 1
  }

  /** Constraint (3): for every listed edge and every colour j,
      x[u][j] + x[v][j] <= w[j]. */
  ghost predicate Conflict(g: Graph, x: seq<seq<int>>, w: seq<int>)
    requires WellFormed(g) && IsMatrix(x, w, g.n)
  {
    forall k, j :: 0 <= k < |g.edges| && 0 <= j < g.n ==>
      x[g.edges[k].0][j] + x[g.edges[k].1][j] <= w[j]
  }

  /** Constraint (4): colours are used in index order, w[j] >= w[j+1]. */
  ghost predicate SymmetryBreaking(w: seq<int>) {
    forall j :: 0 <= j < |w| - 1 ==> w[j] >= w[j + 1]
  }

  /** Constraint (5): a colour counts as used only if some vertex has it. */
  ghost predicate Usage(x: seq<seq<int>>, w: seq<int>, n: nat)
    requires IsMatrix(x, w, n)
  {
    forall j :: 0 <= j < n ==> w[j] <= Sum(ColumnOf(x, j))
  }

  /** The feasible region of the model as written, constraints (2)-(5). */
  ghost predicate Feasible(g: Graph, x: seq<seq<int>>, w: seq<int>) {
    WellFormed(g) && IsMatrix(x, w, g.n) && IsBinary(x, w) &&
    Assignment(x, w, g.n) && Conflict(g, x, w) && SymmetryBreaking(w) && Usage(x, w, g.n)
  }

  /** The objective: the number of colours marked used. */
  function Objective(w: seq<int>): int
  {
    Sum(w)
  }

  /** The linking constraint the model lacks: a colour given to any vertex
      is marked used. Constraint (3) implies it only for vertices with an
      edge. */
  ghost predicate Linked(x: seq<seq<int>>, w: seq<int>, n: nat)
    requires IsMatrix(x, w, n)
  {
    forall i, j :: 0 <= i < n && 0 <= j < n ==> x[i][j] <= w[j]
  }

  /** The corrected feasible region: (2)-(5) plus the linking constraint. */
  ghost predicate LinkedFeasible(g: Graph, x: seq<seq<int>>, w: seq<int>) {
    Feasible(g, x, w) && Linked(x, w, g.n)
  }

  lemma {:induction false} SumOfZeros(s: seq<int>)
    requires forall k :: 0 <= k < |s| ==> s[k] == 0
    ensures Sum(s) == 0
  {
    if s != [] {
      SumOfZeros(s[1..]);
    }
  }

  lemma {:induction false} SumBoundsEntry(s: seq<int>, k: nat)
    requires IsBinarySeq(s) && k < |s|
    ensures s[k] <= Sum(s)
  {
    if k == 0 {
      SumNonNegative(s[1..]);
    } else {
      SumBoundsEntry(s[1..], k - 1);
    }
  }

  lemma {:induction false} SumNonNegative(s: seq<int>)
    requires IsBinarySeq(s)
    ensures 0 <= Sum(s)
  {
    if s != [] {
      SumNonNegative(s[1..]);
    }
  }

  /** A 0/1 row summing to 1 has exactly one entry equal to 1. */
  lemma {:induction false} SumOneHasUniqueOne(s: seq<int>)
    requires IsBinarySeq(s) && Sum(s) == 1
    ensures exists k :: 0 <= k < |s| && s[k] == 1
    ensures forall k, l :: 0 <= k < |s| && 0 <= l < |s| && s[k] == 1 && s[l] == 1 ==> k == l
  {
    if s[0] == 1 {
      SumZeroAllZero(s[1..]);
      assert forall k :: 1 <= k < |s| ==> s[k] == s[1..][k - 1];
    } else {
      SumOneHasUniqueOne(s[1..]);
      var k :| 0 <= k < |s[1..]| && s[1..][k] == 1;
      assert s[k + 1] == 1;
      assert forall k :: 1 <= k < |s| ==> s[k] == s[1..][k - 1];
    }
  }

  lemma {:induction false} SumZeroAllZero(s: seq<int>)
    requires IsBinarySeq(s) && Sum(s) == 0
    ensures forall k :: 0 <= k < |s| ==> s[k] == 0
  {
    if s != [] {
      SumNonNegative(s[1..]);
      SumZeroAllZero(s[1..]);
      assert forall k :: 1 <= k < |s| ==> s[k] == s[1..][k - 1];
    }
  }

  /** Constraint (2) with binary variables: vertex i has exactly one colour. */
  lemma ExactlyOneColour(g: Graph, x: seq<seq<int>>, w: seq<int>, i: nat)
    requires Feasible(g, x, w) && i < g.n
    ensures exists j :: 0 <= j < g.n && x[i][j] == 1
    ensures forall j, l :: 0 <= j < g.n && 0 <= l < g.n && x[i][j] == 1 && x[i][l] == 1 ==> j == l
  {
    assert IsBinarySeq(x[i]);
    SumOneHasUniqueOne(x[i]);
  }

  /** Constraint (3): the two ends of a listed edge never share a colour. */
  lemma EdgeEndsDiffer(g: Graph, x: seq<seq<int>>, w: seq<int>, k: nat, j: nat)
    requires Feasible(g, x, w) && k < |g.edges| && j < g.n
    ensures !(x[g.edges[k].0][j] == 1 && x[g.edges[k].1][j] == 1)
  {
    assert w[j] <= 1;
    assert x[g.edges[k].0][j] + x[g.edges[k].1][j] <= w[j];
  }

  /** As written, an edgeless graph is coloured with no used colour at all:
      one vertex, no edge, x = [[1]], w = [0] meets (2)-(5) with objective 0. */
  lemma EdgelessGraphNeedsNoColour()
    ensures Feasible(Graph(1, 0, []), [[1]], [0])
    ensures Objective([0]) == 0
  {
    var x: seq<seq<int>> := [[1]];
    assert Sum(x[0]) == 1;
    assert ColumnOf(x, 0) == [1];
    assert Sum(ColumnOf(x, 0)) == 1;
  }

  lemma {:induction false} SumOfOnes(s: seq<int>)
    requires forall k :: 0 <= k < |s| ==> s[k] == 1
    ensures Sum(s) == |s|
  {
    if s != [] {
      SumOfOnes(s[1..]);
    }
  }

  /** The row 1, 0, ..., 0 of length n: colour 0 only. */
  function FirstColour(n: nat): seq<int> {
    seq(n, k => if k == 0 then 1 else 0)
  }

  /** With the linking constraint an edgeless graph with a vertex is
      coloured with one colour: every vertex takes colour 0, and only
      colour 0 is marked used. */
  lemma EdgelessGraphOneColour(n: nat)
    requires n >= 1
    ensures LinkedFeasible(Graph(n, 0, []), seq(n, i => FirstColour(n)), FirstColour(n))
    ensures Objective(FirstColour(n)) == 1
  {
    var w := FirstColour(n);
    var x := seq(n, i => w);
    SumOfZeros(w[1..]);
    assert Sum(w) == 1;
    forall i | 0 <= i < n
      ensures Sum(x[i]) == 1
    {
      assert x[i] == w;
    }
    forall j | 0 <= j < n
      ensures w[j] <= Sum(ColumnOf(x, j))
    {
      var col := ColumnOf(x, j);
      if j == 0 {
        SumOfOnes(col);
      } else {
        assert IsBinarySeq(col);
        SumNonNegative(col);
      }
    }
  }

  /** With the linking constraint a graph with a vertex needs a colour. */
  lemma LinkedObjectiveAtLeastOne(g: Graph, x: seq<seq<int>>, w: seq<int>)
    requires LinkedFeasible(g, x, w) && g.n >= 1
    ensures Objective(w) >= 1
  {
    ExactlyOneColour(g, x, w, 0);
    var j :| 0 <= j < g.n && x[0][j] == 1;
    assert IsBinarySeq(w);
    SumBoundsEntry(w, j);
  }
}
