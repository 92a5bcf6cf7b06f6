/** Clique cuts as linear inequalities over the x and w variables, what a
    0/1 point makes of them, and why they are valid. */
module Cuts {
  import opened Graphs
  import opened Formulation
  import opened Clique

  /** coef * x[vertex][colour] or coef * w[colour]. */
  datatype Term = X(vertex: int, colour: int, coef: int) | W(colour: int, coef: int)

  datatype Sense = LessEq | Equal | GreaterEq

  /** A linear inequality Σ lhs (sense) rhs, as handed to the engine. */
  datatype Cut = Cut(lhs: seq<Term>, sense: Sense, rhs: int)

  /** x[i][j] and w[j] when present; a term that names a missing variable
      contributes 0. */
  function XAt(x: seq<seq<int>>, i: int, j: int): int {
    if 0 <= i < |x| && 0 <= j < |x[i]| then x[i][j] else 0
  }

  function WAt(w: seq<int>, j: int): int {
    if 0 <= j < |w| then w[j] else 0
  }

  function TermValue(t: Term, x: seq<seq<int>>, w: seq<int>): int {
    match t
    case X(i, j, c) => c * XAt(x, i, j)
    case W(j, c) => c * WAt(w, j)
  }

  function Value(lhs: seq<Term>, x: seq<seq<int>>, w: seq<int>): int {
    if lhs == [] then 0 else TermValue(lhs[0], x, w) + Value(lhs[1..], x, w)
  }

  predicate Satisfied(cut: Cut, x: seq<seq<int>>, w: seq<int>) {
    match cut.sense
    case LessEq => Value(cut.lhs, x, w) <= cut.rhs
    case Equal => Value(cut.lhs, x, w) == cut.rhs
    case GreaterEq => Value(cut.lhs, x, w) >= cut.rhs
  }

  /** +1 * x[i][j] for each member i of the clique, in clique order. */
  function XTerms(c: seq<int>, j: int): seq<Term> {
    seq(|c|, k requires 0 <= k < |c| => X(c[k], j, 1))
  }

  /** The cut emitted for clique c and colour j: Σ_{i ∈ c} x[i][j] − w[j] <= 0. */
  function CliqueCut(c: seq<int>, j: int): Cut {
    Cut(XTerms(c, j) + [W(j, -1)], LessEq, 0)
  }

  /** The values x[i][j] of the clique members. */
  function Picked(x: seq<seq<int>>, c: seq<int>, j: int): seq<int> {
    seq(|c|, k requires 0 <= k < |c| => XAt(x, c[k], j))
  }

  // ---------------------------------------------------------------------
  // The value of a clique cut

  lemma {:induction false} ValueAppend(a: seq<Term>, b: seq<Term>, x: seq<seq<int>>, w: seq<int>)
    ensures Value(a + b, x, w) == Value(a, x, w) + Value(b, x, w)
  {
    if a != [] {
      assert (a + b)[1..] == a[1..] + b;
      ValueAppend(a[1..], b, x, w);
    } else {
      assert a + b == b;
    }
  }

  lemma {:induction false} XTermsValue(c: seq<int>, j: int, x: seq<seq<int>>, w: seq<int>)
    ensures Value(XTerms(c, j), x, w) == Sum(Picked(x, c, j))
  {
    if c != [] {
      assert XTerms(c, j)[1..] == XTerms(c[1..], j);
      assert Picked(x, c, j)[1..] == Picked(x, c[1..], j);
      XTermsValue(c[1..], j, x, w);
    }
  }

  /** The left-hand side of a clique cut is Σ_{i ∈ c} x[i][j] − w[j]. */
  lemma CliqueCutValue(c: seq<int>, j: int, x: seq<seq<int>>, w: seq<int>)
    ensures Value(CliqueCut(c, j).lhs, x, w) == Sum(Picked(x, c, j)) - WAt(w, j)
  {
    ValueAppend(XTerms(c, j), [W(j, -1)], x, w);
    XTermsValue(c, j, x, w);
  }

  // ---------------------------------------------------------------------
  // Sums of 0/1 values bounded pairwise

  lemma {:induction false} AtMostOneSum(s: seq<int>)
    requires IsBinarySeq(s)
    requires forall p, q :: 0 <= p < |s| && 0 <= q < |s| && p != q ==> s[p] + s[q] <= 1
    ensures Sum(s) <= 1
  {
    if s != [] {
      if s[0] == 1 {
        assert forall k :: 0 <= k < |s[1..]| ==> s[1..][k] == s[k + 1] == 0;
        SumOfZeros(s[1..]);
      } else {
        assert forall p :: 0 <= p < |s[1..]| ==> s[1..][p] == s[p + 1];
        AtMostOneSum(s[1..]);
      }
    }
  }

  /** If every two of at least two 0/1 values sum to at most b (0 or 1),
      all of them together sum to at most b. */
  lemma PairwiseBoundedSum(s: seq<int>, b: int)
    requires IsBinarySeq(s) && (b == 0 || b == 1) && |s| >= 2
    requires forall p, q :: 0 <= p < |s| && 0 <= q < |s| && p != q ==> s[p] + s[q] <= b
    ensures Sum(s) <= b
  {
    if b == 0 {
      forall k | 0 <= k < |s|
        ensures s[k] == 0
      {
        var other := if k == 0 then 1 else 0;
        assert s[k] + s[other] <= 0;
      }
      SumOfZeros(s);
    } else {
      AtMostOneSum(s);
    }
  }

  // ---------------------------------------------------------------------
  // Soundness

  /** A clique cut with at least two members is satisfied by every 0/1 point
      that meets the conflict constraints (3): two members are adjacent, so
      x[u][j] + x[v][j] <= w[j] for each pair of them. */
  lemma CliqueCutSound(g: Graph, c: seq<int>, j: int, x: seq<seq<int>>, w: seq<int>)
    requires WellFormed(g) && IsMatrix(x, w, g.n) && IsBinary(x, w) && Conflict(g, x, w)
    requires 0 <= j < g.n && IsClique(g, c) && InRange(c, g.n) && |c| >= 2
    ensures Satisfied(CliqueCut(c, j), x, w)
  {
    var s := Picked(x, c, j);
    forall p, q | 0 <= p < |s| && 0 <= q < |s| && p != q
      ensures s[p] + s[q] <= w[j]
    {
      var u, v := c[p], c[q];
      assert Adjacent(g, u, v);
      if (u, v) in g.edges {
        var k :| 0 <= k < |g.edges| && g.edges[k] == (u, v);
        assert x[g.edges[k].0][j] + x[g.edges[k].1][j] <= w[j];
      } else {
        var k :| 0 <= k < |g.edges| && g.edges[k] == (v, u);
        assert x[g.edges[k].0][j] + x[g.edges[k].1][j] <= w[j];
      }
    }
    assert IsBinarySeq(s);
    PairwiseBoundedSum(s, w[j]);
    CliqueCutValue(c, j, x, w);
  }

  /** Under the linking constraint every clique cut, a single vertex
      included, is satisfied by every 0/1 point meeting (3). */
  lemma CliqueCutSoundLinked(g: Graph, c: seq<int>, j: int, x: seq<seq<int>>, w: seq<int>)
    requires WellFormed(g) && IsMatrix(x, w, g.n) && IsBinary(x, w) && Conflict(g, x, w)
    requires Linked(x, w, g.n)
    requires 0 <= j < g.n && IsClique(g, c) && InRange(c, g.n) && |c| >= 1
    ensures Satisfied(CliqueCut(c, j), x, w)
  {
    if |c| == 1 {
      CliqueCutValue(c, j, x, w);
      assert Picked(x, c, j) == [x[c[0]][j]];
      assert Sum(Picked(x, c, j)) == x[c[0]][j];
    } else {
      CliqueCutSound(g, c, j, x, w);
    }
  }

  /** The cut of a one-vertex clique is not implied by (2)-(5): for one
      isolated vertex, x = [[1]], w = [0] is feasible and violates it. */
  lemma SingletonCutExcludesFeasiblePoint()
    ensures IsClique(Graph(1, 0, []), [0])
    ensures Feasible(Graph(1, 0, []), [[1]], [0])
    ensures !Satisfied(CliqueCut([0], 0), [[1]], [0])
  {
    EdgelessGraphNeedsNoColour();
    CliqueCutValue([0], 0, [[1]], [0]);
    assert Picked([[1]], [0], 0) == [1];
    assert Sum([1]) == 1;
  }
}
