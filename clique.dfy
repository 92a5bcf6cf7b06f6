/** The greedy clique heuristic as a specification: the clique it builds
    from a given vertex order, and what holds of that clique for every
    order the sort may produce. */
module Clique {
  import opened Graphs

  /** The vertex list 0, 1, ..., n-1 that std::iota writes. */
  function Range(n: nat): (r: seq<int>)
    ensures |r| == n && forall i :: 0 <= i < n ==> r[i] == i
  {
    seq(n, i => i)
  }

  predicate NoDup(s: seq<int>) {
    forall p, q :: 0 <= p < q < |s| ==> s[p] != s[q]
  }

  predicate InRange(s: seq<int>, n: nat) {
    forall k :: 0 <= k < |s| ==> 0 <= s[k] < n
  }

  /** The order the greedy loop walks: a permutation of 0..n-1. */
  ghost predicate IsVertexOrder(order: seq<int>, n: nat) {
    multiset(order) == multiset(Range(n))
  }

  /** s lists vertices of [0, |key|) by non-increasing key, as the sort
      with comparator key[a] > key[b] leaves them. Equal keys may come in
      any order. */
  ghost predicate NonIncreasing(s: seq<int>, key: seq<real>) {
    InRange(s, |key|) && forall p, q :: 0 <= p < q < |s| ==> key[s[p]] >= key[s[q]]
  }

  /** The test of the inner loop: v is adjacent to every member of c. */
  ghost predicate AdjacentToAll(g: Graph, v: int, c: seq<int>) {
    forall u :: u in c ==> Adjacent(g, v, u)
  }

  /** Every two distinct positions of c hold adjacent vertices. */
  ghost predicate IsClique(g: Graph, c: seq<int>) {
    forall p, q :: 0 <= p < |c| && 0 <= q < |c| && p != q ==> Adjacent(g, c[p], c[q])
  }

  /** Every vertex of [0, n) left out of c is non-adjacent to some member. */
  ghost predicate Maximal(g: Graph, c: seq<int>, n: nat) {
    forall v :: 0 <= v < n && v !in c ==> exists u :: u in c && !Adjacent(g, v, u)
  }

  /** a is a subsequence of b. */
  ghost predicate IsSubseq(a: seq<int>, b: seq<int>)
    decreases |b|
  {
    a == [] ||
    (b != [] &&
     ((a[|a| - 1] == b[|b| - 1] && IsSubseq(a[..|a| - 1], b[..|b| - 1])) ||
      IsSubseq(a, b[..|b| - 1])))
  }

  /** The clique the greedy loop has built after walking the vertices of
      order: each vertex is kept when it is adjacent to all kept so far. */
  ghost function Greedy(g: Graph, order: seq<int>): seq<int>
    decreases |order|
  {
    if order == [] then []
    else
      var c := Greedy(g, order[..|order| - 1]);
      var v := order[|order| - 1];
      if AdjacentToAll(g, v, c) then c + [v] else c
  }

  /** The cliques the heuristic can return for colour values key: the
      greedy clique of some order the unstable sort may produce. */
  ghost predicate IsGreedyClique(g: Graph, key: seq<real>, c: seq<int>) {
    exists order :: IsVertexOrder(order, g.n) && NonIncreasing(order, key) && c == Greedy(g, order)
  }

  // ---------------------------------------------------------------------
  // Vertex orders

  lemma {:induction false} NoDupCounts(s: seq<int>)
    requires NoDup(s)
    ensures forall v :: multiset(s)[v] <= 1
  {
    if s != [] {
      var init := s[..|s| - 1];
      NoDupCounts(init);
      assert s == init + [s[|s| - 1]];
      assert forall p :: 0 <= p < |init| ==> init[p] == s[p] != s[|s| - 1];
      assert s[|s| - 1] !in init;
    }
  }

  lemma CountsNoDup(s: seq<int>)
    requires forall v :: multiset(s)[v] <= 1
    ensures NoDup(s)
  {
    forall p, q | 0 <= p < q < |s|
      ensures s[p] != s[q]
    {
      var v := s[q];
      assert s == s[..q] + s[q..];
      assert s[q..][0] == v;
      assert multiset(s)[v] == multiset(s[..q])[v] + multiset(s[q..])[v];
      assert v !in s[..q];
      assert s[..q][p] == s[p];
    }
  }

  /** A vertex order lists every vertex of [0, n) exactly once. */
  lemma VertexOrderFacts(order: seq<int>, n: nat)
    requires IsVertexOrder(order, n)
    ensures |order| == n && NoDup(order) && InRange(order, n)
    ensures forall v :: 0 <= v < n ==> v in order
  {
    calc {
      |order|;
      |multiset(order)|;
      |multiset(Range(n))|;
      n;
    }
    forall k | 0 <= k < |order|
      ensures 0 <= order[k] < n
    {
      assert order[k] in multiset(order);
      assert order[k] in Range(n);
    }
    forall v | 0 <= v < n
      ensures v in order
    {
      assert Range(n)[v] == v;
      assert v in multiset(Range(n));
    }
    assert NoDup(Range(n));
    NoDupCounts(Range(n));
    CountsNoDup(order);
  }

  // ---------------------------------------------------------------------
  // Subsequences

  lemma {:induction false} SubseqMembers(a: seq<int>, b: seq<int>)
    requires IsSubseq(a, b)
    ensures forall v :: v in a ==> v in b
    ensures |a| <= |b|
    decreases |b|
  {
    if a != [] {
      var b' := b[..|b| - 1];
      assert b == b' + [b[|b| - 1]];
      if a[|a| - 1] == b[|b| - 1] && IsSubseq(a[..|a| - 1], b') {
        SubseqMembers(a[..|a| - 1], b');
        assert a == a[..|a| - 1] + [a[|a| - 1]];
      } else {
        SubseqMembers(a, b');
      }
    }
  }

  lemma SubseqNoDup(a: seq<int>, b: seq<int>)
    requires IsSubseq(a, b) && NoDup(b)
    ensures NoDup(a)
  {
    SubseqMembers(a, b);
    NoDupCounts(b);
    forall v ensures multiset(a)[v] <= 1 {
      SubseqCounts(a, b, v);
    }
    CountsNoDup(a);
  }

  lemma {:induction false} SubseqCounts(a: seq<int>, b: seq<int>, v: int)
    requires IsSubseq(a, b)
    ensures multiset(a)[v] <= multiset(b)[v]
    decreases |b|
  {
    if a != [] {
      var b' := b[..|b| - 1];
      assert b == b' + [b[|b| - 1]];
      if a[|a| - 1] == b[|b| - 1] && IsSubseq(a[..|a| - 1], b') {
        SubseqCounts(a[..|a| - 1], b', v);
        assert a == a[..|a| - 1] + [a[|a| - 1]];
      } else {
        SubseqCounts(a, b', v);
      }
    }
  }

  lemma {:induction false} SubseqNonIncreasing(a: seq<int>, b: seq<int>, key: seq<real>)
    requires IsSubseq(a, b) && NonIncreasing(b, key)
    ensures NonIncreasing(a, key)
    decreases |b|
  {
    SubseqMembers(a, b);
    if a != [] {
      var b' := b[..|b| - 1];
      var a' := a[..|a| - 1];
      assert b == b' + [b[|b| - 1]];
      assert a == a' + [a[|a| - 1]];
      if a[|a| - 1] == b[|b| - 1] && IsSubseq(a', b') {
        SubseqNonIncreasing(a', b', key);
        SubseqMembers(a', b');
        forall p | 0 <= p < |a'|
          ensures key[a[p]] >= key[a[|a| - 1]]
        {
          assert a[p] == a'[p] && a'[p] in b';
          var i :| 0 <= i < |b'| && b'[i] == a'[p];
          assert b[i] == a[p];
        }
      } else {
        SubseqNonIncreasing(a, b', key);
      }
    }
  }

  // ---------------------------------------------------------------------
  // The greedy clique

  /** The partial clique stays pairwise adjacent: the invariant of the
      outer loop. */
  lemma {:induction false} GreedyIsClique(g: Graph, order: seq<int>)
    ensures IsClique(g, Greedy(g, order))
    decreases |order|
  {
    if order != [] {
      var c := Greedy(g, order[..|order| - 1]);
      var v := order[|order| - 1];
      GreedyIsClique(g, order[..|order| - 1]);
      if AdjacentToAll(g, v, c) {
        var c' := c + [v];
        forall p, q | 0 <= p < |c'| && 0 <= q < |c'| && p != q
          ensures Adjacent(g, c'[p], c'[q])
        {
          if p == |c| {
            assert c'[q] == c[q] && c[q] in c;
          } else if q == |c| {
            assert c'[p] == c[p] && c[p] in c;
            AdjacentSymmetric(g, v, c[p]);
          }
        }
      }
    }
  }

  /** The clique keeps the vertices it admits in the order they were walked. */
  lemma {:induction false} GreedySubseq(g: Graph, order: seq<int>)
    ensures IsSubseq(Greedy(g, order), order)
    decreases |order|
  {
    if order != [] {
      var c := Greedy(g, order[..|order| - 1]);
      GreedySubseq(g, order[..|order| - 1]);
      if AdjacentToAll(g, order[|order| - 1], c) {
        assert (c + [order[|order| - 1]])[..|c|] == c;
      }
    }
  }

  /** A walked vertex left out of the clique was rejected by a member that
      is still there. */
  lemma {:induction false} GreedyMaximal(g: Graph, order: seq<int>)
    ensures forall v :: v in order && v !in Greedy(g, order) ==>
              exists u :: u in Greedy(g, order) && !Adjacent(g, v, u)
    decreases |order|
  {
    if order != [] {
      var init := order[..|order| - 1];
      var c := Greedy(g, init);
      var last := order[|order| - 1];
      GreedyMaximal(g, init);
      assert order == init + [last];
      forall v | v in order && v !in Greedy(g, order)
        ensures exists u :: u in Greedy(g, order) && !Adjacent(g, v, u)
      {
        assert forall u :: u in c ==> u in Greedy(g, order);
        if v == last {
          assert !AdjacentToAll(g, v, c);
        } else {
          assert v in init;
        }
      }
    }
  }

  /** The first vertex walked is always admitted: the inner loop over an
      empty clique leaves the flag set. */
  lemma {:induction false} GreedyStartsWithFirst(g: Graph, order: seq<int>)
    requires order != []
    ensures Greedy(g, order) != [] && Greedy(g, order)[0] == order[0]
    decreases |order|
  {
    if |order| > 1 {
      GreedyStartsWithFirst(g, order[..|order| - 1]);
      assert order[..|order| - 1][0] == order[0];
    } else {
      assert order[..0] == [];
    }
  }

  /** When the greedy loop reaches position k, the candidate is not yet in
      the clique, so a vertex is never tested against itself. */
  lemma CandidateNotInClique(g: Graph, order: seq<int>, k: nat)
    requires NoDup(order) && k < |order|
    ensures order[k] !in Greedy(g, order[..k])
  {
    GreedySubseq(g, order[..k]);
    SubseqMembers(Greedy(g, order[..k]), order[..k]);
  }

  /** What holds of the greedy clique of a vertex order sorted by key. */
  lemma GreedyOrderProperties(g: Graph, key: seq<real>, order: seq<int>)
    requires IsVertexOrder(order, g.n) && NonIncreasing(order, key)
    ensures IsClique(g, Greedy(g, order))
    ensures NoDup(Greedy(g, order)) && InRange(Greedy(g, order), g.n) && |Greedy(g, order)| <= g.n
    ensures NonIncreasing(Greedy(g, order), key)
    ensures Maximal(g, Greedy(g, order), g.n)
    ensures g.n >= 1 ==> |Greedy(g, order)| >= 1
  {
    var c := Greedy(g, order);
    VertexOrderFacts(order, g.n);
    GreedyIsClique(g, order);
    GreedySubseq(g, order);
    SubseqMembers(c, order);
    forall k | 0 <= k < |c|
      ensures 0 <= c[k] < g.n
    {
      assert c[k] in order;
    }
    SubseqNoDup(c, order);
    SubseqNonIncreasing(c, order, key);
    GreedyMaximal(g, order);
    if g.n >= 1 {
      GreedyStartsWithFirst(g, order);
    }
  }

  /** What holds of the heuristic's clique for every order the sort may
      produce. */
  lemma GreedyCliqueProperties(g: Graph, key: seq<real>, c: seq<int>)
    requires IsGreedyClique(g, key, c)
    ensures IsClique(g, c)
    ensures NoDup(c) && InRange(c, g.n) && |c| <= g.n
    ensures NonIncreasing(c, key)
    ensures Maximal(g, c, g.n)
    ensures g.n >= 1 ==> |c| >= 1
  {
    var order :| IsVertexOrder(order, g.n) && NonIncreasing(order, key) && c == Greedy(g, order);
    GreedyOrderProperties(g, key, order);
  }

  // ---------------------------------------------------------------------
  // A worked instance: the 4-cycle 0-1-2-3-0 with x[0][0] = x[2][0] = 0.6
  // and x[1][0] = x[3][0] = 0.4.

  function FourCycle(): Graph {
    Graph(4, 4, [(0, 1), (1, 2), (2, 3), (3, 0)])
  }

  function FourCycleValues(): seq<real> {
    [0.6, 0.4, 0.6, 0.4]
  }

  /** The sort puts the two vertices of value 0.6 first, in either order,
      then the two of value 0.4, in either order. */
  lemma FourCycleOrders(order: seq<int>)
    requires IsVertexOrder(order, 4) && NonIncreasing(order, FourCycleValues())
    ensures |order| == 4 && order[0] != order[1] && order[2] != order[3]
    ensures (order[0] == 0 || order[0] == 2) && (order[1] == 0 || order[1] == 2)
    ensures (order[2] == 1 || order[2] == 3) && (order[3] == 1 || order[3] == 3)
  {
    var key := FourCycleValues();
    VertexOrderFacts(order, 4);
    assert 0 in order && 2 in order;
    var p0 :| 0 <= p0 < 4 && order[p0] == 0;
    var p2 :| 0 <= p2 < 4 && order[p2] == 2;
    var last := if p0 < p2 then p2 else p0;
    assert key[order[0]] >= key[order[last]] == 0.6 || last == 0;
    assert key[order[1]] >= key[order[last]] == 0.6 || last == 1;
  }

  lemma GreedyOnFourCycle(a: int, b: int, u: int, v: int)
    requires (a == 0 && b == 2) || (a == 2 && b == 0)
    requires (u == 1 && v == 3) || (u == 3 && v == 1)
    ensures Greedy(FourCycle(), [a, b, u, v]) == [a, u]
  {
    var g := FourCycle();
    var order := [a, b, u, v];
    assert order[..3] == [a, b, u] && [a, b, u][..2] == [a, b] && [a, b][..1] == [a] && [a][..0] == [];
    assert Greedy(g, [a]) == [a];
    assert !Adjacent(g, b, a);
    assert Greedy(g, [a, b]) == [a];
    assert Adjacent(g, u, a);
    assert Greedy(g, [a, b, u]) == [a, u];
    assert !Adjacent(g, v, u);
  }

  /** Whatever order the sort leaves the tied vertices in, the heuristic
      rejects the non-adjacent pair {0, 2} and returns an edge: one of 0, 2
      followed by one of 1, 3. */
  lemma FourCycleClique(c: seq<int>)
    requires IsGreedyClique(FourCycle(), FourCycleValues(), c)
    ensures |c| == 2 && (c[0] == 0 || c[0] == 2) && (c[1] == 1 || c[1] == 3)
    ensures Adjacent(FourCycle(), c[0], c[1])
  {
    var g := FourCycle();
    var order :| IsVertexOrder(order, g.n) && NonIncreasing(order, FourCycleValues()) && c == Greedy(g, order);
    FourCycleOrders(order);
    assert order == [order[0], order[1], order[2], order[3]];
    GreedyOnFourCycle(order[0], order[1], order[2], order[3]);
  }
}
