# Clique-cut separation for graph colouring, in Dafny

This project models the cutting-plane part of an integer-programming
graph-colouring solver. The program minimises the number of colours with
0/1 variables `x[i][j]` (vertex `i` has colour `j`) and `w[j]` (colour `j` is
used). While the MIP engine explores its search tree, a user-cut callback
(`UserCutCallback`) runs. For every colour `j` it does three things:

- it sorts the vertices by their current relaxation value `x[v][j]`, highest first;
- it grows a clique greedily in that order, keeping a vertex only when it is
  adjacent to every vertex already kept;
- it posts the clique cut `Σ_{i ∈ clique} x[i][j] − w[j] <= 0` and increments
  its counter `numCortes`.

The model has five modules:

- `Graphs` (graph.dfy): the graph record, adjacency as the code tests it, and
  `std::find` as a linear scan.
- `Formulation` (formulation.dfy): constraints (2)-(5) of the integer program
  as predicates over 0/1 matrices. It also proves what they imply for one
  vertex and one edge.
- `Clique` (clique.dfy): the greedy heuristic as a specification function
  `Greedy(g, order)`. Its properties are proved for every order the sort may
  produce, plus a worked 4-cycle instance.
- `Cuts` (cuts.dfy): cuts as linear inequalities over `x` and `w`, their value
  at a point, and their soundness.
- `Separation` (separation.dfy): the imperative code. This is the in-place
  sort, the inner adjacency loop, the outer greedy loop and the expression
  build. It also holds the class `CutCallback` with the counter, the list of
  posted cuts and the methods `FindCliqueHeuristic` and `SeparateCuts`.

The relaxation values that the callback reads through `getValue` come in as
one snapshot `vals[vertex][colour]` of reals, and the code only compares
them. The engine's `add(...)` is modelled as appending a `Cut` record to the
field `added`.

Points where the code's behaviour is easy to misread:

- The code posts a cut for every non-empty clique (`Trabalho_3.cpp:64`),
  one-vertex cliques included. It does not require two or more members.
- The code sorts with `std::sort` and the comparator `value(a) > value(b)`.
  That sort is not stable and has no tie-break by vertex index. So the
  contracts hold for every non-increasing permutation. The insertion sort in
  the model happens to keep ties in index order, but nothing relies on that.
- The file reader checks neither the header's edge count nor the vertex
  indices, so it never reports a parse error. Every edge having its
  endpoints in `[0, n)` is taken as a precondition (`WellFormed`).
- The counter is a plain per-instance `int`. It is not a shared atomic.

## Model

| member | source | states |
|---|---|---|
| `Graphs.AdjacentSymmetric` | Trabalhos/Trabalho-3/Trabalho_3.cpp:100-108 | adjacency tests both orientations of the pair, so it is symmetric in `u` and `v` |
| `Graphs.Find` | Trabalhos/Trabalho-3/Trabalho_3.cpp:102-103 | `std::find` returns the index of the first occurrence of the pair, or the end position exactly when the pair is not listed |
| `Formulation.ExactlyOneColour` | Trabalhos/Trabalho-3/Trabalho_3.cpp:145-154 | under constraints (2)-(5) with 0/1 variables, every vertex has exactly one colour `j` with `x[i][j] = 1` |
| `Formulation.EdgeEndsDiffer` | Trabalhos/Trabalho-3/Trabalho_3.cpp:156-165 | under the constraints, the two ends of a listed edge never share a colour |
| `Formulation.EdgelessGraphNeedsNoColour` | Trabalhos/Trabalho-3/Trabalho_3.cpp:137-182 | as written, one vertex with no edge, `x = [[1]]`, `w = [0]`, meets (2)-(5) and has objective 0 |
| `Formulation.LinkedObjectiveAtLeastOne` | Trabalhos/Trabalho-3/Trabalho_3.cpp:137-182 | with the added linking constraint `x[i][j] <= w[j]`, any feasible point of a graph with a vertex has objective at least 1 |
| `Formulation.EdgelessGraphOneColour` | Trabalhos/Trabalho-3/Trabalho_3.cpp:137-182 | with the linking constraint, an edgeless graph with `n >= 1` vertices has a feasible point of objective exactly 1 (every vertex takes colour 0), so its optimum is 1 |
| `Clique.VertexOrderFacts` | Trabalhos/Trabalho-3/Trabalho_3.cpp:91-95 | a permutation of the `iota` list has length `n`, no duplicates, entries in `[0, n)`, and contains every vertex |
| `Clique.GreedyIsClique` | Trabalhos/Trabalho-3/Trabalho_3.cpp:97-113 | the clique built from any order is pairwise adjacent; this is the outer loop's invariant |
| `Clique.GreedySubseq` | Trabalhos/Trabalho-3/Trabalho_3.cpp:97-113 | the clique is a subsequence of the order walked |
| `Clique.SubseqMembers` | Trabalhos/Trabalho-3/Trabalho_3.cpp:97-113 | a subsequence holds only elements of the sequence and is no longer than it |
| `Clique.SubseqNoDup` | Trabalhos/Trabalho-3/Trabalho_3.cpp:97-113 | a subsequence of a duplicate-free sequence is duplicate-free |
| `Clique.SubseqNonIncreasing` | Trabalhos/Trabalho-3/Trabalho_3.cpp:94-113 | a subsequence of a list sorted by non-increasing value is itself sorted that way |
| `Clique.GreedyMaximal` | Trabalhos/Trabalho-3/Trabalho_3.cpp:99-112 | every walked vertex left out is non-adjacent to some member of the final clique; the member that rejected it is never removed |
| `Clique.GreedyStartsWithFirst` | Trabalhos/Trabalho-3/Trabalho_3.cpp:97-112 | the first vertex walked is always admitted, so a non-empty order gives a non-empty clique |
| `Clique.CandidateNotInClique` | Trabalhos/Trabalho-3/Trabalho_3.cpp:97-108 | when the order has no duplicates, the candidate is not in the clique built so far, so a vertex is never tested against itself |
| `Clique.GreedyOrderProperties` | Trabalhos/Trabalho-3/Trabalho_3.cpp:88-116 | for a vertex order sorted by value, the greedy clique is a clique, has no duplicates, lies in `[0, n)`, has at most `n` members, is sorted by value, is maximal and is non-empty when `n >= 1` |
| `Clique.GreedyCliqueProperties` | Trabalhos/Trabalho-3/Trabalho_3.cpp:88-116 | the same facts hold for every clique the heuristic can return under any order the unstable sort may produce |
| `Clique.FourCycleOrders` | Trabalhos/Trabalho-3/Trabalho_3.cpp:91-95 | on the 4-cycle with values 0.6, 0.4, 0.6, 0.4, the sort puts vertices 0 and 2 first, in either order |
| `Clique.FourCycleClique` | Trabalhos/Trabalho-3/Trabalho_3.cpp:88-116 | on that instance every possible result is an edge: one of 0, 2, then one of 1, 3; the non-adjacent pair {0, 2} is never returned |
| `Cuts.CliqueCutValue` | Trabalhos/Trabalho-3/Trabalho_3.cpp:66-72 | the posted left-hand side evaluates to the sum of `x[i][j]` over the clique minus `w[j]` |
| `Cuts.PairwiseBoundedSum` | Trabalhos/Trabalho-3/Trabalho_3.cpp:157-165 | if every two of two or more 0/1 values sum to at most `b` (0 or 1), all of them sum to at most `b` |
| `Cuts.CliqueCutSound` | Trabalhos/Trabalho-3/Trabalho_3.cpp:157-165 | a clique cut with two or more members is satisfied by every 0/1 point that meets the conflict constraints (3) |
| `Cuts.CliqueCutSoundLinked` | Trabalhos/Trabalho-3/Trabalho_3.cpp:64-72 | with the linking constraint, every clique cut is satisfied by such points, one-vertex cliques included |
| `Cuts.SingletonCutExcludesFeasiblePoint` | Trabalhos/Trabalho-3/Trabalho_3.cpp:64-72 | as written, the cut of a one-vertex clique removes a point that meets (2)-(5) |
| `Separation.SortByValue` | Trabalhos/Trabalho-3/Trabalho_3.cpp:94-95 | the sort leaves a permutation of the vertex list, sorted by non-increasing value |
| `Separation.InsertLast` | Trabalhos/Trabalho-3/Trabalho_3.cpp:94-95 | one sorting step extends the sorted prefix by one entry and keeps the multiset of entries |
| `Separation.CanJoin` | Trabalhos/Trabalho-3/Trabalho_3.cpp:99-108 | the inner loop with its early `break` sets the flag exactly when the candidate is adjacent to every member |
| `Separation.GreedyWalk` | Trabalhos/Trabalho-3/Trabalho_3.cpp:97-113 | the outer loop's `push_back`s build exactly the greedy clique of the order |
| `Separation.CliqueCutOf` | Trabalhos/Trabalho-3/Trabalho_3.cpp:66-72 | the expression built is +1 on `x[i][j]` for each member in order and −1 on `w[j]`, with sense `<=` and right-hand side 0 |
| `Separation.CutCallback.constructor` | Trabalhos/Trabalho-3/Trabalho_3.cpp:51-52 | a new callback has counter 0 and has posted no cut |
| `Separation.CutCallback.GetNumCuts` | Trabalhos/Trabalho-3/Trabalho_3.cpp:83-86 | the counter equals the number of cuts this instance has posted |
| `Separation.CutCallback.FindCliqueHeuristic` | Trabalhos/Trabalho-3/Trabalho_3.cpp:88-116 | the result is the greedy clique of a value-sorted vertex order; it is a clique, is maximal, has no duplicates, is sorted by value and has between 1 and `n` members |
| `Separation.CutCallback.SeparateCuts` | Trabalhos/Trabalho-3/Trabalho_3.cpp:59-76 | one call appends exactly `n` cuts, the `j`-th being the clique cut of a greedy clique for colour `j`; the earlier cuts are unchanged and the counter grows by `n` |
| `Separation.EmittedCutSound` | Trabalhos/Trabalho-3/Trabalho_3.cpp:59-76 | every cut posted for a clique of two or more vertices is satisfied by every 0/1 point meeting the conflict constraints |
| `Separation.EmittedCutSoundLinked` | Trabalhos/Trabalho-3/Trabalho_3.cpp:59-76 | every posted cut is satisfied by every 0/1 point that meets the conflict and linking constraints |
| `Separation.IsolatedVertexClique` | Trabalhos/Trabalho-3/Trabalho_3.cpp:88-116 | on one vertex with no edge, the heuristic returns `[0]` whatever the value |
| `Separation.IsolatedVertexCutPosted` | Trabalhos/Trabalho-3/Trabalho_3.cpp:59-76 | on one vertex with no edge, the callback posts `x[0][0] − w[0] <= 0` for colour 0 |
| `Separation.IsolatedVertexCutUnique` | Trabalhos/Trabalho-3/Trabalho_3.cpp:59-76 | on that graph this is the only cut the callback can post for colour 0 |
| `Separation.IsolatedVertexCutIsInvalid` | Trabalhos/Trabalho-3/Trabalho_3.cpp:64-72 | the cut the callback posts on that graph is violated by `x = [[1]]`, `w = [0]`, which meets (2)-(5) |

## Left out

- CPLEX itself is not modelled. That covers the environment, the model and
  the variables, `model.add`, `solve`, the parameter settings at lines
  184-199, the objective value, `getValue`, and `add(...).end()`. These are
  calls into a foreign library. The relaxation values are a parameter, and
  `add` is an append to `added`.
- Floating point is not modelled. The values are reals, and the code only
  compares them with `>`, so NaN and rounding do not matter here.
- `ler_base_dados` (file reading, lines 19-40) is not modelled. It is I/O.
  The graph arrives as a value, and the endpoint ranges it never checks are
  taken as a precondition. The declared edge count `m` is stored and never
  used.
- `duplicateCallback` (lines 54-57) and running on several threads (line 189)
  are not modelled. A clone copies `numCortes`, and the clones' counters are
  not combined. The model covers one instance's counter.
- `main`, the user prompt, timing and console output (lines 201-241) are not
  modelled. They are I/O.
- Separation.CutCallback.SeparateCuts: does not say which of the tied orders
  the sort picks, because `std::sort` promises none. The postcondition holds
  for some value-sorted order, and the clique lemmas hold for all of them.
- The facility-location program (Trabalho-1) is not part of this model. It is
  built entirely through the solver from a table of doubles.
- The plain colouring program (Trabalho-2) is not part of this model. Its
  constraints are the same as those modelled here.
- Separation.EmittedCutSound: needs two or more clique members, because the
  cut of a one-vertex clique is not implied by (2)-(5) (see Findings).
- Separation.CutCallback.SeparateCuts: `numCuts` is an unbounded integer.
  `numCortes` is a C++ `int` (lines 48 and 73), so overflow after 2^31 − 1
  increments, which is undefined behaviour in C++, is not modelled.

## Findings

| source | as written | input that shows it | evidently intended | confidence | as-written member | corrected member |
|---|---|---|---|---|---|---|
| Trabalhos/Trabalho-3/Trabalho_3.cpp:156-182 | `w[j]` is pushed up only by the conflict constraints (3), which involve only vertices that have an edge; a vertex without edges may take a colour `j` with `w[j] = 0` | one vertex, no edge: `x = [[1]]`, `w = [0]` meets (2)-(5) with objective 0, so an edgeless graph gets chromatic number 0 | a colour given to any vertex counts as used (`x[i][j] <= w[j]`), and an edgeless graph with at least one vertex needs exactly one colour (at least one by `LinkedObjectiveAtLeastOne`, attained by `Formulation.EdgelessGraphOneColour`) | high; not executed | `Formulation.EdgelessGraphNeedsNoColour` | `Formulation.LinkedObjectiveAtLeastOne` |
| Trabalhos/Trabalho-3/Trabalho_3.cpp:64-72 | a one-vertex clique passes the non-empty test, and its cut `x[v][j] − w[j] <= 0` is posted as a user cut although (2)-(5) do not imply it | the same instance, whatever the relaxation value: the callback posts the cut for vertex 0 and colour 0, and the feasible point `x = [[1]]`, `w = [0]` violates it | every posted cut is valid for the model: either post only cliques of two or more vertices, or add the linking constraint to the model | medium; not executed | `Separation.IsolatedVertexCutIsInvalid` | `Cuts.CliqueCutSoundLinked` |
