# Maximum clique search, modelled in Dafny

This project models the search engine of the Maximum Clique Finder: the
function `find_max_clique`, which takes an n×n 0/1 adjacency matrix of an
undirected graph and returns the vertex indices of a clique of maximum size.
The search is exact branch-and-bound backtracking. It keeps a list of
candidate vertices (initially `0..n-1` in ascending order) and a current
partial clique. Each step takes the first candidate `v` and explores two
branches. The include branch adds `v` to the clique and keeps only the later
candidates adjacent to `v`. The exclude branch drops `v`. A branch stops when
the current clique plus all its candidates cannot outnumber the best clique
found so far. The best clique is replaced only at a leaf, and only by a
strictly larger one.

Files:

- `cliques.dfy` (module `Cliques`): adjacency matrices, the `is_clique`
  predicate, cliques as sets of vertices, what a maximum clique is, and the
  properties every maximum clique has (size bounds, the edgeless and complete
  graphs, equal size of any two maximum cliques, maximality over lists).
- `search.dfy` (module `CliqueSearch`): the engine. `CheckClique` is the
  nested `is_clique` loop. `AdjacentCandidates` is the loop that builds the
  include branch's candidates. The class `Search` holds the incumbent
  `maxClique` that every recursive call shares and overwrites, as the
  source's `nonlocal max_clique` does. `Search.Backtrack` is `backtrack`.
  `FindMaxClique` is `find_max_clique`.
- `example.dfy` (module `ExampleGraph`): the five-vertex example graph the
  application loads, and proofs that its unique maximum clique is `[0, 1, 2, 3]`.
- `relabel.dfy` (module `Relabeling`): renaming the vertices of a graph does
  not change the size of its maximum clique.

The caller must supply a square, symmetric matrix of 0s and 1s
(`Cliques.IsAdjacencyMatrix`). The application's input grid also gives the
graph a zero diagonal: it disables the diagonal entries and sets them to 0
(main.py:161-164), while the docstring of `find_max_clique` asks only for a
2D list of 0s and 1s (main.py:12). The code never reads a diagonal entry in a way that matters:
`is_clique` skips `i == j`, and the filter only compares a vertex with later
ones. So the model does not require a zero diagonal, and every result holds
without it. Symmetry and 0/1 entries are needed. `is_clique` tests `== 0`
while the filter tests `== 1`, and the filter only looks at `adj[v][u]` for
`u` after `v`.

A clique is measured as a set of vertices (`Cliques.IsCliqueSet`).
`is_clique` never compares two equal entries with each other (`i != j`), so a
list that repeats a vertex can pass it while being longer than the set of
vertices it names. Maximality over lists is therefore stated for
duplicate-free lists (`Cliques.MaximumOverLists`).

## Model

| member | source | states |
|---|---|---|
| `CliqueSearch.CheckClique` | main.py:26-32 | returns true exactly when every two distinct listed vertices are adjacent (`IsClique`), with the nested loop and early return of `is_clique` |
| `CliqueSearch.AdjacentCandidates` | main.py:48-54 | a vertex is in the new candidate list exactly when it is among the remaining candidates and adjacent to `v`; the list is no longer than the remaining candidates; ascending order is kept |
| `CliqueSearch.Search.constructor` | main.py:23-24 | the search starts with an empty incumbent over a well-formed matrix |
| `CliqueSearch.Search.Backtrack` | main.py:34-60 | given a sorted clique and ascending candidates that all follow and are adjacent to every clique member: the incumbent stays a sorted clique, changes only to a strictly longer list, which is `currentClique` followed by vertices drawn from the candidates (the leaf copy of main.py:39-41), and afterwards no clique drawn from the candidates, joined to the current clique, outnumbers it; terminates because the candidate list shrinks on every call |
| `CliqueSearch.Search.IncludeKeepsShape` | main.py:48-57 | the include branch's clique `current + [v]` is again a sorted clique, and its filtered candidates again follow and are adjacent to every member |
| `CliqueSearch.FindMaxClique` | main.py:7-65 | the empty list for an empty graph; otherwise a strictly increasing list of vertices in `0..n-1` that is a clique and that no clique of the graph outnumbers; its length is at most n and at least 1 when n > 0 |
| `Cliques.IncreasingLength` | main.py:63 | a strictly increasing list of vertices of an n-vertex graph, as the search builds from `range(n)`, has at most n entries |
| `Cliques.SortedCliqueElems` | main.py:26-32 | the vertices of a sorted list accepted by `is_clique` form a clique set of the same size |
| `Cliques.MaximumBounds` | main.py:17-21 | a maximum clique has at most n vertices, and at least one when the graph has a vertex |
| `Cliques.MaximumOverLists` | main.py:26-32 | no duplicate-free list accepted by `is_clique` is longer than a maximum clique |
| `Cliques.MaximumSizeUnique` | main.py:7-65 | any two maximum cliques of one graph have the same size, so repeated searches agree on the size |
| `Cliques.EdgelessMaximum` | main.py:39-41 | in a graph with n > 0 vertices and no edges, a maximum clique has exactly one vertex |
| `Cliques.CompleteMaximum` | main.py:48-57 | in a complete graph, a maximum clique lists every vertex |
| `Relabeling.RenamedBack` | main.py:7-65 | a clique of the renamed graph, renamed back, is a clique of the original graph of the same size |
| `Relabeling.PulledForth` | main.py:7-65 | a clique of the original graph, pulled through the renaming, is a clique of the renamed graph of the same size |
| `Relabeling.RelabelPreservesMaximumSize` | main.py:7-65 | renaming the vertices by a permutation leaves the size of the maximum clique unchanged |
| `Relabeling.Relabel` | main.py:7-65 | the renamed graph has as many vertices, links new vertices i and j exactly when the old graph links p[i] and p[j], and is again a square, symmetric 0/1 matrix, so the search may be run on it |
| `Relabeling.SearchRelabeled` | main.py:7-65 | running the search on a graph and on the same graph with its vertices renamed by a permutation yields cliques of the same size |
| `ExampleGraph.ExampleIsAdjacencyMatrix` | main.py:265-271 | the example matrix is square, symmetric and has 0/1 entries |
| `ExampleGraph.ExampleVertex4CannotExtend` | main.py:265-271 | {0, 1, 2, 3} is a clique; vertex 4 has no edge to 2 or 3, so {0, 1, 2, 3, 4} is not a clique |
| `ExampleGraph.ExampleCliqueSets` | main.py:265-271 | every clique of the example has at most four vertices, and the only four-vertex clique is {0, 1, 2, 3} |
| `ExampleGraph.ExampleMaximum` | main.py:265-271 | any maximum clique of the example, as a sorted list, is `[0, 1, 2, 3]` |
| `ExampleGraph.ExampleSearch` | main.py:265-271 | searching the example graph returns `[0, 1, 2, 3]` |

## Left out

- The Tkinter application `MaxCliqueApp` (main.py:68-281): window layout, the matrix widgets, the 15-vertex cap of `create_matrix`, `update_symmetric`, `clear_matrix` and the widget filling of `load_example`. This is user-interface code with no state the search depends on; the example matrix itself is modelled.
- `get_matrix` (main.py:180-197): it reads text from widgets and reports bad entries in a message box. Its 0/1 check becomes part of the search's precondition `IsAdjacencyMatrix`.
- `visualize_graph` (main.py:215-255): graph drawing through networkx and matplotlib, a foreign library with floating-point layout.
- The `__main__` event loop (main.py:284-287).
- Which maximum clique is returned when several exist: this depends on the search order and nothing promises it, so only validity, sortedness and size are stated. For the example graph the maximum clique is unique, and there the exact result is proved.
- Malformed input (a ragged or asymmetric matrix, entries other than 0 and 1, Python's negative indices): the search leaves these to the caller, and the model requires them away.
- Running time: the search is exponential in n in the worst case. The model proves termination only, by the shrinking candidate list.
- CliqueSearch.AdjacentCandidates: order is stated only for ascending input, which is the only kind the search passes it. For other input the contract gives membership and a length bound, not the order.

