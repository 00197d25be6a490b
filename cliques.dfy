/**
 * Undirected graphs given as 0/1 adjacency matrices, their cliques, and what
 * it means for a list of vertices to be a maximum clique.
 */
module Cliques {

  /** Row i, column j holds 1 when vertices i and j share an edge, 0 otherwise. */
  type Matrix = seq<seq<int>>

  predicate IsSquare(adj: Matrix) {
    forall i :: 0 <= i < |adj| ==> |adj[i]| == |adj|
  }

  /** What every caller of the search supplies: a square, symmetric matrix of 0s and 1s. */
  predicate IsAdjacencyMatrix(adj: Matrix) {
    && IsSquare(adj)
    && (forall i, j :: 0 <= i < |adj| && 0 <= j < |adj| ==> adj[i][j] == 0 || adj[i][j] == 1)
    && (forall i, j :: 0 <= i < |adj| && 0 <= j < |adj| ==> adj[i][j] == adj[j][i])
  }

  predicate InRange(vs: seq<int>, n: int) {
    forall k :: 0 <= k < |vs| ==> 0 <= vs[k] < n
  }

  predicate StrictlyIncreasing(vs: seq<int>) {
    forall i, j :: 0 <= i < j < |vs| ==> vs[i] < vs[j]
  }

  predicate NoDuplicates(vs: seq<int>) {
    forall i, j :: 0 <= i < j < |vs| ==> vs[i] != vs[j]
  }

  function Elems(vs: seq<int>): set<int> {
    set x | x in vs
  }

  /** The nested is_clique check: every two distinct listed vertices are adjacent. */
  predicate IsClique(adj: Matrix, vs: seq<int>)
    requires IsSquare(adj) && InRange(vs, |adj|)
  {
    forall i, j :: 0 <= i < |vs| && 0 <= j < |vs| && vs[i] != vs[j] ==> adj[vs[i]][vs[j]] != 0
  }

  /** A clique as a set of vertices: the yardstick maximality is measured with. */
  ghost predicate IsCliqueSet(adj: Matrix, k: set<int>)
    requires IsSquare(adj)
  {
    && (forall x :: x in k ==> 0 <= x < |adj|)
    && (forall x, y :: x in k && y in k && x != y ==> adj[x][y] != 0)
  }

  /** The shape of every list the search builds: sorted vertex indices forming a clique. */
  predicate IsSortedClique(adj: Matrix, vs: seq<int>)
    requires IsSquare(adj)
  {
    InRange(vs, |adj|) && StrictlyIncreasing(vs) && IsClique(adj, vs)
  }

  /** A sorted clique that no clique of the graph outnumbers. */
  ghost predicate IsMaximumClique(adj: Matrix, vs: seq<int>)
    requires IsSquare(adj)
  {
    IsSortedClique(adj, vs) && forall k :: IsCliqueSet(adj, k) ==> |k| <= |vs|
  }

  // ---------------------------------------------------------------------------
  // Sets and sequences of vertices

  lemma SubsetCard(a: set<int>, b: set<int>)
    requires a <= b
    ensures |a| <= |b|
    ensures |a| == |b| ==> a == b
  {
    assert b == a + (b - a);
  }

  /** A list has at most as many distinct vertices as entries, exactly as many when none repeats. */
  lemma {:induction false} ElemsCard(vs: seq<int>)
    ensures |Elems(vs)| <= |vs|
    ensures NoDuplicates(vs) ==> |Elems(vs)| == |vs|
  {
    if vs != [] {
      ElemsCard(vs[1..]);
      assert Elems(vs) == {vs[0]} + Elems(vs[1..]);
      if NoDuplicates(vs) {
        assert NoDuplicates(vs[1..]);
        assert vs[0] !in Elems(vs[1..]);
      }
    }
  }

  /** Entries of a strictly increasing list of integers are at least as far apart as their positions. */
  lemma {:induction false} IncreasingSpread(vs: seq<int>, i: int, j: int)
    requires StrictlyIncreasing(vs)
    requires 0 <= i <= j < |vs|
    ensures vs[j] - vs[i] >= j - i
    decreases j - i
  {
    if i < j {
      IncreasingSpread(vs, i + 1, j);
    }
  }

  /** A strictly increasing list of vertices of an n-vertex graph has at most n entries. */
  lemma IncreasingLength(vs: seq<int>, n: nat)
    requires StrictlyIncreasing(vs) && InRange(vs, n)
    ensures |vs| <= n
  {
    if vs != [] {
      IncreasingSpread(vs, 0, |vs| - 1);
      assert 0 <= vs[0] && vs[|vs| - 1] < n;
    }
  }

  /** The vertices of a sorted clique form a clique set of the same size. */
  lemma SortedCliqueElems(adj: Matrix, vs: seq<int>)
    requires IsSquare(adj) && IsSortedClique(adj, vs)
    ensures IsCliqueSet(adj, Elems(vs))
    ensures |Elems(vs)| == |vs|
  {
    ElemsCard(vs);
    forall x, y | x in Elems(vs) && y in Elems(vs) && x != y
      ensures adj[x][y] != 0
    {
      var i :| 0 <= i < |vs| && vs[i] == x;
      var j :| 0 <= j < |vs| && vs[j] == y;
    }
  }

  // ---------------------------------------------------------------------------
  // What a maximum clique is known to satisfy

  /** At most n vertices, and at least one as soon as the graph has a vertex. */
  lemma MaximumBounds(adj: Matrix, vs: seq<int>)
    requires IsSquare(adj) && IsMaximumClique(adj, vs)
    ensures |vs| <= |adj|
    ensures |adj| > 0 ==> |vs| >= 1
  {
    IncreasingLength(vs, |adj|);
    if |adj| > 0 {
      assert IsCliqueSet(adj, {0});
    }
  }

  /** No duplicate-free list accepted by is_clique is longer than a maximum clique. */
  lemma MaximumOverLists(adj: Matrix, vs: seq<int>, ws: seq<int>)
    requires IsSquare(adj) && IsMaximumClique(adj, vs)
    requires InRange(ws, |adj|) && NoDuplicates(ws) && IsClique(adj, ws)
    ensures |ws| <= |vs|
  {
    ElemsCard(ws);
    forall x, y | x in Elems(ws) && y in Elems(ws) && x != y
      ensures adj[x][y] != 0
    {
      var i :| 0 <= i < |ws| && ws[i] == x;
      var j :| 0 <= j < |ws| && ws[j] == y;
    }
    assert IsCliqueSet(adj, Elems(ws));
  }

  /** Two maximum cliques of one graph have the same size, so repeated searches agree on it. */
  lemma MaximumSizeUnique(adj: Matrix, vs: seq<int>, ws: seq<int>)
    requires IsSquare(adj) && IsMaximumClique(adj, vs) && IsMaximumClique(adj, ws)
    ensures |vs| == |ws|
  {
    SortedCliqueElems(adj, vs);
    SortedCliqueElems(adj, ws);
  }

  /** In a graph without edges every maximum clique is a single vertex. */
  lemma EdgelessMaximum(adj: Matrix, vs: seq<int>)
    requires IsSquare(adj) && |adj| > 0
    requires forall i, j :: 0 <= i < |adj| && 0 <= j < |adj| ==> adj[i][j] == 0
    requires IsMaximumClique(adj, vs)
    ensures |vs| == 1
  {
    MaximumBounds(adj, vs);
    SortedCliqueElems(adj, vs);
    assert Elems(vs) == {vs[0]};
  }

  /** In a complete graph every maximum clique lists every vertex. */
  lemma CompleteMaximum(adj: Matrix, vs: seq<int>)
    requires IsSquare(adj)
    requires forall i, j :: 0 <= i < |adj| && 0 <= j < |adj| && i != j ==> adj[i][j] == 1
    requires IsMaximumClique(adj, vs)
    ensures |vs| == |adj|
    ensures forall x :: x in vs <==> 0 <= x < |adj|
  {
    var all := seq(|adj|, i => i);
    ElemsCard(all);
    assert IsCliqueSet(adj, Elems(all));
    MaximumBounds(adj, vs);
    SortedCliqueElems(adj, vs);
    forall x | x in Elems(vs) ensures x in Elems(all) {
      assert all[x] == x;
    }
    SubsetCard(Elems(vs), Elems(all));
    forall x | 0 <= x < |adj| ensures x in vs {
      assert all[x] == x;
      assert x in Elems(all);
    }
  }
}
