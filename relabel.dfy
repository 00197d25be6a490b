/**
 * Renaming the vertices of a graph does not change the size of its maximum
 * clique, so the size found by the search does not depend on the order in
 * which the vertices are numbered.
 */
module Relabeling {
  import opened Cliques
  import CliqueSearch

  /** p lists, for each new vertex number, the old vertex it names; every old vertex is named once. */
  ghost predicate IsPermutation(p: seq<int>, n: int) {
    && |p| == n
    && InRange(p, n)
    && NoDuplicates(p)
    && (forall y :: 0 <= y < n ==> y in p)
  }

  /** The graph with new vertex i standing for old vertex p[i]. */
  function Relabel(adj: Matrix, p: seq<int>): (r: Matrix)
    requires IsSquare(adj) && |p| == |adj| && InRange(p, |adj|)
    ensures |r| == |adj| && IsSquare(r)
    ensures IsAdjacencyMatrix(adj) ==> IsAdjacencyMatrix(r)
    ensures forall i, j :: 0 <= i < |r| && 0 <= j < |r| ==> r[i][j] == adj[p[i]][p[j]]
  {
    seq(|adj|, i requires 0 <= i < |adj| => seq(|adj|, j requires 0 <= j < |adj| => adj[p[i]][p[j]]))
  }

  function Image(k: set<int>, p: seq<int>): set<int>
    requires forall x :: x in k ==> 0 <= x < |p|
  {
    set x | x in k :: p[x]
  }

  /** An injective renaming keeps the number of vertices in a set. */
  lemma {:induction false} ImageCard(k: set<int>, p: seq<int>)
    requires forall x :: x in k ==> 0 <= x < |p|
    requires NoDuplicates(p)
    ensures |Image(k, p)| == |k|
    decreases |k|
  {
    if k != {} {
      assert (forall z :: z !in k) ==> k == {};
      var y :| y in k;
      var rest := k - {y};
      ImageCard(rest, p);
      assert Image(k, p) == Image(rest, p) + {p[y]};
      forall x | x in rest ensures p[x] != p[y] {
        assert x < y || y < x;
      }
      assert p[y] !in Image(rest, p);
    }
  }

  /** A clique of the renamed graph, renamed back, is a clique of the original of the same size. */
  lemma RenamedBack(adj: Matrix, p: seq<int>, k: set<int>)
    requires IsSquare(adj) && IsPermutation(p, |adj|)
    requires IsCliqueSet(Relabel(adj, p), k)
    ensures IsCliqueSet(adj, Image(k, p)) && |Image(k, p)| == |k|
  {
    var adj2 := Relabel(adj, p);
    ImageCard(k, p);
    forall a, b | a in Image(k, p) && b in Image(k, p) && a != b ensures adj[a][b] != 0 {
      var x :| x in k && p[x] == a;
      var y :| y in k && p[y] == b;
      assert adj2[x][y] != 0;
    }
  }

  /** A clique of the original, pulled through the renaming, is a clique of the renamed graph of the same size. */
  lemma PulledForth(adj: Matrix, p: seq<int>, k: set<int>) returns (pulled: set<int>)
    requires IsSquare(adj) && IsPermutation(p, |adj|)
    requires IsCliqueSet(adj, k)
    ensures IsCliqueSet(Relabel(adj, p), pulled) && |pulled| == |k|
  {
    var adj2 := Relabel(adj, p);
    pulled := set x | 0 <= x < |adj| && p[x] in k;
    ImageCard(pulled, p);
    assert Image(pulled, p) == k by {
      forall y | y in k ensures y in Image(pulled, p) {
        assert y in p;
        var x :| 0 <= x < |adj| && p[x] == y;
      }
    }
    forall a, b | a in pulled && b in pulled && a != b ensures adj2[a][b] != 0 {
      assert adj[p[a]][p[b]] != 0;
    }
  }

  /** Renaming the vertices of a graph leaves the size of its maximum cliques unchanged. */
  lemma RelabelPreservesMaximumSize(adj: Matrix, p: seq<int>, vs: seq<int>, ws: seq<int>)
    requires IsSquare(adj) && IsPermutation(p, |adj|)
    requires IsMaximumClique(adj, vs)
    requires IsMaximumClique(Relabel(adj, p), ws)
    ensures |vs| == |ws|
  {
    SortedCliqueElems(Relabel(adj, p), ws);
    RenamedBack(adj, p, Elems(ws));
    SortedCliqueElems(adj, vs);
    var pulled := PulledForth(adj, p, Elems(vs));
  }

  /** Searching a graph and searching it with its vertices renamed find cliques of the same size. */
  method SearchRelabeled(adj: Matrix, p: seq<int>) returns (original: seq<int>, renamed: seq<int>)
    requires IsAdjacencyMatrix(adj) && IsPermutation(p, |adj|)
    ensures |original| == |renamed|
  {
    original := CliqueSearch.FindMaxClique(adj);
    renamed := CliqueSearch.FindMaxClique(Relabel(adj, p));
    RelabelPreservesMaximumSize(adj, p, original, renamed);
  }
}
