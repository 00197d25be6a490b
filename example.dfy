/**
 * The five-vertex graph the application loads as its example: vertices 0..3
 * are pairwise adjacent, and vertex 4 is adjacent only to 0 and 1.
 */
module ExampleGraph {
  import opened Cliques
  import CliqueSearch

  function Example(): Matrix {
    [ [0, 1, 1, 1, 1],
      [1, 0, 1, 1, 1],
      [1, 1, 0, 1, 0],
      [1, 1, 1, 0, 0],
      [1, 1, 0, 0, 0] ]
  }

  /** The example satisfies what the search asks of its input. */
  lemma ExampleIsAdjacencyMatrix()
    ensures IsAdjacencyMatrix(Example())
  {
  }

  /** {0, 1, 2, 3} is a clique, and vertex 4 cannot join it: it has no edge to 2 or to 3. */
  lemma ExampleVertex4CannotExtend()
    ensures IsCliqueSet(Example(), {0, 1, 2, 3})
    ensures Example()[4][2] == 0 && Example()[4][3] == 0
    ensures !IsCliqueSet(Example(), {0, 1, 2, 3, 4})
  {
  }

  /** Every clique of the example has at most four vertices, and the only one with four is {0, 1, 2, 3}. */
  lemma ExampleCliqueSets(s: set<int>)
    requires IsCliqueSet(Example(), s)
    ensures |s| <= 4
    ensures |s| == 4 ==> s == {0, 1, 2, 3}
  {
    var adj := Example();
    assert forall x :: x in s ==> 0 <= x < |adj| == 5;
    if 4 in s {
      assert 2 !in s by { assert adj[2][4] == 0; }
      assert 3 !in s by { assert adj[3][4] == 0; }
      assert s <= {0, 1, 4};
      SubsetCard(s, {0, 1, 4});
    } else {
      assert s <= {0, 1, 2, 3};
      SubsetCard(s, {0, 1, 2, 3});
    }
  }

  /** The example's maximum clique is [0, 1, 2, 3], whatever search produced it. */
  lemma ExampleMaximum(vs: seq<int>)
    requires IsMaximumClique(Example(), vs)
    ensures vs == [0, 1, 2, 3]
  {
    var adj := Example();
    ExampleVertex4CannotExtend();
    SortedCliqueElems(adj, vs);
    ExampleCliqueSets(Elems(vs));
    assert |vs| == 4;
    forall i | 0 <= i < 4 ensures vs[i] == i {
      IncreasingSpread(vs, 0, i);
      IncreasingSpread(vs, i, 3);
      assert vs[0] in Elems(vs) && vs[3] in Elems(vs);
    }
  }

  /** Loading the example and searching it yields the clique [0, 1, 2, 3]. */
  method ExampleSearch() returns (maxClique: seq<int>)
    ensures maxClique == [0, 1, 2, 3]
  {
    ExampleIsAdjacencyMatrix();
    maxClique := CliqueSearch.FindMaxClique(Example());
    ExampleMaximum(maxClique);
  }
}
