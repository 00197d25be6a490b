/**
 * The exact branch-and-bound search for a maximum clique: find_max_clique
 * with its nested is_clique check and its recursive backtrack.
 */
module CliqueSearch {
  import opened Cliques

  /** is_clique, run as its nested loop with an early return on the first missing edge. */
  method CheckClique(adj: Matrix, vertices: seq<int>) returns (b: bool)
    requires IsSquare(adj) && InRange(vertices, |adj|)
    ensures b <==> IsClique(adj, vertices)
  {
    var p := 0;
    while p < |vertices|
      invariant 0 <= p <= |vertices|
      invariant forall a, c :: 0 <= a < p && 0 <= c < |vertices| && vertices[a] != vertices[c] ==>
                  adj[vertices[a]][vertices[c]] != 0
    {
      var i := vertices[p];
      var q := 0;
      while q < |vertices|
        invariant 0 <= q <= |vertices|
        invariant forall c :: 0 <= c < q && i != vertices[c] ==> adj[i][vertices[c]] != 0
      {
        var j := vertices[q];
        if i != j && adj[i][j] == 0 {
          return false;
        }
        q := q + 1;
      }
      p := p + 1;
    }
    return true;
  }

  /**
   * The candidates of the include branch: those of rest (the candidates after v)
   * that are adjacent to v, kept in their original order.
   */
  method AdjacentCandidates(adj: Matrix, v: int, rest: seq<int>) returns (newCandidates: seq<int>)
    requires IsSquare(adj) && 0 <= v < |adj| && InRange(rest, |adj|)
    ensures forall u :: u in newCandidates <==> u in rest && adj[v][u] == 1
    ensures |newCandidates| <= |rest|
    ensures StrictlyIncreasing(rest) ==> StrictlyIncreasing(newCandidates)
  {
    newCandidates := [];
    var k := 0;
    while k < |rest|
      invariant 0 <= k <= |rest|
      invariant forall u :: u in newCandidates <==> u in rest[..k] && adj[v][u] == 1
      invariant |newCandidates| <= k
      invariant StrictlyIncreasing(rest) ==> StrictlyIncreasing(newCandidates)
    {
      var u := rest[k];
      if adj[v][u] == 1 {
        if StrictlyIncreasing(rest) {
          forall j | 0 <= j < |newCandidates| ensures newCandidates[j] < u {
            assert newCandidates[j] in newCandidates;
            var a :| 0 <= a < k && rest[..k][a] == newCandidates[j];
          }
        }
        newCandidates := newCandidates + [u];
      }
      k := k + 1;
    }
    assert rest[..k] == rest;
  }

  /**
   * Every candidate comes after every member of the current clique and is
   * adjacent to each of them.
   */
  ghost predicate ExtendsCurrent(adj: Matrix, currentClique: seq<int>, candidates: seq<int>)
    requires IsSquare(adj) && InRange(currentClique, |adj|) && InRange(candidates, |adj|)
  {
    forall i, j :: 0 <= i < |currentClique| && 0 <= j < |candidates| ==>
      currentClique[i] < candidates[j] && adj[currentClique[i]][candidates[j]] != 0
  }

  /**
   * best is currentClique followed by vertices drawn from candidates: the only
   * lists a leaf below this point of the search can copy into the incumbent.
   */
  ghost predicate GrownFrom(best: seq<int>, currentClique: seq<int>, candidates: seq<int>) {
    && |currentClique| <= |best|
    && best[..|currentClique|] == currentClique
    && forall x :: x in best[|currentClique|..] ==> x in candidates
  }

  /** A list grown from the include branch is grown from the branch point. */
  lemma GrownThroughInclude(best: seq<int>, currentClique: seq<int>, candidates: seq<int>, newCandidates: seq<int>)
    requires |candidates| > 0
    requires forall u :: u in newCandidates ==> u in candidates[1..]
    requires GrownFrom(best, currentClique + [candidates[0]], newCandidates)
    ensures GrownFrom(best, currentClique, candidates)
  {
    var n := |currentClique|;
    assert best[..n] == best[..n + 1][..n] == (currentClique + [candidates[0]])[..n] == currentClique;
    forall x | x in best[n..] ensures x in candidates {
      var i :| 0 <= i < |best[n..]| && best[n..][i] == x;
      if i == 0 {
        assert x == best[..n + 1][n] == candidates[0];
      } else {
        assert x == best[n + 1..][i - 1];
        assert x in candidates[1..];
      }
    }
  }

  /** A list grown from the exclude branch is grown from the branch point. */
  lemma GrownThroughExclude(best: seq<int>, currentClique: seq<int>, candidates: seq<int>)
    requires |candidates| > 0
    requires GrownFrom(best, currentClique, candidates[1..])
    ensures GrownFrom(best, currentClique, candidates)
  {
  }

  /**
   * One search over one graph; maxClique is the incumbent best clique that
   * every recursive call of Backtrack shares and overwrites.
   */
  class Search {
    const adj: Matrix
    var maxClique: seq<int>

    ghost predicate Valid()
      reads this
    {
      IsAdjacencyMatrix(adj) && IsSortedClique(adj, maxClique)
    }

    constructor (adj: Matrix)
      requires IsAdjacencyMatrix(adj)
      ensures Valid() && this.adj == adj && maxClique == []
    {
      this.adj := adj;
      maxClique := [];
    }

    /**
     * Explores every clique that extends currentClique with candidates,
     * pruning branches that cannot beat the incumbent. Afterwards no clique
     * drawn from the candidates, added to currentClique, outnumbers the
     * incumbent, and the incumbent changed only to a strictly longer clique
     * that extends currentClique with candidates.
     */
    method Backtrack(candidates: seq<int>, currentClique: seq<int>)
      requires Valid()
      requires IsSortedClique(adj, currentClique)
      requires InRange(candidates, |adj|) && StrictlyIncreasing(candidates)
      requires ExtendsCurrent(adj, currentClique, candidates)
      modifies this
      ensures Valid()
      ensures maxClique == old(maxClique) || |maxClique| > |old(maxClique)|
      ensures maxClique != old(maxClique) ==> GrownFrom(maxClique, currentClique, candidates)
      ensures forall k :: IsCliqueSet(adj, k) && k <= Elems(candidates) ==>
                |currentClique| + |k| <= |maxClique|
      decreases |candidates|
    {
      if |candidates| == 0 {
        if |currentClique| > |maxClique| {
          maxClique := currentClique;
        }
        return;
      }

      if |currentClique| + |candidates| <= |maxClique| {
        forall k | IsCliqueSet(adj, k) && k <= Elems(candidates)
          ensures |currentClique| + |k| <= |maxClique|
        {
          ElemsCard(candidates);
          SubsetCard(k, Elems(candidates));
        }
        return;
      }

      var v := candidates[0];
      var newCandidates := AdjacentCandidates(adj, v, candidates[1..]);

      ghost var beforeInclude := maxClique;
      IncludeKeepsShape(currentClique, candidates, newCandidates);
      Backtrack(newCandidates, currentClique + [v]);
      ghost var afterInclude := maxClique;
      if afterInclude != beforeInclude {
        GrownThroughInclude(afterInclude, currentClique, candidates, newCandidates);
      }

      Backtrack(candidates[1..], currentClique);
      if maxClique != afterInclude {
        GrownThroughExclude(maxClique, currentClique, candidates);
      }

      forall k | IsCliqueSet(adj, k) && k <= Elems(candidates)
        ensures |currentClique| + |k| <= |maxClique|
      {
        if v in k {
          var rest := k - {v};
          assert rest <= Elems(newCandidates) by {
            forall u | u in rest ensures u in newCandidates {
              var i :| 0 <= i < |candidates| && candidates[i] == u;
              assert candidates[1..][i - 1] == u;
            }
          }
          assert IsCliqueSet(adj, rest);
          assert |currentClique + [v]| + |rest| <= |afterInclude|;
        } else {
          assert k <= Elems(candidates[1..]) by {
            forall u | u in k ensures u in candidates[1..] {
              var i :| 0 <= i < |candidates| && candidates[i] == u;
              assert candidates[1..][i - 1] == u;
            }
          }
        }
      }
    }

    /** The include branch's arguments meet Backtrack's requirements. */
    lemma IncludeKeepsShape(currentClique: seq<int>, candidates: seq<int>, newCandidates: seq<int>)
      requires Valid()
      requires IsSortedClique(adj, currentClique)
      requires InRange(candidates, |adj|) && StrictlyIncreasing(candidates) && |candidates| > 0
      requires ExtendsCurrent(adj, currentClique, candidates)
      requires forall u :: u in newCandidates <==> u in candidates[1..] && adj[candidates[0]][u] == 1
      requires StrictlyIncreasing(newCandidates)
      ensures IsSortedClique(adj, currentClique + [candidates[0]])
      ensures InRange(newCandidates, |adj|)
      ensures ExtendsCurrent(adj, currentClique + [candidates[0]], newCandidates)
    {
      var v := candidates[0];
      var next := currentClique + [v];
      forall j | 0 <= j < |newCandidates|
        ensures 0 <= newCandidates[j] < |adj|
        ensures v < newCandidates[j] && adj[v][newCandidates[j]] != 0
        ensures forall i :: 0 <= i < |currentClique| ==>
                  currentClique[i] < newCandidates[j] && adj[currentClique[i]][newCandidates[j]] != 0
      {
        var u := newCandidates[j];
        assert u in newCandidates;
        var m :| 0 <= m < |candidates[1..]| && candidates[1..][m] == u;
        assert candidates[m + 1] == u;
      }
      assert IsClique(adj, next) by {
        forall a, b | 0 <= a < |next| && 0 <= b < |next| && next[a] != next[b]
          ensures adj[next[a]][next[b]] != 0
        {
          if a < |currentClique| && b == |currentClique| {
            assert adj[currentClique[a]][candidates[0]] != 0;
          } else if a == |currentClique| && b < |currentClique| {
            assert adj[currentClique[b]][candidates[0]] != 0;
          }
        }
      }
    }
  }

  /**
   * find_max_clique: the empty list for an empty graph, otherwise the search
   * from all vertices in ascending order and an empty current clique.
   */
  method FindMaxClique(adj: Matrix) returns (maxClique: seq<int>)
    requires IsAdjacencyMatrix(adj)
    ensures |adj| == 0 ==> maxClique == []
    ensures IsMaximumClique(adj, maxClique)
    ensures |maxClique| <= |adj|
    ensures |adj| > 0 ==> |maxClique| >= 1
  {
    var n := |adj|;
    if n == 0 {
      forall k | IsCliqueSet(adj, k) ensures |k| <= 0 {
        assert forall x :: x in k ==> 0 <= x < n;
        assert k == {};
      }
      return [];
    }
    var search := new Search(adj);
    var all := seq(n, i => i);
    search.Backtrack(all, []);
    maxClique := search.maxClique;
    forall k | IsCliqueSet(adj, k)
      ensures |k| <= |maxClique|
    {
      forall x | x in k ensures x in Elems(all) {
        assert all[x] == x;
      }
    }
    MaximumBounds(adj, maxClique);
  }
}
