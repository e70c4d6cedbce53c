/**
 * Weighted walks in a dense matrix of edge weights, the notion of "shortest path" that
 * AdjMatrixGraph.Dijkstra is proved against.  An entry greater than 0 is an edge, any other
 * entry is no edge; this is how the source's distance() helper reads the matrix.
 */
module Paths {

  /** The value distance() gives to a missing edge (an entry that is 0 or negative). */
  const Infinity: int := 10000000

  /** distance(): a positive entry is its own length, any other entry is Infinity. */
  function Tentative(x: int): (r: int)
    ensures r > 0
    ensures x > 0 ==> r == x
    ensures x <= 0 ==> r == Infinity
  {
    if x > 0 then x else Infinity
  }

  /** There is an edge from `a` to `b`: the entry exists and is positive. */
  predicate Step(w: seq<seq<int>>, a: nat, b: nat)
  {
    a < |w| && b < |w| && b < |w[a]| && w[a][b] > 0
  }

  /** Every consecutive pair of `q` is an edge and every vertex is in range. */
  predicate Walk(w: seq<seq<int>>, q: seq<nat>)
  {
    && (forall i :: 0 <= i < |q| ==> q[i] < |w|)
    && (forall i :: 0 <= i < |q| - 1 ==> Step(w, q[i], q[i + 1]))
  }

  /** `q` is a walk from `s` to `t`. */
  predicate IsPath(w: seq<seq<int>>, q: seq<nat>, s: nat, t: nat)
  {
    |q| >= 1 && q[0] == s && q[|q| - 1] == t && Walk(w, q)
  }

  /** The sum of the edge weights along a walk. */
  function Weight(w: seq<seq<int>>, q: seq<nat>): int
    requires Walk(w, q)
    decreases |q|
  {
    if |q| <= 1 then 0
    else
      assert Walk(w, q[..|q| - 1]);
      Weight(w, q[..|q| - 1]) + w[q[|q| - 2]][q[|q| - 1]]
  }

  /** A walk weighs at least as much as each of its prefixes (all weights are positive). */
  lemma {:induction false} WeightPrefix(w: seq<seq<int>>, q: seq<nat>, j: nat)
    requires Walk(w, q) && 1 <= j <= |q|
    ensures Walk(w, q[..j]) && Weight(w, q[..j]) <= Weight(w, q)
    decreases |q|
  {
    if j < |q| {
      assert q[..|q| - 1][..j] == q[..j];
      assert Walk(w, q[..|q| - 1]);
      WeightPrefix(w, q[..|q| - 1], j);
    } else {
      assert q[..j] == q;
    }
  }

  /** Extending a path by one edge adds that edge's weight. */
  lemma ExtendPath(w: seq<seq<int>>, q: seq<nat>, s: nat, k: nat, i: nat)
    requires IsPath(w, q, s, k) && Step(w, k, i)
    ensures IsPath(w, q + [i], s, i)
    ensures Weight(w, q + [i]) == Weight(w, q) + w[k][i]
  {
    var q' := q + [i];
    assert q'[..|q'| - 1] == q;
    forall m | 0 <= m < |q'| - 1 ensures Step(w, q'[m], q'[m + 1]) {
      if m < |q| - 1 {
        assert q'[m] == q[m] && q'[m + 1] == q[m + 1];
      }
    }
  }

  /** An edge from `s` is a path of its own weight. */
  lemma DirectPath(w: seq<seq<int>>, s: nat, i: nat)
    requires Step(w, s, i)
    ensures IsPath(w, [s, i], s, i) && Weight(w, [s, i]) == w[s][i]
  {
    assert [s, i][..1] == [s];
  }

  /** The position of the first vertex of `q` outside the visited set. */
  function FirstUnvisited(visited: seq<bool>, q: seq<nat>): (j: nat)
    requires exists m :: 0 <= m < |q| && q[m] < |visited| && !visited[q[m]]
    requires forall m :: 0 <= m < |q| ==> q[m] < |visited|
    ensures j < |q| && !visited[q[j]]
    ensures forall m :: 0 <= m < j ==> visited[q[m]]
  {
    if !visited[q[0]] then 0
    else
      var m :| 0 <= m < |q| && q[m] < |visited| && !visited[q[m]];
      assert q[1..][m - 1] == q[m];
      var j := FirstUnvisited(visited, q[1..]);
      assert forall m :: 1 <= m < 1 + j ==> q[m] == q[1..][m - 1];
      1 + j
  }

  /**
   * The cut argument of Dijkstra's algorithm. Let every visited vertex `u` carry a bound
   * `best[u]` no larger than the weight of any path from `s` to `u`, and let each unvisited
   * vertex's tentative distance be no larger than `best[u]` plus the edge from any visited `u`.
   * Then any path from `s` into the unvisited part weighs at least the smallest tentative
   * distance there.
   */
  lemma CutBound(w: seq<seq<int>>, visited: seq<bool>, best: seq<int>, dist: seq<int>,
                 s: nat, t: nat, q: seq<nat>, bound: int)
    requires |visited| == |w| && |best| == |w| && |dist| == |w|
    requires IsPath(w, q, s, t)
    requires visited[s] && !visited[t]
    requires forall u, p :: 0 <= u < |w| && visited[u] && IsPath(w, p, s, u) ==> best[u] <= Weight(w, p)
    requires forall u, i :: 0 <= u < |w| && 0 <= i < |w| && visited[u] && !visited[i] && Step(w, u, i) ==>
               Tentative(dist[i]) <= best[u] + w[u][i]
    requires forall i :: 0 <= i < |w| && !visited[i] ==> Tentative(dist[i]) >= bound
    ensures Weight(w, q) >= bound
  {
    assert q[|q| - 1] < |visited| && !visited[q[|q| - 1]];
    var j := FirstUnvisited(visited, q);
    assert j >= 1;
    var u := q[j - 1];
    var i := q[j];
    WeightPrefix(w, q, j);
    assert IsPath(w, q[..j], s, u);
    assert best[u] <= Weight(w, q[..j]);
    assert Step(w, u, i);
    ExtendPath(w, q[..j], s, u, i);
    assert q[..j] + [i] == q[..j + 1];
    WeightPrefix(w, q, j + 1);
  }
}
