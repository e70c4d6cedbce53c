/**
 * The state of the source's single-source shortest-path loop (AdjMatrixGraph.dijkstra) as
 * plain values, the invariant the loop keeps, and the proof that one round of it (take the
 * nearest unvisited vertex, relax its outgoing edges, fill in the missing path texts)
 * preserves that invariant.  The class method runs the rounds on arrays and appeals to the
 * lemmas here.
 *
 * The state: `vis` marks the visited vertices, `best` is bestmin (the settled distance of a
 * visited vertex, 0 elsewhere), `dist` is the start's row of the copied matrix (the only row
 * the source ever writes), `path` holds the path texts (None for a Java null).  Alongside, the
 * ghost `P` keeps for every vertex the walk that its distance and text describe.
 */
module ShortestPaths {
  import opened Wrappers
  import opened Seqs
  import opened Text
  import opened Paths
  import opened JavaInt

  /** One entry of dijkstra()'s result: the path text and its weight (-1 when unreached). */
  datatype PathEntry = PathEntry(text: string, weight: int)

  /** The text of the entry for a vertex `w` the search from `v` never reached. */
  function UnreachableText(v: string, w: string): string
  {
    v + " -x " + w + " 不可达"
  }

  /** The names along a walk, joined with "-->". */
  function Spell(names: seq<string>, q: seq<nat>): string
    requires forall t :: 0 <= t < |q| ==> q[t] < |names|
  {
    JoinArrow(Gather(names, q))
  }

  /** The walk of a single edge is spelled as the two names around an arrow. */
  lemma SpellEdge(names: seq<string>, a: nat, b: nat)
    requires a < |names| && b < |names|
    ensures Spell(names, [a, b]) == names[a] + Arrow + names[b]
  {
    var ns := [names[a], names[b]];
    assert Gather(names, [a, b]) == ns;
    assert ns[1..] == [names[b]];
    assert JoinArrow(ns) == names[a] + Arrow + JoinArrow([names[b]]);
  }

  /** Extending a walk by a vertex adds an arrow and its name. */
  lemma SpellSnoc(names: seq<string>, q: seq<nat>, j: nat)
    requires forall t :: 0 <= t < |q| ==> q[t] < |names|
    requires q != [] && j < |names|
    ensures Spell(names, q + [j]) == Spell(names, q) + Arrow + names[j]
  {
    GatherSnoc(names, q, j);
    JoinArrowSnoc(Gather(names, q), names[j]);
  }

  /** A square matrix of side `n`. */
  predicate IsSquare(w: seq<seq<int>>, n: nat)
  {
    |w| == n && forall i :: 0 <= i < n ==> |w[i]| == n
  }

  /**
   * Every entry is below Infinity.  Then no Java int sum of two distances overflows and a
   * missing edge never competes with a real one, which is what the source's correctness
   * relies on.
   */
  predicate BelowInfinity(w: seq<seq<int>>)
  {
    forall i, j :: 0 <= i < |w| && 0 <= j < |w[i]| ==> w[i][j] < Infinity
  }

  /** Some vertex other than `s` has an edge from `s` of weight below Infinity. */
  predicate OneHop(w: seq<seq<int>>, s: nat)
  {
    s < |w| && exists j :: 0 <= j < |w[s]| && j != s && 0 < w[s][j] < Infinity
  }

  /** All unvisited vertices are at distance Infinity: the selection finds nothing more. */
  predicate Exhausted(vis: seq<bool>, dist: seq<int>)
    requires |vis| == |dist|
  {
    forall i :: 0 <= i < |vis| && !vis[i] ==> Tentative(dist[i]) >= Infinity
  }

  ghost predicate Shape(w: seq<seq<int>>, names: seq<string>, s: nat, vis: seq<bool>, best: seq<int>,
                        dist: seq<int>, path: seq<Option<string>>, P: seq<seq<nat>>)
  {
    var n := |names|;
    IsSquare(w, n) && s < n && |vis| == n && |best| == n && |dist| == n && |path| == n && |P| == n
  }

  /**
   * What the loop keeps whatever the weights: the start is visited at distance 0, a visited
   * vertex has a positive distance and a text, an unvisited one has distance 0, and the
   * start's own text is set once some vertex has been selected.
   */
  ghost predicate Basic(w: seq<seq<int>>, names: seq<string>, s: nat, vis: seq<bool>, best: seq<int>,
                        dist: seq<int>, path: seq<Option<string>>, P: seq<seq<nat>>, selected: bool)
  {
    && Shape(w, names, s, vis, best, dist, path, P)
    && vis[s] && best[s] == 0
    && (forall i :: 0 <= i < |names| && !vis[i] ==> best[i] == 0)
    && (forall i :: 0 <= i < |names| && vis[i] && i != s ==> best[i] > 0 && path[i].Some?)
    && path[s] == (if selected then Some(names[s] + Arrow + names[s]) else None)
  }

  /** `q` is a walk from `s` to `i` of weight `d`. */
  ghost predicate Witness(w: seq<seq<int>>, q: seq<nat>, s: nat, i: nat, d: int)
  {
    IsPath(w, q, s, i) && Weight(w, q) == d
  }

  /** The text of a path entry, given the walk it stands for: a null text stands for the
      direct edge from the start, which the fill step would spell. */
  ghost predicate Spelled(names: seq<string>, s: nat, i: nat, q: seq<nat>, p: Option<string>)
    requires forall t :: 0 <= t < |q| ==> q[t] < |names|
  {
    if p.None? then q == [s, i] else p.value == Spell(names, q)
  }

  /**
   * What the loop keeps when every weight is below Infinity: the textbook Dijkstra
   * invariant.  A visited vertex's distance is the weight of the walk its text spells and no
   * walk to it is lighter; an unvisited vertex with a distance has a walk of that weight; and
   * the distance of an unvisited vertex is no more than any visited vertex's distance plus
   * the edge between them.
   */
  ghost predicate Correct(w: seq<seq<int>>, names: seq<string>, s: nat, vis: seq<bool>, best: seq<int>,
                          dist: seq<int>, path: seq<Option<string>>, P: seq<seq<nat>>)
    requires Shape(w, names, s, vis, best, dist, path, P)
  {
    var n := |names|;
    && (forall i :: 0 <= i < n ==> dist[i] < Infinity)
    && (forall i :: 0 <= i < n && vis[i] && i != s ==>
          Witness(w, P[i], s, i, best[i]) && path[i] == Some(Spell(names, P[i])))
    && (forall u, q :: 0 <= u < n && vis[u] && IsPath(w, q, s, u) ==> best[u] <= Weight(w, q))
    && (forall i :: 0 <= i < n && !vis[i] && dist[i] > 0 ==>
          Witness(w, P[i], s, i, dist[i]) && Spelled(names, s, i, P[i], path[i]))
    && (forall i :: 0 <= i < n && !vis[i] && dist[i] <= 0 ==> path[i].None?)
    && (forall u, i :: 0 <= u < n && 0 <= i < n && vis[u] && !vis[i] && Step(w, u, i) ==>
          Tentative(dist[i]) <= best[u] + w[u][i])
  }

  // ---------------------------------------------------------------------------
  // The initial state
  // ---------------------------------------------------------------------------

  function Unvisited(n: nat, s: nat): (vis: seq<bool>)
    ensures |vis| == n && forall i :: 0 <= i < n ==> (vis[i] <==> i == s)
  {
    seq(n, i => i == s)
  }

  function Zeros(n: nat): (z: seq<int>)
    ensures |z| == n && forall i :: 0 <= i < n ==> z[i] == 0
  {
    seq(n, i => 0)
  }

  function Nulls(n: nat): (z: seq<Option<string>>)
    ensures |z| == n && forall i :: 0 <= i < n ==> z[i] == None
  {
    seq(n, i => None)
  }

  /** Every vertex starts out with the direct walk from the start. */
  function DirectWalks(n: nat, s: nat): (P: seq<seq<nat>>)
    ensures |P| == n && forall i :: 0 <= i < n ==> P[i] == [s, i]
  {
    seq(n, i requires 0 <= i < n => [s, i])
  }

  /** A walk weighs at least nothing. */
  lemma WeightNonNegative(w: seq<seq<int>>, q: seq<nat>)
    requires Walk(w, q) && q != []
    ensures Weight(w, q) >= 0
  {
    WeightPrefix(w, q, 1);
  }

  /** Before the first round the invariant holds: only the start is visited, its row is the
      tentative distances and every vertex's walk is the direct edge. */
  lemma Init(w: seq<seq<int>>, names: seq<string>, s: nat)
    requires IsSquare(w, |names|) && s < |names|
    ensures var n := |names|;
      && Basic(w, names, s, Unvisited(n, s), Zeros(n), w[s], Nulls(n), DirectWalks(n, s), false)
      && (BelowInfinity(w) ==> Correct(w, names, s, Unvisited(n, s), Zeros(n), w[s], Nulls(n), DirectWalks(n, s)))
  {
    var n := |names|;
    var vis, best, dist, path, P := Unvisited(n, s), Zeros(n), w[s], Nulls(n), DirectWalks(n, s);
    if BelowInfinity(w) {
      forall u, q | 0 <= u < n && vis[u] && IsPath(w, q, s, u) ensures best[u] <= Weight(w, q) {
        WeightNonNegative(w, q);
      }
      forall i | 0 <= i < n && !vis[i] && dist[i] > 0 ensures Witness(w, P[i], s, i, dist[i]) {
        DirectPath(w, s, i);
      }
    }
  }

  // ---------------------------------------------------------------------------
  // One round
  // ---------------------------------------------------------------------------

  /** The distance of `i` through `k`, summed as Java ints: it wraps around past MaxInt. */
  function Via(w: seq<seq<int>>, dist: seq<int>, k: nat, i: nat): int
    requires IsSquare(w, |dist|) && k < |dist| && i < |dist|
  {
    Wrap32(Tentative(dist[k]) + Tentative(w[k][i])) as int
  }

  /** Below Infinity the sum cannot wrap around: it is the exact sum. */
  lemma ViaExact(w: seq<seq<int>>, dist: seq<int>, k: nat, i: nat)
    requires IsSquare(w, |dist|) && k < |dist| && i < |dist|
    requires BelowInfinity(w) && dist[k] < Infinity
    ensures Via(w, dist, k, i) == Tentative(dist[k]) + Tentative(w[k][i])
  {
    assert w[k][i] < Infinity;
  }

  /** The relaxation test of the round that selected `k`: i is unvisited and going through k
      is shorter than its current distance. */
  predicate Improves(w: seq<seq<int>>, vis: seq<bool>, dist: seq<int>, k: nat, i: nat)
    requires IsSquare(w, |dist|) && |vis| == |dist| && k < |dist| && i < |dist|
  {
    !vis[i] && Via(w, dist, k, i) < Tentative(dist[i])
  }

  /** The distance of `i` after the round that selected `k`. */
  function Relaxed(w: seq<seq<int>>, vis: seq<bool>, dist: seq<int>, k: nat, i: nat): int
    requires IsSquare(w, |dist|) && |vis| == |dist| && k < |dist| && i < |dist|
  {
    if Improves(w, vis, dist, k, i) then Via(w, dist, k, i) else dist[i]
  }

  /** The text through which the round that selected `k` reaches its neighbours: k's own
      text, or the direct edge from the start when k has none yet. */
  function Through(names: seq<string>, s: nat, k: nat, pk: Option<string>): string
    requires s < |names| && k < |names|
  {
    if pk.None? then names[s] + Arrow + names[k] else pk.value
  }

  /** The text of `i` after the round that selected `k`: a relaxed vertex is spelled through
      k, and a vertex without a text that is visited (or is the start) gets the direct edge. */
  function Filled(w: seq<seq<int>>, names: seq<string>, s: nat, vis: seq<bool>, best: seq<int>,
                  dist: seq<int>, path: seq<Option<string>>, k: nat, i: nat): Option<string>
    requires IsSquare(w, |names|) && s < |names|
    requires |vis| == |names| && |best| == |names| && |dist| == |names| && |path| == |names|
    requires k < |names| && i < |names|
  {
    var p := if Improves(w, vis, dist, k, i) then Some(Through(names, s, k, path[k]) + Arrow + names[i]) else path[i];
    if p.None? && (best[i] > 0 || i == s) then Some(names[s] + Arrow + names[i]) else p
  }

  function RelaxAll(w: seq<seq<int>>, vis: seq<bool>, dist: seq<int>, k: nat): (r: seq<int>)
    requires IsSquare(w, |dist|) && |vis| == |dist| && k < |dist|
    ensures |r| == |dist| && forall i :: 0 <= i < |dist| ==> r[i] == Relaxed(w, vis, dist, k, i)
  {
    seq(|dist|, i requires 0 <= i < |dist| => Relaxed(w, vis, dist, k, i))
  }

  function FillAll(w: seq<seq<int>>, names: seq<string>, s: nat, vis: seq<bool>, best: seq<int>,
                   dist: seq<int>, path: seq<Option<string>>, k: nat): (r: seq<Option<string>>)
    requires IsSquare(w, |names|) && s < |names|
    requires |vis| == |names| && |best| == |names| && |dist| == |names| && |path| == |names|
    requires k < |names|
    ensures |r| == |names|
    ensures forall i :: 0 <= i < |names| ==> r[i] == Filled(w, names, s, vis, best, dist, path, k, i)
  {
    seq(|names|, i requires 0 <= i < |names| => Filled(w, names, s, vis, best, dist, path, k, i))
  }

  /** The walks after the round that selected `k`: a relaxed vertex is reached through k. */
  ghost function ExtendAll(w: seq<seq<int>>, vis: seq<bool>, dist: seq<int>, k: nat, P: seq<seq<nat>>): (r: seq<seq<nat>>)
    requires IsSquare(w, |dist|) && |vis| == |dist| && k < |dist| && |P| == |dist|
    ensures |r| == |dist|
    ensures forall i :: 0 <= i < |dist| ==> r[i] == if Improves(w, vis, dist, k, i) then P[k] + [i] else P[i]
  {
    seq(|dist|, i requires 0 <= i < |dist| => if Improves(w, vis, dist, k, i) then P[k] + [i] else P[i])
  }

  /** The facts about the vertex `k` a round selects: unvisited, at a distance below Infinity
      and no farther than any other unvisited vertex. */
  ghost predicate IsNearest(vis: seq<bool>, dist: seq<int>, k: nat)
    requires |vis| == |dist|
  {
    k < |vis| && !vis[k] && Tentative(dist[k]) < Infinity
    && forall i :: 0 <= i < |vis| && !vis[i] ==> Tentative(dist[k]) <= Tentative(dist[i])
  }

  /** In the first round the start's row decides whether anything is selected: a vertex is
      selected exactly when some edge from the start is below Infinity. */
  lemma FirstRound(w: seq<seq<int>>, s: nat, k: int)
    requires IsSquare(w, |w|) && s < |w|
    requires k == -1 ==> Exhausted(Unvisited(|w|, s), w[s])
    requires k != -1 ==> 0 <= k && IsNearest(Unvisited(|w|, s), w[s], k)
    ensures k != -1 <==> OneHop(w, s)
  {
    if k == -1 {
      forall j | 0 <= j < |w[s]| && j != s ensures !(0 < w[s][j] < Infinity) {
        assert !Unvisited(|w|, s)[j];
      }
    }
  }

  /** A round keeps the weight-independent part of the invariant and sets the start's text. */
  lemma RoundBasic(w: seq<seq<int>>, names: seq<string>, s: nat, vis: seq<bool>, best: seq<int>,
                   dist: seq<int>, path: seq<Option<string>>, P: seq<seq<nat>>, selected: bool, k: nat)
    requires Basic(w, names, s, vis, best, dist, path, P, selected)
    requires IsNearest(vis, dist, k)
    ensures var vis1, best1 := vis[k := true], best[k := dist[k]];
      Basic(w, names, s, vis1, best1, RelaxAll(w, vis1, dist, k),
            FillAll(w, names, s, vis1, best1, dist, path, k), ExtendAll(w, vis1, dist, k, P), true)
  {
  }

  /** The newly selected vertex is settled: no walk to it is lighter than its distance. */
  lemma RoundSettles(w: seq<seq<int>>, names: seq<string>, s: nat, vis: seq<bool>, best: seq<int>,
                     dist: seq<int>, path: seq<Option<string>>, P: seq<seq<nat>>, k: nat, q: seq<nat>)
    requires Shape(w, names, s, vis, best, dist, path, P) && vis[s]
    requires Correct(w, names, s, vis, best, dist, path, P)
    requires IsNearest(vis, dist, k)
    requires IsPath(w, q, s, k)
    ensures dist[k] <= Weight(w, q)
  {
    CutBound(w, vis, best, dist, s, k, q, Tentative(dist[k]));
  }

  /** A visited vertex other than the start keeps its weight, walk and text through the
      round that selects `k`; `k` itself is settled at its tentative distance. */
  lemma SettledText(w: seq<seq<int>>, names: seq<string>, s: nat, vis: seq<bool>, best: seq<int>,
                    dist: seq<int>, path: seq<Option<string>>, P: seq<seq<nat>>, k: nat, i: nat)
    requires Shape(w, names, s, vis, best, dist, path, P)
    requires k < |names| && i < |names| && i != s && (i == k || vis[i])
    requires i == k ==> dist[k] > 0 && Witness(w, P[k], s, k, dist[k]) && Spelled(names, s, k, P[k], path[k])
    requires i != k ==> Witness(w, P[i], s, i, best[i]) && path[i] == Some(Spell(names, P[i]))
    ensures var vis1, best1 := vis[k := true], best[k := dist[k]];
      var q := ExtendAll(w, vis1, dist, k, P)[i];
      Witness(w, q, s, i, best1[i]) && FillAll(w, names, s, vis1, best1, dist, path, k)[i] == Some(Spell(names, q))
  {
    if i == k && path[k].None? {
      SpellEdge(names, s, k);
    }
  }

  lemma RoundVisited(w: seq<seq<int>>, names: seq<string>, s: nat, vis: seq<bool>, best: seq<int>,
                     dist: seq<int>, path: seq<Option<string>>, P: seq<seq<nat>>, selected: bool, k: nat)
    requires Basic(w, names, s, vis, best, dist, path, P, selected)
    requires Correct(w, names, s, vis, best, dist, path, P)
    requires IsNearest(vis, dist, k)
    ensures var n := |names|; var vis1, best1 := vis[k := true], best[k := dist[k]];
      var path1, P1 := FillAll(w, names, s, vis1, best1, dist, path, k), ExtendAll(w, vis1, dist, k, P);
      forall i :: 0 <= i < n && vis1[i] && i != s ==>
        Witness(w, P1[i], s, i, best1[i]) && path1[i] == Some(Spell(names, P1[i]))
  {
    var n := |names|;
    var vis1, best1 := vis[k := true], best[k := dist[k]];
    var path1, P1 := FillAll(w, names, s, vis1, best1, dist, path, k), ExtendAll(w, vis1, dist, k, P);
    forall i | 0 <= i < n && vis1[i] && i != s
      ensures Witness(w, P1[i], s, i, best1[i]) && path1[i] == Some(Spell(names, P1[i]))
    {
      SettledText(w, names, s, vis, best, dist, path, P, k, i);
    }
  }


  /** After a round, no walk to a visited vertex is lighter than its distance. */
  lemma RoundSettled(w: seq<seq<int>>, names: seq<string>, s: nat, vis: seq<bool>, best: seq<int>,
                     dist: seq<int>, path: seq<Option<string>>, P: seq<seq<nat>>, selected: bool, k: nat)
    requires Basic(w, names, s, vis, best, dist, path, P, selected)
    requires Correct(w, names, s, vis, best, dist, path, P)
    requires IsNearest(vis, dist, k)
    ensures var n := |names|; var vis1, best1 := vis[k := true], best[k := dist[k]];
      forall u, q :: 0 <= u < n && vis1[u] && IsPath(w, q, s, u) ==> best1[u] <= Weight(w, q)
  {
    var n := |names|;
    var vis1, best1 := vis[k := true], best[k := dist[k]];
    forall u, q | 0 <= u < n && vis1[u] && IsPath(w, q, s, u) ensures best1[u] <= Weight(w, q) {
      if u == k {
        RoundSettles(w, names, s, vis, best, dist, path, P, k, q);
      }
    }
  }

  /** The walk a relaxation records through `k` is spelled by the text it writes. */
  lemma ThroughSpells(w: seq<seq<int>>, names: seq<string>, s: nat, vis: seq<bool>, best: seq<int>,
                      dist: seq<int>, path: seq<Option<string>>, P: seq<seq<nat>>, k: nat, i: nat)
    requires Shape(w, names, s, vis, best, dist, path, P)
    requires Correct(w, names, s, vis, best, dist, path, P)
    requires IsNearest(vis, dist, k) && i < |names| && Step(w, k, i)
    ensures Witness(w, P[k] + [i], s, i, dist[k] + w[k][i])
    ensures Spell(names, P[k] + [i]) == Through(names, s, k, path[k]) + Arrow + names[i]
  {
    assert Witness(w, P[k], s, k, dist[k]);
    ExtendPath(w, P[k], s, k, i);
    SpellSnoc(names, P[k], i);
    if path[k].None? {
      SpellEdge(names, s, k);
    }
  }

  /** After a round, the unvisited vertices' part of the invariant holds. */
  lemma RoundUnvisited(w: seq<seq<int>>, names: seq<string>, s: nat, vis: seq<bool>, best: seq<int>,
                       dist: seq<int>, path: seq<Option<string>>, P: seq<seq<nat>>, selected: bool, k: nat)
    requires Basic(w, names, s, vis, best, dist, path, P, selected)
    requires BelowInfinity(w)
    requires Correct(w, names, s, vis, best, dist, path, P)
    requires IsNearest(vis, dist, k)
    ensures var n := |names|; var vis1, best1 := vis[k := true], best[k := dist[k]];
      var dist1 := RelaxAll(w, vis1, dist, k);
      var path1, P1 := FillAll(w, names, s, vis1, best1, dist, path, k), ExtendAll(w, vis1, dist, k, P);
      && (forall i :: 0 <= i < n ==> dist1[i] < Infinity)
      && (forall i :: 0 <= i < n && !vis1[i] && dist1[i] > 0 ==>
            Witness(w, P1[i], s, i, dist1[i]) && Spelled(names, s, i, P1[i], path1[i]))
      && (forall i :: 0 <= i < n && !vis1[i] && dist1[i] <= 0 ==> path1[i].None?)
  {
    var n := |names|;
    var vis1, best1 := vis[k := true], best[k := dist[k]];
    var dist1 := RelaxAll(w, vis1, dist, k);
    var path1, P1 := FillAll(w, names, s, vis1, best1, dist, path, k), ExtendAll(w, vis1, dist, k, P);
    forall i | 0 <= i < n ensures dist1[i] < Infinity {
      ViaExact(w, dist, k, i);
    }
    forall i | 0 <= i < n && !vis1[i] && dist1[i] > 0
      ensures Witness(w, P1[i], s, i, dist1[i]) && Spelled(names, s, i, P1[i], path1[i])
    {
      ViaExact(w, dist, k, i);
      if Improves(w, vis1, dist, k, i) {
        assert w[k][i] > 0;
        ThroughSpells(w, names, s, vis, best, dist, path, P, k, i);
      }
    }
  }

  /** After a round, the cut property holds: the new distances are bounded through every
      visited vertex, the new one included. */
  lemma RoundCut(w: seq<seq<int>>, names: seq<string>, s: nat, vis: seq<bool>, best: seq<int>,
                 dist: seq<int>, path: seq<Option<string>>, P: seq<seq<nat>>, selected: bool, k: nat)
    requires Basic(w, names, s, vis, best, dist, path, P, selected)
    requires BelowInfinity(w)
    requires Correct(w, names, s, vis, best, dist, path, P)
    requires IsNearest(vis, dist, k)
    ensures var n := |names|; var vis1, best1 := vis[k := true], best[k := dist[k]];
      var dist1 := RelaxAll(w, vis1, dist, k);
      forall u, i :: 0 <= u < n && 0 <= i < n && vis1[u] && !vis1[i] && Step(w, u, i) ==>
        Tentative(dist1[i]) <= best1[u] + w[u][i]
  {
    var n := |names|;
    var vis1, best1 := vis[k := true], best[k := dist[k]];
    var dist1 := RelaxAll(w, vis1, dist, k);
    forall u, i | 0 <= u < n && 0 <= i < n && vis1[u] && !vis1[i] && Step(w, u, i)
      ensures Tentative(dist1[i]) <= best1[u] + w[u][i]
    {
      ViaExact(w, dist, k, i);
      assert Tentative(dist1[i]) <= Tentative(dist[i]);
    }
  }

  /** One round preserves the whole invariant: given the state before the round that
      selected `k`, the state after it (`vis1` ... `P1`) satisfies the invariant again. */
  lemma Round(w: seq<seq<int>>, names: seq<string>, s: nat, vis: seq<bool>, best: seq<int>,
              dist: seq<int>, path: seq<Option<string>>, P: seq<seq<nat>>, selected: bool, k: nat,
              vis1: seq<bool>, best1: seq<int>, dist1: seq<int>, path1: seq<Option<string>>, P1: seq<seq<nat>>)
    requires Basic(w, names, s, vis, best, dist, path, P, selected)
    requires BelowInfinity(w) ==> Correct(w, names, s, vis, best, dist, path, P)
    requires IsNearest(vis, dist, k)
    requires vis1 == vis[k := true] && best1 == best[k := dist[k]]
    requires dist1 == RelaxAll(w, vis1, dist, k)
    requires path1 == FillAll(w, names, s, vis1, best1, dist, path, k)
    requires P1 == ExtendAll(w, vis1, dist, k, P)
    ensures Basic(w, names, s, vis1, best1, dist1, path1, P1, true)
    ensures BelowInfinity(w) ==> Correct(w, names, s, vis1, best1, dist1, path1, P1)
  {
    RoundBasic(w, names, s, vis, best, dist, path, P, selected, k);
    if BelowInfinity(w) {
      RoundVisited(w, names, s, vis, best, dist, path, P, selected, k);
      RoundSettled(w, names, s, vis, best, dist, path, P, selected, k);
      RoundUnvisited(w, names, s, vis, best, dist, path, P, selected, k);
      RoundCut(w, names, s, vis, best, dist, path, P, selected, k);
    }
  }

  // ---------------------------------------------------------------------------
  // The result
  // ---------------------------------------------------------------------------

  /** The result entry the source builds for vertex `i` from its text and distance. */
  function Entry(names: seq<string>, s: nat, best: seq<int>, path: seq<Option<string>>, i: nat): PathEntry
    requires s < |names| && i < |names| && |best| == |names| && |path| == |names|
  {
    if path[i].Some? then PathEntry(path[i].value, best[i]) else PathEntry(UnreachableText(names[s], names[i]), -1)
  }

  /** The entry for `i` reports a lightest walk from `s`: its text spells a walk of the
      reported weight and no walk from `s` to `i` is lighter. */
  ghost predicate Shortest(w: seq<seq<int>>, names: seq<string>, s: nat, i: nat, e: PathEntry)
    requires IsSquare(w, |names|)
  {
    && (exists q :: IsPath(w, q, s, i) && Weight(w, q) == e.weight && e.text == Spell(names, q))
    && (forall q :: IsPath(w, q, s, i) ==> e.weight <= Weight(w, q))
  }

  /** Every walk from `s` to `i` weighs at least Infinity. */
  ghost predicate Unreached(w: seq<seq<int>>, s: nat, i: nat)
  {
    forall q :: IsPath(w, q, s, i) ==> Weight(w, q) >= Infinity
  }

  /**
   * When the selection finds nothing more, every entry other than the start's is right: a
   * reported weight belongs to a lightest walk that the text spells, and a vertex reported
   * unreachable has no walk lighter than Infinity.
   */
  lemma Final(w: seq<seq<int>>, names: seq<string>, s: nat, vis: seq<bool>, best: seq<int>,
              dist: seq<int>, path: seq<Option<string>>, P: seq<seq<nat>>, selected: bool, i: nat)
    requires Basic(w, names, s, vis, best, dist, path, P, selected)
    requires Correct(w, names, s, vis, best, dist, path, P)
    requires Exhausted(vis, dist)
    requires i < |names| && i != s
    ensures Entry(names, s, best, path, i).weight >= 0 ==> Shortest(w, names, s, i, Entry(names, s, best, path, i))
    ensures Entry(names, s, best, path, i).weight < 0 ==> Unreached(w, s, i)
  {
    if vis[i] {
      assert IsPath(w, P[i], s, i) && Weight(w, P[i]) == best[i] && path[i].value == Spell(names, P[i]);
    } else {
      assert path[i].None?;
      forall q | IsPath(w, q, s, i) ensures Weight(w, q) >= Infinity {
        CutBound(w, vis, best, dist, s, i, q, Infinity);
      }
    }
  }

  /** The entries dijkstra() returns, one per vertex. */
  function Entries(names: seq<string>, s: nat, best: seq<int>, path: seq<Option<string>>): (r: seq<PathEntry>)
    requires s < |names| && |best| == |names| && |path| == |names|
    ensures |r| == |names| && forall i :: 0 <= i < |names| ==> r[i] == Entry(names, s, best, path, i)
  {
    seq(|names|, i requires 0 <= i < |names| => Entry(names, s, best, path, i))
  }

  /**
   * What the entries `r` dijkstra() returns from `s` promise: a weight is -1 exactly for
   * the unreachable text and never less; the start's entry is "v-->v" of weight 0 when some
   * other vertex has an edge from the start below Infinity, and unreachable otherwise; and,
   * with every weight below Infinity, every other entry spells a lightest walk of its weight,
   * or there is no walk at all below Infinity.
   */
  ghost predicate Reported(w: seq<seq<int>>, names: seq<string>, s: nat, r: seq<PathEntry>)
    requires IsSquare(w, |names|) && s < |names| && |r| == |names|
  {
    && (forall i :: 0 <= i < |names| ==>
          r[i].weight >= -1 && (r[i].weight == -1 ==> r[i].text == UnreachableText(names[s], names[i])))
    && r[s] == (if OneHop(w, s) then PathEntry(names[s] + Arrow + names[s], 0) else PathEntry(UnreachableText(names[s], names[s]), -1))
    && (BelowInfinity(w) ==> forall i :: 0 <= i < |names| && i != s ==>
          && (r[i].weight >= 0 ==> Shortest(w, names, s, i, r[i]))
          && (r[i].weight < 0 ==> Unreached(w, s, i)))
  }

  /** When the rounds are over, the entries built from the final state say what they should. */
  lemma Conclude(w: seq<seq<int>>, names: seq<string>, s: nat, vis: seq<bool>, best: seq<int>,
                 dist: seq<int>, path: seq<Option<string>>, P: seq<seq<nat>>, selected: bool)
    requires Basic(w, names, s, vis, best, dist, path, P, selected)
    requires BelowInfinity(w) ==> Correct(w, names, s, vis, best, dist, path, P)
    requires Exhausted(vis, dist)
    requires selected <==> OneHop(w, s)
    ensures Reported(w, names, s, Entries(names, s, best, path))
  {
    var r := Entries(names, s, best, path);
    if BelowInfinity(w) {
      forall i | 0 <= i < |names| && i != s
        ensures r[i].weight >= 0 ==> Shortest(w, names, s, i, r[i])
        ensures r[i].weight < 0 ==> Unreached(w, s, i)
      {
        Final(w, names, s, vis, best, dist, path, P, selected, i);
      }
    }
  }
}
