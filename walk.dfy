/**
 * The random walk of App.randomWalk: from a random start, follow random out-edges until a
 * vertex comes round a second time, the user interrupts, or it reaches a vertex without
 * neighbours.
 */
module Walks {
  import opened Wrappers
  import opened Seqs
  import opened Paths
  import opened Graph
  import opened PathReport
  import Text

  /** `rand(t)` is the t-th result of `Random.nextInt(n)`, always below `n`, and every
      index comes up again after any draw: from draw `t`, index `j` comes up at draw
      `next(t, j)`. Without vertices `nextInt` is never answered. */
  ghost predicate Fair(rand: nat -> nat, next: (nat, nat) -> nat, n: nat)
  {
    n == 0 ||
    ((forall t :: rand(t) < n) && (forall t: nat, j: nat :: j < n ==> t <= next(t, j) && rand(next(t, j)) == j))
  }

  /** Drawing index `j` while at index `a` is accepted: the name at `j` is the name of a
      column below `n` with a positive entry in the row of the name at `a`. */
  predicate Accepts(s: Snapshot, a: nat, j: nat)
    requires WellFormed(s)
  {
    && a < |s.names| && j < |s.names|
    && exists k :: 0 <= k < s.n && s.names[k] == s.names[j] && s.w[IndexOf(s.names, s.names[a])][k] > 0
  }

  /** A draw is accepted exactly when the name drawn is among the neighbours of the name
      at `a`, as getNeighbors lists them. */
  lemma AcceptsNeighbour(s: Snapshot, a: nat, j: nat)
    requires WellFormed(s) && a < |s.names| && j < |s.names|
    ensures Accepts(s, a, j) <==> s.names[j] in NeighborsIn(s, s.names[a])
  {
    RowNamesSpec(s.names, s.w[IndexOf(s.names, s.names[a])], s.n, s.names[j]);
  }

  /** The vertex at index `i` has at least one neighbour. */
  predicate HasNeighbour(s: Snapshot, i: nat)
    requires WellFormed(s) && i < |s.names|
  {
    NeighborsIn(s, s.names[i]) != []
  }

  /** The index drawn at draw `u` is rejected while at index `a`. */
  predicate Rejected(s: Snapshot, rand: nat -> nat, a: nat, u: nat)
    requires WellFormed(s)
  {
    !Accepts(s, a, rand(u))
  }

  /** Index `j` is taken at draw `d` after the vertex at index `a` was taken at draw `c`:
      `j` is drawn at `d` and accepted, and every draw in between was rejected. */
  ghost predicate Link(s: Snapshot, rand: nat -> nat, c: nat, a: nat, d: nat, j: nat)
    requires WellFormed(s)
  {
    c < d && j == rand(d) && j < s.n && Accepts(s, a, j)
    && forall u :: c < u < d ==> Rejected(s, rand, a, u)
  }

  /** `q` lists the vertex indices the walk visits, and `D` the draw at which each was
      taken: the start is draw 0, and each later vertex is linked to the one before it. */
  ghost predicate Drawn(s: Snapshot, rand: nat -> nat, D: seq<nat>, q: seq<nat>)
    requires WellFormed(s)
  {
    && |D| == |q| >= 1
    && D[0] == 0 && q[0] == rand(0) && q[0] < s.n
    && forall t :: 0 <= t < |q| - 1 ==> Link(s, rand, D[t], q[t], D[t + 1], q[t + 1])
  }

  /** The flag was up at each of the first `k` polls. */
  ghost predicate RanFor(running: nat -> bool, k: nat)
  {
    k == 0 || (running(k - 1) && RanFor(running, k - 1))
  }

  /** The walk ends at the first vertex that comes round a second time, or, with no vertex
      repeated, when the user has interrupted it or the walk has reached a vertex without
      neighbours; `running(t)` is the state of the flag the t-th time it is polled, once
      per step. */
  ghost predicate Ended(s: Snapshot, q: seq<nat>, running: nat -> bool)
    requires WellFormed(s)
  {
    && |q| >= 1
    && RanFor(running, |q| - 1)
    && Distinct(q[..|q| - 1])
    && ((|q| >= 2 && q[|q| - 1] in q[..|q| - 1])
        || (Distinct(q) && (!running(|q| - 1) || (q[|q| - 1] < |s.names| && !HasNeighbour(s, q[|q| - 1])))))
  }

  /** As the source is written, the draw loop at a vertex without neighbours has no exit:
      there every draw is rejected. */
  lemma DeadEndRejects(s: Snapshot, rand: nat -> nat, from: nat, u: nat)
    requires WellFormed(s) && from < s.n && !HasNeighbour(s, from)
    ensures Rejected(s, rand, from, u)
  {
    var j := rand(u);
    if j < |s.names| {
      AcceptsNeighbour(s, from, j);
    }
  }

  /** The smallest such input: the one-word text "a" (one vertex, no edge). */
  lemma DeadEndSpins(rand: nat -> nat, u: nat)
    ensures var s := Snapshot(["a"], [[0]], 1);
      WellFormed(s) && !HasNeighbour(s, 0) && Rejected(s, rand, 0, u)
  {
    var s := Snapshot(["a"], [[0]], 1);
    assert NeighborsIn(s, "a") == RowNames(s.names, s.w[0], 1);
    assert IndexOf(s.names, "a") == 0;
    DeadEndRejects(s, rand, 0, u);
  }

  /** From a fair draw sequence, some draw after `draw0` is accepted at the vertex `from`. */
  lemma Accepted(s: Snapshot, rand: nat -> nat, next: (nat, nat) -> nat, draw0: nat, from: nat) returns (last: nat)
    requires WellFormed(s) && Fair(rand, next, s.n)
    requires from < s.n && HasNeighbour(s, from)
    ensures draw0 < last && Accepts(s, from, rand(last))
  {
    var neighbors := NeighborsIn(s, s.names[from]);
    RowNamesSpec(s.names, s.w[IndexOf(s.names, s.names[from])], s.n, neighbors[0]);
    var target :| 0 <= target < s.n && s.names[target] == neighbors[0];
    last := next(draw0 + 1, target);
    AcceptsNeighbour(s, from, target);
  }

  /** Draws indices after draw `draw0` until the name at one of them is among `neighbors`,
      the neighbours of the vertex at `from`; `last` is a draw at which that happens. */
  method DrawNeighbour(g: AdjMatrixGraph, rand: nat -> nat, draw0: nat, from: nat,
                       neighbors: seq<string>, ghost s: Snapshot, ghost last: nat)
    returns (ri: nat, draw: nat)
    requires g.Mirrors(s) && forall t :: rand(t) < s.n
    requires from < s.n && neighbors == NeighborsIn(s, s.names[from])
    requires draw0 < last && Accepts(s, from, rand(last))
    ensures Link(s, rand, draw0, from, draw, ri)
  {
    AcceptsNeighbour(s, from, rand(last));
    draw := draw0 + 1;
    ri := rand(draw);
    var name := g.VertexAt(ri).value;
    while !(name in neighbors)
      invariant draw0 < draw <= last && ri == rand(draw) && ri < s.n && name == s.names[ri]
      invariant forall u :: draw0 < u < draw ==> s.names[rand(u)] !in neighbors
      decreases last - draw
    {
      assert draw != last;
      draw := draw + 1;
      ri := rand(draw);
      name := g.VertexAt(ri).value;
    }
    AcceptsNeighbour(s, from, ri);
    forall u | draw0 < u < draw
      ensures Rejected(s, rand, from, u)
    {
      AcceptsNeighbour(s, from, rand(u));
    }
  }

  /** One move from the vertex `v` at index `ri`, taken at draw `draw`: fetch its neighbours;
      without any the walk cannot move, otherwise draw until one of them comes up; the move
      yields the index and draw of that neighbour and its name. */
  method Move(g: AdjMatrixGraph, rand: nat -> nat, ghost next: (nat, nat) -> nat, ghost s: Snapshot,
              v: string, ri: nat, draw: nat)
    returns (moved: bool, ri': nat, draw': nat, w: string)
    requires g.Mirrors(s) && Fair(rand, next, s.n)
    requires ri < s.n && v == s.names[ri]
    ensures moved <==> HasNeighbour(s, ri)
    ensures moved ==> Link(s, rand, draw, ri, draw', ri') && w == s.names[ri']
  {
    g.MirrorsView(s);
    var neighbors := g.GetNeighbors(v, s);
    if neighbors == [] {
      return false, ri, draw, v;
    }
    ghost var last := Accepted(s, rand, next, draw, ri);
    ri', draw' := DrawNeighbour(g, rand, draw, ri, neighbors, s, last);
    w := g.VertexAt(ri').value;
    moved := true;
  }

  /** A linked draw extends the record of the walk. */
  lemma DrawnStep(s: Snapshot, rand: nat -> nat, D: seq<nat>, q: seq<nat>, d: nat, j: nat)
    requires WellFormed(s) && Drawn(s, rand, D, q) && Link(s, rand, D[|D| - 1], q[|q| - 1], d, j)
    ensures Drawn(s, rand, D + [d], q + [j])
  {
    var D', q' := D + [d], q + [j];
    forall t | 0 <= t < |q'| - 1
      ensures Link(s, rand, D'[t], q'[t], D'[t + 1], q'[t + 1])
    {
      if t < |q| - 1 {
        assert D'[t] == D[t] && D'[t + 1] == D[t + 1] && q'[t] == q[t] && q'[t + 1] == q[t + 1];
      } else {
        assert D'[t] == D[|D| - 1] && q'[t] == q[|q| - 1] && D'[t + 1] == d && q'[t + 1] == j;
      }
    }
  }

  /** Taking one more vertex adds "-->" and its name to the path text. */
  lemma StepPath(names: seq<string>, q: seq<nat>, ri: nat, path: string)
    requires q != [] && ri < |names|
    requires forall t :: 0 <= t < |q| ==> q[t] < |names|
    requires path == Text.JoinArrow(Gather(names, q))
    ensures path + Text.Arrow + names[ri] == Text.JoinArrow(Gather(names, q + [ri]))
  {
    GatherSnoc(names, q, ri);
    Text.JoinArrowSnoc(Gather(names, q), names[ri]);
  }

  /** A walk that enters a vertex it visited before has ended. */
  lemma EndedByRepeat(s: Snapshot, q: seq<nat>, j: nat, running: nat -> bool)
    requires WellFormed(s) && Distinct(q) && q != [] && RanFor(running, |q|) && j in q
    ensures Ended(s, q + [j], running)
  {
    assert (q + [j])[..|q|] == q;
  }

  /** A walk the user interrupts, or that reaches a vertex without neighbours, before any
      vertex repeats has ended. */
  lemma EndedWhere(s: Snapshot, q: seq<nat>, running: nat -> bool)
    requires WellFormed(s) && Distinct(q) && q != [] && q[|q| - 1] < |s.names| && RanFor(running, |q| - 1)
    requires !running(|q| - 1) || !HasNeighbour(s, q[|q| - 1])
    ensures Ended(s, q, running)
  {
    assert q[..|q| - 1] + [q[|q| - 1]] == q;
  }

  /** The record of a walk still under way: its draws, its vertices, none of them twice,
      the flag up at every poll so far, and the path text naming the vertices. */
  ghost predicate Walked(s: Snapshot, rand: nat -> nat, running: nat -> bool, D: seq<nat>, q: seq<nat>, path: string)
    requires WellFormed(s)
  {
    && Drawn(s, rand, D, q) && (forall t :: 0 <= t < |q| ==> q[t] < s.n)
    && Distinct(q) && RanFor(running, |q| - 1)
    && path == Text.JoinArrow(Gather(s.names, q))
  }

  /** The record of a finished walk: its draws, its vertices, the way it ended, and the
      path text naming the vertices. */
  ghost predicate Finished(s: Snapshot, rand: nat -> nat, running: nat -> bool, D: seq<nat>, q: seq<nat>, path: string)
    requires WellFormed(s)
  {
    && Drawn(s, rand, D, q) && (forall t :: 0 <= t < |q| ==> q[t] < s.n)
    && Ended(s, q, running)
    && path == Text.JoinArrow(Gather(s.names, q))
  }

  /** The walk starts at the vertex of draw 0, and the path text is its name. */
  lemma WalkStarts(s: Snapshot, rand: nat -> nat, running: nat -> bool, j: nat)
    requires WellFormed(s) && j == rand(0) && j < s.n
    ensures Walked(s, rand, running, [0], [j], s.names[j])
  {
    assert Gather(s.names, [j]) == [s.names[j]];
  }

  /** A walk under way whose flag is down at the next poll, or whose vertex has no
      neighbours, has finished where it is. */
  lemma WalkStops(s: Snapshot, rand: nat -> nat, running: nat -> bool, D: seq<nat>, q: seq<nat>, path: string)
    requires WellFormed(s) && Walked(s, rand, running, D, q, path)
    requires !running(|q| - 1) || !HasNeighbour(s, q[|q| - 1])
    ensures Finished(s, rand, running, D, q, path)
  {
    EndedWhere(s, q, running);
  }

  /** Moving on along a linked draw with the flag up extends the record of a walk under
      way: the walk goes on when the new vertex is fresh and has finished when it is not. */
  lemma WalkOn(s: Snapshot, rand: nat -> nat, running: nat -> bool, D: seq<nat>, q: seq<nat>, path: string,
               d: nat, j: nat)
    requires WellFormed(s) && Walked(s, rand, running, D, q, path) && running(|q| - 1)
    requires Link(s, rand, D[|D| - 1], q[|q| - 1], d, j)
    ensures j !in q ==> Walked(s, rand, running, D + [d], q + [j], path + Text.Arrow + s.names[j])
    ensures j in q ==> Finished(s, rand, running, D + [d], q + [j], path + Text.Arrow + s.names[j])
  {
    DrawnStep(s, rand, D, q, d, j);
    StepPath(s.names, q, j, path);
    assert RanFor(running, |q|);
    if j in q {
      EndedByRepeat(s, q, j, running);
    } else {
      DistinctSnoc(q, j);
    }
  }

  /** One round of the loop of App.randomWalk at the vertex `v` at index `ri`: with the flag
      down, or at a vertex without neighbours, the walk stops where it is; otherwise it moves
      to a drawn neighbour, and stops there if that vertex was visited before, or marks it
      visited. */
  method Round(g: AdjMatrixGraph, rand: nat -> nat, ghost next: (nat, nat) -> nat, running: nat -> bool,
               ghost s: Snapshot, visited: array<bool>, step: nat, ri: nat, draw: nat, v: string, path: string,
               ghost D: seq<nat>, ghost q: seq<nat>)
    returns (stop: bool, ri': nat, draw': nat, v': string, path': string, ghost D': seq<nat>, ghost q': seq<nat>)
    requires g.Mirrors(s) && Fair(rand, next, s.n)
    requires visited.Length == s.n && forall i :: 0 <= i < s.n ==> (visited[i] <==> i in q)
    requires Walked(s, rand, running, D, q, path)
    requires step == |q| - 1 && draw == D[|D| - 1] && ri == q[|q| - 1] && v == s.names[ri]
    modifies visited
    ensures stop ==> Finished(s, rand, running, D', q', path')
    ensures !stop ==>
      && Walked(s, rand, running, D', q', path') && |q'| == |q| + 1 <= s.n
      && draw' == D'[|D'| - 1] && ri' == q'[|q'| - 1] && v' == s.names[ri']
      && forall i :: 0 <= i < s.n ==> (visited[i] <==> i in q')
  {
    if !running(step) {
      WalkStops(s, rand, running, D, q, path);
      return true, ri, draw, v, path, D, q;
    }
    var moved, w;
    moved, ri', draw', w := Move(g, rand, next, s, v, ri, draw);
    if !moved {
      WalkStops(s, rand, running, D, q, path);
      return true, ri, draw, v, path, D, q;
    }
    WalkOn(s, rand, running, D, q, path, draw', ri');
    path' := path + Text.Arrow + w;
    q', D' := q + [ri'], D + [draw'];
    v' := w;
    if visited[ri'] {
      return true, ri', draw', v', path', D', q';
    }
    visited[ri'] := true;
    DistinctBelow(q', s.n);
    stop := false;
  }

  /** The loop of App.randomWalk from its first vertex, the one at index `ri`: rounds
      until one of them stops the walk. */
  method Wander(g: AdjMatrixGraph, rand: nat -> nat, ghost next: (nat, nat) -> nat, running: nat -> bool,
              ghost s: Snapshot, visited: array<bool>, start: nat, name: string)
    returns (path': string, ghost q: seq<nat>, ghost D: seq<nat>)
    requires g.Mirrors(s) && Fair(rand, next, s.n)
    requires start == rand(0) && start < s.n && name == s.names[start]
    requires visited.Length == s.n && forall i :: 0 <= i < s.n ==> (visited[i] <==> i == start)
    modifies visited
    ensures Finished(s, rand, running, D, q, path')
  {
    q, D := [start], [0];
    WalkStarts(s, rand, running, start);
    var draw: nat := 0;
    var step: nat := 0;
    var ri, v := start, name;
    path' := name;
    while true
      invariant g.Mirrors(s) && visited.Length == s.n
      invariant Walked(s, rand, running, D, q, path') && step == |q| - 1
      invariant draw == D[|D| - 1] && ri == q[|q| - 1] && v == s.names[ri]
      invariant forall i :: 0 <= i < s.n ==> (visited[i] <==> i in q)
      decreases s.n - |q|
    {
      var stop;
      stop, ri, draw, v, path', D, q := Round(g, rand, next, running, s, visited, step, ri, draw, v, path', D, q);
      if stop {
        break;
      }
      step := step + 1;
    }
  }

  /** App.randomWalk: with no vertices `nextInt` refuses the bound; otherwise the walk
      starts at the vertex of the first draw and, while the user lets it run, moves to the
      first drawn neighbour, extending the path text, until it enters a vertex it has
      already visited or reaches one without neighbours. */
  method RandomWalk(g: AdjMatrixGraph, rand: nat -> nat, ghost next: (nat, nat) -> nat, running: nat -> bool,
                    ghost s: Snapshot)
    returns (r: Result<string>, ghost q: seq<nat>, ghost D: seq<nat>)
    requires g.Square() && s == g.View() && Fair(rand, next, s.n)
    ensures s.n == 0 ==> r == Err(IllegalArgument)
    ensures s.n > 0 ==> r.Ok? && Finished(s, rand, running, D, q, r.value)
  {
    var n := g.Size();
    if n == 0 {
      return Err(IllegalArgument), [], [];
    }
    var visited := new bool[n](_ => false);
    var ri := rand(0);
    var v := g.VertexAt(ri).value;
    visited[ri] := true;
    g.ViewMirrors(s);
    var path;
    path, q, D := Wander(g, rand, next, running, s, visited, ri, v);
    r := Ok(path);
  }

  /** With distinct names, every accepted draw follows an edge of the matrix. */
  lemma AcceptsStep(s: Snapshot, a: nat, j: nat)
    requires WellFormed(s) && Distinct(s.names) && a < s.n && Accepts(s, a, j)
    ensures Step(s.w, a, j)
  {
    var row := s.w[IndexOf(s.names, s.names[a])];
    IndexOfDistinct(s.names, a);
    var k :| 0 <= k < s.n && s.names[k] == s.names[j] && row[k] > 0;
    assert k == j;
  }

  /** With distinct names, the vertices of a walk follow edges of the matrix. */
  lemma DrawnWalk(s: Snapshot, rand: nat -> nat, D: seq<nat>, q: seq<nat>)
    requires WellFormed(s) && Distinct(s.names) && Drawn(s, rand, D, q)
    ensures Walk(s.w, q)
  {
    forall m | 0 <= m < |q|
      ensures q[m] < s.n
    {
      if m > 0 {
        assert Link(s, rand, D[m - 1], q[m - 1], D[m], q[m]);
      }
    }
    forall m | 0 <= m < |q| - 1
      ensures Step(s.w, q[m], q[m + 1])
    {
      assert Link(s, rand, D[m], q[m], D[m + 1], q[m + 1]);
      AcceptsStep(s, q[m], q[m + 1]);
    }
  }

  /** A finished walk takes at most one step per vertex, and at least one unless the flag
      was down at the first poll or the start has no neighbours. */
  lemma WalkLength(s: Snapshot, rand: nat -> nat, running: nat -> bool, D: seq<nat>, q: seq<nat>, path: string)
    requires WellFormed(s) && Finished(s, rand, running, D, q, path)
    ensures |q| - 1 <= s.n
    ensures running(0) && HasNeighbour(s, q[0]) ==> |q| >= 2
  {
    var p := q[..|q| - 1];
    assert forall t :: 0 <= t < |p| ==> p[t] == q[t];
    DistinctBelow(p, s.n);
  }

  /** With distinct names, the edges a walk passes through, highlighted between
      consecutive names of its path, run from its first vertex to its last, each with a
      positive value, and add up to the weight of the walk. */
  lemma WalkTrail(g: AdjMatrixGraph, s: Snapshot, rand: nat -> nat, D: seq<nat>, q: seq<nat>)
    requires g.Valid() && Distinct(g.vertexes) && s == g.View()
    requires Drawn(s, rand, D, q) && |q| >= 2
    ensures Walk(g.Matrix(), q)
    ensures var hs := Highlights(g, Gather(g.vertexes, q));
      Chain(hs, g.vertexes[q[0]], g.vertexes[q[|q| - 1]]) && Total(hs) == Weight(g.Matrix(), q)
  {
    DrawnWalk(s, rand, D, q);
    WalkHighlights(g, q);
  }
}
