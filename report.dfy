/**
 * The shortest-path reports of the application (calcShortestPath with two words and with
 * one): the result line "(weight): path" for an entry of Dijkstra's result, the edges that
 * the two-word form highlights by splitting the path text on "-->", and the one-word form's
 * listing of every entry.  The application's static graph is passed as `g`.
 */
module PathReport {
  import opened Wrappers
  import opened Seqs
  import opened JavaInt
  import opened Paths
  import opened Graph
  import opened ShortestPaths
  import Text

  /** The answer for a word that is not a vertex. */
  function NotExist(word: string): string
  {
    "\"" + word + "\" is not exist"
  }

  // ---------------------------------------------------------------------------
  // The result line of an entry
  // ---------------------------------------------------------------------------

  /** The line for an entry: its weight in decimal between parentheses, then its text. */
  function EntryLine(e: PathEntry): string
  {
    "(" + Text.IntToString(e.weight) + "): " + e.text
  }

  /** A decimal numeral with an optional minus sign. */
  predicate Numeral(s: string)
  {
    && s != []
    && (s[0] == '-' ==> |s| > 1 && forall i :: 1 <= i < |s| ==> Text.IsDigit(s[i]))
    && (s[0] != '-' ==> forall i :: 0 <= i < |s| ==> Text.IsDigit(s[i]))
  }

  /** Reads an entry back from its line: after the '(' comes a numeral up to the first ')',
      then "): " and the text; None for a line of any other shape. */
  function ReadEntryLine(line: string): Option<PathEntry>
  {
    if line == [] || line[0] != '(' then None else ReadEntryBody(line[1..])
  }

  /** The part of an entry line after its '('. */
  function ReadEntryBody(body: string): Option<PathEntry>
  {
    var c := IndexOf(body, ')');
    if c < 0 then None
    else
      var num, tail := body[..c], body[c..];
      if !Numeral(num) || |tail| < 3 || tail[..3] != "): " then None
      else Some(PathEntry(tail[3..], Text.ParseInt(num)))
  }

  /** The decimal text of an integer is a numeral. */
  lemma IntToStringNumeral(i: int)
    ensures Numeral(Text.IntToString(i))
    ensures ')' !in Text.IntToString(i)
  {
    var d := Text.IntToString(i);
    if i < 0 {
      assert d[1..] == Text.NatToString(-i);
      assert forall k :: 1 <= k < |d| ==> d[k] == d[1..][k - 1];
    }
  }

  /** The part of an entry line after its '(' reads back as the entry. */
  lemma EntryBodyRoundTrip(e: PathEntry)
    ensures ReadEntryBody(Text.IntToString(e.weight) + ("): " + e.text)) == Some(e)
  {
    var d, tail := Text.IntToString(e.weight), "): " + e.text;
    IntToStringNumeral(e.weight);
    IndexOfAfter(d, tail, ')');
    SplitAppend(d, tail);
    SplitAppend("): ", e.text);
    Text.IntToStringRoundTrip(e.weight);
  }

  /** The line of an entry reads back as that entry. */
  lemma EntryLineRoundTrip(e: PathEntry)
    ensures ReadEntryLine(EntryLine(e)) == Some(e)
  {
    var body := Text.IntToString(e.weight) + ("): " + e.text);
    var line := EntryLine(e);
    Assoc(Text.IntToString(e.weight), "): ", e.text);
    Assoc("(", Text.IntToString(e.weight), "): " + e.text);
    assert line == "(" + body;
    SplitAppend("(", body);
    assert line[0] == '(' && line[1..] == body;
    EntryBodyRoundTrip(e);
  }

  // ---------------------------------------------------------------------------
  // The highlighted edges
  // ---------------------------------------------------------------------------

  /** The edges between consecutive names of `nodes`, each with its getEdge value: edge t
      runs from name t to name t + 1. */
  function Highlights(g: AdjMatrixGraph, nodes: seq<string>): (hs: seq<Edge<string>>)
    reads g, g.edges
    requires g.Square()
    ensures |hs| == if |nodes| < 2 then 0 else |nodes| - 1
    ensures forall t :: 0 <= t < |hs| ==> hs[t] == Edge(nodes[t], nodes[t + 1], g.GetEdge(nodes[t], nodes[t + 1]))
    decreases |nodes|
  {
    if |nodes| < 2 then []
    else
      var a, b := nodes[|nodes| - 2], nodes[|nodes| - 1];
      Highlights(g, nodes[..|nodes| - 1]) + [Edge(a, b, g.GetEdge(a, b))]
  }

  /** The sum of the values of the edges. */
  function Total<N>(es: seq<Edge<N>>): int
  {
    if es == [] then 0 else Total(es[..|es| - 1]) + es[|es| - 1].value as int
  }

  /** Edges whose values are the weights between consecutive vertices of a walk add up to
      the walk's weight. */
  lemma {:induction false} TotalWeight<N>(es: seq<Edge<N>>, w: seq<seq<int>>, q: seq<nat>)
    requires Walk(w, q) && q != [] && |es| == |q| - 1
    requires forall t :: 0 <= t < |es| ==> es[t].value as int == w[q[t]][q[t + 1]]
    ensures Total(es) == Weight(w, q)
    decreases |q|
  {
    if |q| >= 2 {
      var q' := q[..|q| - 1];
      assert Walk(w, q');
      TotalWeight(es[..|es| - 1], w, q');
    }
  }

  /** The edges run from `a` to `b`, each into the next, and every one has a positive value. */
  ghost predicate Chain<N>(hs: seq<Edge<N>>, a: N, b: N)
  {
    && hs != [] && hs[0].from == a && hs[|hs| - 1].to == b
    && (forall t :: 0 <= t < |hs| - 1 ==> hs[t].to == hs[t + 1].from)
    && (forall t :: 0 <= t < |hs| ==> hs[t].value > 0)
  }

  /** Positive edges between the names of consecutive vertices of `q` chain its first name
      to its last. */
  lemma ChainAlong<N>(hs: seq<Edge<N>>, names: seq<N>, q: seq<nat>)
    requires |q| >= 2 && |hs| == |q| - 1 && forall t :: 0 <= t < |q| ==> q[t] < |names|
    requires forall t :: 0 <= t < |hs| ==> hs[t].from == names[q[t]] && hs[t].to == names[q[t + 1]] && hs[t].value > 0
    ensures Chain(hs, names[q[0]], names[q[|q| - 1]])
  {
    assert hs[|hs| - 1].to == names[q[|q| - 1]];
  }

  /** With distinct names, the edges highlighted along the names of a walk of two or more
      vertices are the walk's edges between consecutive vertices, each with its matrix entry:
      a chain from its first name to its last whose values add up to the walk's weight. */
  lemma WalkHighlights(g: AdjMatrixGraph, q: seq<nat>)
    requires g.Valid() && Distinct(g.vertexes) && |q| >= 2 && Walk(g.Matrix(), q)
    ensures var hs := Highlights(g, Gather(g.vertexes, q));
      && (forall t :: 0 <= t < |hs| ==> hs[t] == Edge(g.vertexes[q[t]], g.vertexes[q[t + 1]], g.edges[q[t], q[t + 1]]))
      && Chain(hs, g.vertexes[q[0]], g.vertexes[q[|q| - 1]])
      && Total(hs) == Weight(g.Matrix(), q)
  {
    var W, names := g.Matrix(), g.vertexes;
    var hs := Highlights(g, Gather(names, q));
    forall t | 0 <= t < |hs|
      ensures hs[t] == Edge(names[q[t]], names[q[t + 1]], g.edges[q[t], q[t + 1]])
      ensures hs[t].from == names[q[t]] && hs[t].to == names[q[t + 1]]
      ensures hs[t].value as int == W[q[t]][q[t + 1]] && hs[t].value > 0
    {
      IndexOfDistinct(names, q[t]);
      IndexOfDistinct(names, q[t + 1]);
      assert Step(W, q[t], q[t + 1]);
    }
    ChainAlong(hs, names, q);
    TotalWeight(hs, W, q);
  }

  /** The walk of a spelled path: when a reported entry for a vertex other than the start is
      a lightest walk, its highlighted edges run from the start to that vertex, each into the
      next, every one an edge of the graph, and their values add up to the reported weight;
      this needs names that are distinct, contain no '-' and (for the target) are not empty. */
  lemma ShortestHighlights(g: AdjMatrixGraph, s: nat, i: nat, e: PathEntry)
    requires g.Valid() && Distinct(g.vertexes) && forall k :: 0 <= k < |g.vertexes| ==> Text.DashFree(g.vertexes[k])
    requires s < g.size && i < g.size && i != s && g.vertexes[i] != ""
    requires Shortest(g.Matrix(), g.vertexes, s, i, e)
    ensures Chain(Highlights(g, Text.SplitArrow(e.text)), g.vertexes[s], g.vertexes[i])
    ensures Total(Highlights(g, Text.SplitArrow(e.text))) == e.weight
  {
    var W, names := g.Matrix(), g.vertexes;
    var q :| IsPath(W, q, s, i) && Weight(W, q) == e.weight && e.text == Spell(names, q);
    SplitGathered(names, q);
    WalkHighlights(g, q);
  }

  /** Splitting the spelled names of a walk on "-->" gives back the names, when no name has a
      '-' and the last one is not empty. */
  lemma SplitGathered(names: seq<string>, q: seq<nat>)
    requires forall k :: 0 <= k < |names| ==> Text.DashFree(names[k])
    requires q != [] && (forall t :: 0 <= t < |q| ==> q[t] < |names|) && names[q[|q| - 1]] != ""
    ensures Text.SplitArrow(Spell(names, q)) == Gather(names, q)
  {
    var G := Gather(names, q);
    assert forall k :: 0 <= k < |G| ==> Text.DashFree(G[k]);
    Text.SplitArrowJoin(G);
  }

  /** calcShortestPath(word1, word2), the loop over the split path text: an edge from each
      name to the next, with its getEdge value. */
  method PathEdges(g: AdjMatrixGraph, text: string) returns (path: seq<Edge<string>>)
    requires g.Square()
    ensures path == Highlights(g, Text.SplitArrow(text))
  {
    var nodes := Text.SplitArrow(text);
    path := [];
    var preword: Option<string> := None;
    for t := 0 to |nodes|
      invariant preword == if t == 0 then None else Some(nodes[t - 1])
      invariant path == Highlights(g, nodes[..t])
    {
      var node := nodes[t];
      if preword.Some? {
        path := path + [Edge(preword.value, node, g.GetEdge(preword.value, node))];
      }
      preword := Some(node);
      assert nodes[..t + 1][..t] == nodes[..t];
    }
    assert nodes[..|nodes|] == nodes;
  }

  // ---------------------------------------------------------------------------
  // calcShortestPath
  // ---------------------------------------------------------------------------

  /** What Dijkstra's result promises about the entry `e` for vertex `i` from `s`. */
  ghost predicate ReportedAt(w: seq<seq<int>>, names: seq<string>, s: nat, i: nat, e: PathEntry)
    requires IsSquare(w, |names|) && s < |names| && i < |names|
  {
    && e.weight >= -1 && (e.weight == -1 ==> e.text == UnreachableText(names[s], names[i]))
    && (i == s ==> e == if OneHop(w, s) then PathEntry(names[s] + Text.Arrow + names[s], 0)
                        else PathEntry(UnreachableText(names[s], names[s]), -1))
    && (BelowInfinity(w) && i != s ==>
          && (e.weight >= 0 ==> Shortest(w, names, s, i, e))
          && (e.weight < 0 ==> Unreached(w, s, i)))
  }

  /** Each entry of Dijkstra's result keeps the promise for its vertex. */
  lemma ReportedEntry(w: seq<seq<int>>, names: seq<string>, s: nat, r: seq<PathEntry>, i: nat)
    requires IsSquare(w, |names|) && s < |names| && |r| == |names| && i < |names|
    requires Reported(w, names, s, r)
    ensures ReportedAt(w, names, s, i, r[i])
  {
  }

  /**
   * calcShortestPath(word1, word2): "not exist" for whichever word is not a vertex (word1
   * first); otherwise the line of the entry Dijkstra reports for word2, together with the
   * edges along its text that are highlighted in the drawing.
   */
  method CalcShortestPath(g: AdjMatrixGraph, word1: string, word2: string, ghost s: Snapshot)
    returns (r: string, highlight: seq<Edge<string>>, ghost e: PathEntry)
    requires g.Valid() && s == g.View()
    ensures word1 !in s.names ==> r == NotExist(word1) && highlight == []
    ensures word1 in s.names && word2 !in s.names ==> r == NotExist(word2) && highlight == []
    ensures word1 in s.names && word2 in s.names ==>
              && r == EntryLine(e) && highlight == Highlights(g, Text.SplitArrow(e.text))
              && ReportedAt(s.w, s.names, IndexOf(s.names, word1), IndexOf(s.names, word2), e)
  {
    highlight := [];
    e := PathEntry("", 0);
    var paths := g.Dijkstra(word1);
    if paths.None? {
      return NotExist(word1), highlight, e;
    }
    if word2 !in g.GetVertexes() {
      return NotExist(word2), highlight, e;
    }
    var res := paths.value[g.IndexOfVertex(word2)];
    e := res;
    ReportedEntry(s.w, s.names, IndexOf(s.names, word1), paths.value, IndexOf(s.names, word2));
    highlight := PathEdges(g, res.text);
    r := EntryLine(res);
  }

  /** An entry's line of the one-word report: its EntryLine and a newline. */
  function LineOf(e: PathEntry): string
  {
    EntryLine(e) + "\n"
  }

  /** The one-word report: every entry's line, each followed by a newline. */
  function Lines(es: seq<PathEntry>): string
  {
    ConcatMap(es, LineOf)
  }

  /** One more entry adds its line to the report. */
  lemma LinesSnoc(es: seq<PathEntry>, t: nat)
    requires t < |es|
    ensures Lines(es[..t + 1]) == Lines(es[..t]) + LineOf(es[t])
  {
    var pre := es[..t + 1];
    assert pre[..|pre| - 1] == es[..t];
  }

  /** Line t of the report: right after the lines of the entries before it comes the line of
      entry t and a newline. */
  lemma LinesLayout(es: seq<PathEntry>, t: nat)
    requires t < |es|
    ensures var before, line := |Lines(es[..t])|, EntryLine(es[t]) + "\n";
      before + |line| <= |Lines(es)| && Lines(es)[before..before + |line|] == line
  {
    ConcatMapSlice(es, LineOf, t);
  }

  /**
   * calcShortestPath(word1): "not exist" when word1 is not a vertex; otherwise the line of
   * every entry Dijkstra reports from word1, in vertex order, each followed by a newline.
   */
  method CalcShortestPaths(g: AdjMatrixGraph, word1: string, ghost s: Snapshot) returns (r: string, ghost es: seq<PathEntry>)
    requires g.Valid() && s == g.View()
    ensures word1 !in s.names ==> r == NotExist(word1)
    ensures word1 in s.names ==>
              && r == Lines(es) && |es| == s.n
              && Reported(s.w, s.names, IndexOf(s.names, word1), es)
  {
    es := [];
    var paths := g.Dijkstra(word1);
    if paths.None? {
      return NotExist(word1), es;
    }
    var entries := paths.value;
    es := entries;
    r := "";
    for t := 0 to |entries|
      invariant r == Lines(entries[..t])
    {
      var path := entries[t];
      r := r + LineOf(path);
      LinesSnoc(entries, t);
    }
    assert entries[..|entries|] == entries;
  }
}
