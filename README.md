# Word-adjacency graph engine, modelled in Dafny

This project models the core of a small Java console program,
`src/main/java/software/engineer/App.java`. The program reads an English text and builds a
directed graph from it. There is one vertex per distinct lower-case word. An edge `a -> b`
has a weight: the number of times `b` directly follows `a`. The graph answers four kinds of
query:

- the **bridge words** between two words;
- a **new text** with bridge words inserted between neighbouring words;
- **shortest paths** from one word, computed by a Dijkstra-style loop over the adjacency
  matrix;
- a **random walk** along out-edges.

The model follows the source's own structure.

- `AdjMatrixGraph` is a Dafny `class`. It keeps the vertex list as a `seq<string>` field,
  the matrix as an `array2<int32>` and the `size` counter as a field. Its methods change
  them in place the way the Java methods do.
- The loops of the source are methods with `while`/`for` loops and invariants:
  - `getNeighbors`, `getEdges` and `addVertex`;
  - the rounds of `Dijkstra` over the `visit`, `bestmin`, `dis` and `path` arrays;
  - `buildGraph`, `generateNewText` and `randomWalk`;
  - `read_args` and the line loop of `read`.
- Each of these methods is proved against a specification function of its inputs. The
  properties the program promises are then proved about those functions as lemmas.

Modules, one per file:

| file | module | contents |
|---|---|---|
| `wrappers.dfy` | `Wrappers` | `Option` (a Java `null`), `Result`/`Outcome` and the exceptions the source throws |
| `seqs.dfy` | `Seqs` | `indexOf`, distinctness, gathering by indices |
| `javaint.dfy` | `JavaInt` | the 32-bit `int` of Java and its wrap-around on `++` and `+` |
| `text.dfy` | `Text` | `replaceAll("[^A-Za-z]", " ")`, ASCII `toLowerCase`, `split("\\s+")`, joining and splitting on `"-->"`, `Integer.toString` |
| `paths.dfy` | `Paths` | weighted walks in a matrix, and `distance()`'s reading of an entry |
| `shortest.dfy` | `ShortestPaths` | the state of the Dijkstra loop as values, its invariant, and the round lemmas |
| `graph.dfy` | `Graph` | `Edge`, class `AdjMatrixGraph` |
| `app.dfy` | `App` | `buildGraph`, `queryBridgeWords`, `generateNewText` |
| `report.dfy` | `PathReport` | both forms of `calcShortestPath`, and the highlighted edges |
| `walk.dfy` | `Walks` | `randomWalk` |
| `input.dfy` | `Input` | class `InputFile`: `read_args`, `read`, `getWords` |

Inputs that the source takes from its environment are parameters of the model:

- **The static field `App.graph`** is the parameter `g`. A ghost `Snapshot` `s` of it (names,
  matrix as `int`s, `size`) carries the graph into specification functions. This is needed
  because functions cannot read arrays that the methods are proving things about.
- **`java.util.Random`** is a function, and so is the keyboard flag `isRunning`:
  - `generateNewText` gets `pick(k, bound)`, a choice below `bound` for the `k`-th pair.
  - `randomWalk` gets `rand(t)`, the `t`-th `nextInt(size)`.
  - `running(t)` is the flag at the walk's `t`-th poll.
- **The iteration order of the `HashSet`** in `buildGraph` is the parameter `order`: any
  duplicate-free list of exactly the words of the text.
- **The file system** read by `InputFile` is a map from paths to the lines of the file there.

Where the code does something other than its comments or a reader would expect, the model
follows the code:

- **Walk stopping rule.** The comment on `randomWalk` (App.java:553-562) says the walk stops
  at the first repeated edge or at a vertex without out-edges. The code stops at the first
  repeated vertex (App.java:608), and so does the model.
- **Dead ends.** At a vertex without any out-edge the code never stops. See "Findings"; the
  model stops there, as the comment describes and as the code evidently intends.
- **Walk result.** The walk's result is the path text joined with `"-->"` (App.java:619).
  The edge list it builds only feeds the drawing.
- **The start's own Dijkstra entry.** It is `"v-->v"` of weight 0 only once some other vertex
  has been reached. That requires an out-edge of the start below 10000000. Otherwise the
  start is reported with the unreachable text and weight -1, as the fill step at
  App.java:304 makes it.
- **The two-argument constructor.** `AdjMatrixGraph(String[], int[][])` leaves `size` at 0
  (App.java:145-148). The model keeps that.

## Model

| member | source | states |
|---|---|---|
| Input.FlagFrom | src/main/java/software/engineer/App.java:56-64 | the position found is a `-f`/`--file` with an argument after it, with no such option before it; when there is none, no argument before the last is a file option |
| Input.ChosenPathSpec | src/main/java/software/engineer/App.java:56-64 | the first file option followed by an argument decides the path, which is that argument |
| Input.ChosenDefault | src/main/java/software/engineer/App.java:56-64 | without a file option followed by an argument, the path is "article.txt" |
| Input.InputFile.ReadArgs | src/main/java/software/engineer/App.java:56-64 | the path becomes the chosen argument; failing that it stays as it was, or becomes the default when there was none; the words are untouched |
| Input.InputFile.constructor | src/main/java/software/engineer/App.java:47-50 | after `read_args` the path is the one the arguments choose, starting from no path |
| Input.Read | src/main/java/software/engineer/App.java:70-80 | the words are the normalised text of the lines, each line followed by one space |
| Input.WordsOfFile | src/main/java/software/engineer/App.java:78-79 | every word is lower-case ASCII letters; only the first may be empty; together the words spell the file's letters, lower-cased and in order |
| Input.Load | src/main/java/software/engineer/App.java:47-50 | a missing chosen file is the open failure; otherwise a fresh object with the chosen path and the words of that file |
| Text.FilterLetters | src/main/java/software/engineer/App.java:78 | same length; letters stay in place and every other character becomes a space |
| Text.Lower | src/main/java/software/engineer/App.java:79 | same length; A-Z become a-z one by one and every other character is kept |
| Text.SplitSpacesTokens | src/main/java/software/engineer/App.java:79 | the tokens of `split("\\s+")` hold no whitespace; trailing empties are dropped, so only the first may be empty, and it is empty exactly when the string is empty (the single token "") or starts with whitespace, whenever there are any tokens |
| Text.SplitSpacesKeepText | src/main/java/software/engineer/App.java:79 | the tokens, concatenated, are exactly the non-whitespace characters |
| Text.SplitSpacesLower | src/main/java/software/engineer/App.java:79 | lower-casing then splitting equals splitting then lower-casing every token |
| Text.NormaliseTokens | src/main/java/software/engineer/App.java:78-79 | normalised tokens are lower-case words; only the first may be empty, and it is empty exactly when the text is empty (the single token "") or starts with a non-letter, whenever there are any tokens |
| Text.NormaliseKeepsLetters | src/main/java/software/engineer/App.java:78-79 | the normalised tokens concatenate to the text's letters, lower-cased |
| Text.NormaliseIsLoweredTokens | src/main/java/software/engineer/App.java:491-497 | generateNewText's tokens lower-cased are exactly the tokens the input file would give for the same text |
| Text.JoinArrowSnoc | src/main/java/software/engineer/App.java:602 | appending "-->" and a name to a joined path joins the longer list |
| Text.SplitArrowJoin | src/main/java/software/engineer/App.java:533 | splitting a joined path on "-->" gives back its names, when they hold no '-' and the last is not empty |
| Text.IntToStringRoundTrip | src/main/java/software/engineer/App.java:540 | the decimal text of a weight reads back as that weight |
| JavaInt.Wrap32 | src/main/java/software/engineer/App.java:224 | the 32-bit value congruent to the argument modulo 2^32; the argument itself when in range |
| JavaInt.Inc32 | src/main/java/software/engineer/App.java:224 | `++` on an int: one more, except that MaxInt wraps to MinInt |
| Graph.AdjMatrixGraph.FromMatrix | src/main/java/software/engineer/App.java:145-148 | keeps the given names and matrix, and `size` stays 0 |
| Graph.AdjMatrixGraph.FromVertexes | src/main/java/software/engineer/App.java:149-153 | size is the number of names and every entry is 0 |
| Graph.AdjMatrixGraph.constructor | src/main/java/software/engineer/App.java:154-158 | no names, size 0, a consistent empty matrix |
| Graph.AdjMatrixGraph.AddVertex | src/main/java/software/engineer/App.java:165-173 | the name is appended and size grows by one; old entries are kept, and the new row and column are 0 |
| Graph.AdjMatrixGraph.Size | src/main/java/software/engineer/App.java:160-162 | the bound of getVertex(int): the number of names under the size invariant, and 0 after the two-argument constructor |
| Graph.AdjMatrixGraph.GetVertexes | src/main/java/software/engineer/App.java:176-178 | the names in the order they were added: a name is listed iff getVertex(String) finds it, and position i holds getVertex(i) |
| Graph.AdjMatrixGraph.IndexOfVertex | src/main/java/software/engineer/App.java:193-195 | -1 exactly for a non-vertex; otherwise the first position holding the name |
| Graph.AdjMatrixGraph.VertexAt | src/main/java/software/engineer/App.java:198-204 | the name at an index in `0..size`, and IndexOutOfBounds with that index otherwise |
| Graph.AdjMatrixGraph.VertexRoundTrip | src/main/java/software/engineer/App.java:193-204 | with distinct names, index to name to index and name to index to name are identities |
| Graph.AdjMatrixGraph.GetEdge | src/main/java/software/engineer/App.java:244-253 | -1 when either word is not a vertex |
| Graph.AdjMatrixGraph.GetEdgeAt | src/main/java/software/engineer/App.java:244-253 | the entry of the two positions; with non-negative entries, -1 exactly when a word is missing |
| Graph.AdjMatrixGraph.AddEdgeValue | src/main/java/software/engineer/App.java:208-217 | NoSuchVertex with nothing changed iff a word is missing; otherwise the pair's entry is the value and every other entry is unchanged |
| Graph.AdjMatrixGraph.AddEdge | src/main/java/software/engineer/App.java:220-229 | NoSuchVertex with nothing changed iff a word is missing; otherwise the pair's entry is incremented with int wrap-around and every other entry is unchanged |
| Graph.RowNamesSpec | src/main/java/software/engineer/App.java:184-188 | a name is collected from a row iff some column below the bound holds it with a positive entry |
| Graph.AdjMatrixGraph.NeighborsSpec | src/main/java/software/engineer/App.java:181-190 | no neighbours for a non-vertex; otherwise exactly the names at positive entries of the vertex's row |
| Graph.AdjMatrixGraph.NeighborsByEdge | src/main/java/software/engineer/App.java:181-190 | with distinct names, w is a neighbour of v iff w is a vertex and getEdge(v, w) > 0 |
| Graph.AdjMatrixGraph.GetNeighbors | src/main/java/software/engineer/App.java:181-190 | the loop returns the neighbour list of the snapshot |
| Graph.EdgesBeforeSound | src/main/java/software/engineer/App.java:232-241 | every collected edge is a positive entry at a cell before the scan position, in row-major order |
| Graph.EdgesBeforeComplete | src/main/java/software/engineer/App.java:232-241 | every positive entry before the scan position is collected |
| Graph.AdjMatrixGraph.AllEdgesByGetEdge | src/main/java/software/engineer/App.java:232-241 | with distinct names, an edge is listed iff both ends are vertices and its value is the positive getEdge of the pair |
| Graph.AdjMatrixGraph.GetEdges | src/main/java/software/engineer/App.java:232-241 | the nested loops return the row-major edge list |
| Paths.Tentative | src/main/java/software/engineer/App.java:264-267 | a positive entry is its own distance and any other entry is 10000000 |
| Graph.SelectNearest | src/main/java/software/engineer/App.java:284-293 | -1 and 10000000 iff no unvisited vertex is nearer than 10000000; otherwise the first unvisited vertex of least distance |
| Graph.AdjMatrixGraph.Initial | src/main/java/software/engineer/App.java:272-280 | only the start is visited, bestmin is 0, the distances are the start's row, and no texts |
| Graph.AdjMatrixGraph.Relax | src/main/java/software/engineer/App.java:299-305 | the distances and the texts after the relaxation loop of the round that selected k |
| Graph.AdjMatrixGraph.Rounds | src/main/java/software/engineer/App.java:283-306 | after `size` rounds the loop invariant holds and nothing unvisited is nearer than 10000000; some vertex was selected iff the start has a direct edge below 10000000 |
| Graph.AdjMatrixGraph.Collect | src/main/java/software/engineer/App.java:309-316 | one entry per vertex: its text and bestmin, or the unreachable text and -1 |
| Graph.AdjMatrixGraph.Dijkstra | src/main/java/software/engineer/App.java:270-317 | None iff the word is not a vertex; otherwise one entry per vertex as Reported says |
| ShortestPaths.Init | src/main/java/software/engineer/App.java:272-280 | the initial state satisfies the invariant of the main loop |
| ShortestPaths.FirstRound | src/main/java/software/engineer/App.java:284-294 | the first round selects a vertex iff the start has an edge below 10000000 to another vertex |
| ShortestPaths.RoundSettles | src/main/java/software/engineer/App.java:288-296 | the selected vertex's distance is at most the weight of any walk from the start to it |
| ShortestPaths.RoundCut | src/main/java/software/engineer/App.java:299-303 | after relaxing, no unvisited vertex is farther than a visited neighbour plus the edge |
| ShortestPaths.Round | src/main/java/software/engineer/App.java:284-305 | one round (select, mark, relax, fill) preserves the loop invariant |
| ShortestPaths.Final | src/main/java/software/engineer/App.java:309-315 | at the end a non-negative entry spells a lightest walk of its weight, and -1 means no walk lighter than 10000000 |
| ShortestPaths.Conclude | src/main/java/software/engineer/App.java:309-315 | the entries built from the final state are Reported |
| App.PairCountPositions | src/main/java/software/engineer/App.java:409-415 | the pair count is the number of positions where b directly follows a |
| App.BuildGraph | src/main/java/software/engineer/App.java:406-417 | one vertex per distinct word in the set's order; every entry is the pair count of its words, wrapped to int |
| App.BridgesAmongSpec | src/main/java/software/engineer/App.java:446-450 | a word is kept iff it is among the scanned neighbours and word2 is among its own neighbours |
| App.BridgesByEdge | src/main/java/software/engineer/App.java:443-450 | with distinct names, b is a bridge iff all three words are vertices and both edges are positive |
| App.QueryBridgeWords | src/main/java/software/engineer/App.java:443-476 | the loop returns the bridge words in neighbour order, and none when a word is missing |
| App.Pick | src/main/java/software/engineer/App.java:498-503 | a word is inserted iff there are bridges, and it is one of them |
| App.ChosenSpec | src/main/java/software/engineer/App.java:496-503 | a word is inserted before token k iff k > 0 and the lower-cased pair has bridges; it is one of them |
| App.NewTextLayout | src/main/java/software/engineer/App.java:490-509 | each token of the text appears in order, preceded by its inserted bridge word when there is one |
| App.GenerateNewText | src/main/java/software/engineer/App.java:490-509 | the result is the emitted words, each followed by one space |
| PathReport.EntryLineRoundTrip | src/main/java/software/engineer/App.java:540 | the line "(weight): text" reads back as the entry |
| PathReport.Highlights | src/main/java/software/engineer/App.java:533-538 | one edge per consecutive pair of names, valued by getEdge |
| PathReport.PathEdges | src/main/java/software/engineer/App.java:532-538 | the loop returns the highlights of the split path text |
| PathReport.ShortestHighlights | src/main/java/software/engineer/App.java:529-538 | for a shortest entry, the highlighted edges chain from the start to the target and sum to the entry's weight |
| PathReport.WalkHighlights | src/main/java/software/engineer/App.java:533-537 | along a walk, the highlights are its matrix edges; they chain end to end and sum to the walk's weight |
| PathReport.CalcShortestPath | src/main/java/software/engineer/App.java:525-541 | the not-exist answer for a missing word; otherwise the line of the target's entry, which is Reported, and its highlighted edges |
| PathReport.LinesLayout | src/main/java/software/engineer/App.java:546-549 | the t-th line of the listing is the t-th entry's line followed by a newline |
| PathReport.CalcShortestPaths | src/main/java/software/engineer/App.java:543-551 | the not-exist answer for a missing word; otherwise one line per vertex for entries that are Reported |
| Walks.Accepted | src/main/java/software/engineer/App.java:599-600 | from a fair oracle, at a vertex with a neighbour, a later draw is accepted, so the draw loop ends |
| Walks.DrawNeighbour | src/main/java/software/engineer/App.java:599-600 | the draw loop stops at the first later draw whose name is a neighbour, rejecting the draws in between |
| Walks.Move | src/main/java/software/engineer/App.java:595-600 | it moves iff the vertex has a neighbour, and then along a linked draw |
| Walks.DeadEndRejects | src/main/java/software/engineer/App.java:595-600 | as written: at any vertex without neighbours every draw is rejected, so the draw loop never exits |
| Walks.DeadEndSpins | src/main/java/software/engineer/App.java:595-600 | as written: for the one-word text every draw is rejected at the only vertex |
| Walks.WalkOn | src/main/java/software/engineer/App.java:602-610 | a fresh vertex extends the walk under way; a repeated one finishes it; the path gains "-->" and the name |
| Walks.WalkStops | src/main/java/software/engineer/App.java:597-615 | an interrupt, or a vertex without neighbours, finishes the walk where it is |
| Walks.Round | src/main/java/software/engineer/App.java:595-616 | one round finishes the walk or extends it by one fresh vertex, marked visited |
| Walks.Wander | src/main/java/software/engineer/App.java:595-616 | the loop ends with a finished walk |
| Walks.RandomWalk | src/main/java/software/engineer/App.java:563-620 | IllegalArgument for an empty graph; otherwise a finished walk whose path text names its vertices |
| Walks.AcceptsStep | src/main/java/software/engineer/App.java:600 | with distinct names, an accepted draw follows a positive matrix edge |
| Walks.DrawnWalk | src/main/java/software/engineer/App.java:599-610 | with distinct names, the vertices of a walk follow matrix edges |
| Walks.WalkLength | src/main/java/software/engineer/App.java:608-609 | a finished walk takes at most one step per vertex, and at least one when the flag is up at first and the start has a neighbour |
| Walks.WalkTrail | src/main/java/software/engineer/App.java:603 | the edges the walk draws chain from its start to its end and sum to its weight |

## Left out

- Console and GUI I/O are not modelled. This covers `main`'s menu, the console messages of
  `queryBridgeWords`, the graphviz drawing (`showDirectedGraph`, `ImageFrame`),
  `AdjMatrixGraph.print`, `Edge.toString`, the write of `random_walk.txt` and
  `Thread.sleep`. They are output only.
- Opening and reading a file is a lookup in a map of paths to lines. IOExceptions other than
  a missing file are not modelled.
- The keyboard hook that clears `isRunning` runs on another thread. It is the `running`
  oracle, polled once per round as the loop does.
- `Random` is an oracle. `Walks.RandomWalk` assumes a fair draw sequence, in which every
  index comes up again after any draw. Without that, the rejection loop of the source need
  not end either.
- `toLowerCase` uses the default locale. The model assumes a default locale that lowers
  A-Z to a-z. Under a Turkish or Azerbaijani locale the source lowers 'I' to the dotless
  'ı' (U+0131), so "IT" becomes the vertex "ıt" there and "it" in `Text.Lower`.
- Graph.AdjMatrixGraph.Dijkstra: the shortest-path claims need every matrix entry to be
  below 10000000. Above that, Java sums wrap and a missing edge can compete with a real one.
  Only the shape of the result is claimed without this bound.
- Graph.AdjMatrixGraph.Dijkstra:
  - keeps only the start's row of the copied matrix, the only row the source writes;
  - models `int[] visit` as `bool`s.
- Graph.AdjMatrixGraph.FromMatrix: requires a square matrix with one row and one column per
  name. The source accepts any `int[][]`, including ragged or wrongly sized ones.
- Graph.AdjMatrixGraph.FromMatrix: promises only a square matrix, not the size-based
  invariant `Valid()`. The source leaves `size` at 0, and the later calls differ:
  - `getNeighbors`, `getEdges` and `getVertex(int)` see no vertices.
  - `dijkstra` on a vertex word throws ArrayIndexOutOfBounds at `visit[start] = 1`
    (App.java:279), because its arrays have length 0.
  - `addVertex` appends the name but builds a 1x1 zero matrix. This loses every given
    entry and leaves n+1 names over a size-1 matrix.
- Graph.AdjMatrixGraph.Dijkstra and Graph.AdjMatrixGraph.AddVertex: both require `Valid()`,
  which a graph from the two-argument constructor fails once it has a name. So the model does
  not cover the exception and the lost matrix described above.
- Walks.RandomWalk: does not build the `Edge` list `paths`, which only feeds the drawing.
  Walks.WalkTrail states what those edges are.
- Walks.RandomWalk: stops at a vertex without neighbours. There the source loops forever
  (see Findings).
- PathReport.CalcShortestPath: also returns the highlighted edges that the source hands to
  the drawing.
- PathReport.ShortestHighlights: needs a non-empty target name. `"-->"` splitting drops a
  trailing empty piece, and vertex names from the input never contain `-`.
- Helper methods split the source's loops into rounds. This is the same loop. The helpers
  are `App.KeepBridges`, `App.WriteBridge`, `App.WriteTokens`, `Graph.AdjMatrixGraph.RelaxAt`,
  `Graph.AdjMatrixGraph.Advance`, `Walks.Round` and `Walks.Wander`.

## Findings

| source | as written | input that shows it | evidently intended | confidence | as-written member | corrected member |
|---|---|---|---|---|---|---|
| src/main/java/software/engineer/App.java:595-600 | at a vertex without out-edges `getNeighbors` returns an empty list, never `null`, so the loop goes on; the draw loop `while (!neighbors.contains(...))` then never ends | the one-word text "a" (one vertex, no edge) with the flag up: the start is "a" and no draw is ever accepted | the walk stops at a vertex without out-edges, as the method's comment says | high; not executed | Walks.DeadEndSpins | Walks.RandomWalk |
