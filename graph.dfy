/**
 * The directed weighted word graph: class AdjMatrixGraph keeps the vertex names in a list
 * and the edge weights in a square matrix of Java ints (an entry greater than 0 is an edge
 * of that weight; 0 is no edge).  A vertex is addressed by its position in the list; for a
 * name, that is its first occurrence.
 */
module Graph {
  import opened Wrappers
  import opened Seqs
  import opened Paths
  import opened JavaInt
  import opened ShortestPaths

  import Text

  /** The record Edge(from, to, value) over vertex names of type N (the graph's are strings);
      equality is structural, as the record's equals. */
  datatype Edge<N> = Edge(from: N, to: N, value: int32)

  /**
   * Step 1 of a Dijkstra round: the first unvisited vertex whose tentative distance from the
   * start is smallest, and that distance; -1 and Infinity when every unvisited vertex is at
   * distance Infinity.
   */
  method SelectNearest(visit: array<bool>, dis: array<int>) returns (k: int, dtemp: int)
    requires visit.Length == dis.Length
    ensures k == -1 <==> Exhausted(visit[..], dis[..])
    ensures k == -1 ==> dtemp == Infinity
    ensures k != -1 ==> 0 <= k < visit.Length && IsNearest(visit[..], dis[..], k) && dtemp == Tentative(dis[k])
    ensures k != -1 ==> forall i :: 0 <= i < k && !visit[i] ==> dtemp < Tentative(dis[i])
  {
    dtemp, k := Infinity, -1;
    for i := 0 to visit.Length
      invariant -1 <= k < i
      invariant k == -1 ==> dtemp == Infinity
      invariant k != -1 ==> !visit[k] && dtemp == Tentative(dis[k]) < Infinity
      invariant forall j :: 0 <= j < i && !visit[j] ==> dtemp <= Tentative(dis[j])
      invariant forall j :: 0 <= j < k && !visit[j] ==> dtemp < Tentative(dis[j])
    {
      if !visit[i] && Tentative(dis[i]) < dtemp {
        dtemp, k := Tentative(dis[i]), i;
      }
    }
  }

  /** The names at the positions below `m` whose entry in `row` is an edge, in position order. */
  function RowNames(names: seq<string>, row: seq<int>, m: nat): seq<string>
    requires m <= |row| && m <= |names|
    decreases m
  {
    if m == 0 then [] else RowNames(names, row, m - 1) + (if row[m - 1] > 0 then [names[m - 1]] else [])
  }

  /** A name is listed exactly when it sits at a position below `m` with a positive entry. */
  lemma {:induction false} RowNamesSpec(names: seq<string>, row: seq<int>, m: nat, x: string)
    requires m <= |row| && m <= |names|
    ensures x in RowNames(names, row, m) <==> exists j :: 0 <= j < m && names[j] == x && row[j] > 0
    decreases m
  {
    if m > 0 {
      RowNamesSpec(names, row, m - 1, x);
      if names[m - 1] == x && row[m - 1] > 0 {
        assert x in RowNames(names, row, m);
      }
    }
  }

  /** `order` lists the visited vertices, each once: the order in which Dijkstra selects them. */
  ghost predicate SelectionOrder(visited: seq<bool>, order: seq<nat>)
  {
    && Distinct(order)
    && (forall t :: 0 <= t < |order| ==> order[t] < |visited|)
    && (forall i :: 0 <= i < |visited| ==> (visited[i] <==> i in order))
  }

  /** One round of the main loop: a selected vertex joins the order, and a round that selects
      nothing leaves a state in which nothing unvisited is nearer than Infinity. */
  lemma SelectionRound(vis0: seq<bool>, dis0: seq<int>, vis1: seq<bool>, dis1: seq<int>,
                       order: seq<nat>, k: int, l: nat) returns (order1: seq<nat>)
    requires |vis0| == |dis0| && |vis1| == |dis1| && SelectionOrder(vis0, order)
    requires Exhausted(vis0, dis0) || |order| == l + 1
    requires k == -1 ==> Exhausted(vis0, dis0) && vis1 == vis0 && dis1 == dis0
    requires k != -1 ==> 0 <= k && IsNearest(vis0, dis0, k) && vis1 == vis0[k := true]
    ensures SelectionOrder(vis1, order1)
    ensures Exhausted(vis1, dis1) || |order1| == l + 2
  {
    order1 := order;
    if k != -1 {
      SelectionStep(vis0, order, k);
      order1 := order + [k];
    }
  }

  /** Selecting an unvisited vertex appends it to the order. */
  lemma SelectionStep(visited: seq<bool>, order: seq<nat>, k: nat)
    requires SelectionOrder(visited, order) && k < |visited| && !visited[k]
    ensures SelectionOrder(visited[k := true], order + [k])
  {
    forall t | 0 <= t < |order| ensures (order + [k])[t] != k {
      assert visited[order[t]];
    }
  }

  /** A graph as a value: its names, its weights as exact integers and its vertex count. */
  datatype Snapshot = Snapshot(names: seq<string>, w: seq<seq<int>>, n: nat)

  /** The weights are square with a row per name, and the count is at most the names. */
  predicate WellFormed(s: Snapshot)
  {
    IsSquare(s.w, |s.names|) && s.n <= |s.names|
  }

  /** The names of the vertices among the first `n` that `v` has an edge to, in vertex order;
      none when `v` is not a name. */
  function NeighborsIn(s: Snapshot, v: string): seq<string>
    requires WellFormed(s)
  {
    if v in s.names then RowNames(s.names, s.w[IndexOf(s.names, v)], s.n) else []
  }

  /** `n` names, and at least `n` rows of at least `n` stored weights. */
  predicate Fits<N>(names: seq<N>, cells: seq<seq<int32>>, n: nat)
  {
    n <= |names| && n <= |cells| && forall i :: 0 <= i < n ==> n <= |cells[i]|
  }

  /** The edge stored at row `i`, column `j`: one when its weight is positive, none otherwise. */
  function Cell<N>(names: seq<N>, cells: seq<seq<int32>>, n: nat, i: nat, j: nat): seq<Edge<N>>
    requires Fits(names, cells, n) && i < n && j < n
  {
    if cells[i][j] > 0 then [Edge(names[i], names[j], cells[i][j])] else []
  }

  /** Position (a, b) comes before position (i, j) in row-major order. */
  predicate Before(a: nat, b: nat, i: nat, j: nat)
  {
    a < i || (a == i && b < j)
  }

  /** (i, j) is a position of an n-by-n matrix, or the position just after its last one. */
  predicate Bound(n: nat, i: nat, j: nat)
  {
    i <= n && j <= n && (i == n ==> j == 0)
  }

  /** The stored edges at the positions before (i, j), in row-major order. */
  function EdgesBefore<N>(names: seq<N>, cells: seq<seq<int32>>, n: nat, i: nat, j: nat): seq<Edge<N>>
    requires Fits(names, cells, n) && Bound(n, i, j)
    decreases i, j
  {
    if j > 0 then EdgesBefore(names, cells, n, i, j - 1) + Cell(names, cells, n, i, j - 1)
    else if i > 0 then EdgesBefore(names, cells, n, i - 1, n)
    else []
  }

  /** `e` is the edge stored at row `i`, column `j`: a positive weight between those names. */
  predicate EdgeAt<N(==)>(names: seq<N>, cells: seq<seq<int32>>, n: nat, i: nat, j: nat, e: Edge<N>)
    requires Fits(names, cells, n) && i < n && j < n
  {
    cells[i][j] > 0 && e == Edge(names[i], names[j], cells[i][j])
  }

  /** Only edges stored before (i, j) are listed. */
  lemma {:induction false} EdgesBeforeSound<N>(names: seq<N>, cells: seq<seq<int32>>, n: nat, i: nat, j: nat, e: Edge<N>)
    requires Fits(names, cells, n) && Bound(n, i, j)
    requires e in EdgesBefore(names, cells, n, i, j)
    ensures exists a, b :: 0 <= a < n && 0 <= b < n && Before(a, b, i, j) && EdgeAt(names, cells, n, a, b, e)
    decreases i, j
  {
    if j > 0 {
      InAppend(EdgesBefore(names, cells, n, i, j - 1), Cell(names, cells, n, i, j - 1), e);
      if e in EdgesBefore(names, cells, n, i, j - 1) {
        EdgesBeforeSound(names, cells, n, i, j - 1, e);
      } else {
        assert EdgeAt(names, cells, n, i, j - 1, e);
      }
    } else {
      EdgesBeforeSound(names, cells, n, i - 1, n, e);
    }
  }

  /** Every edge stored before (i, j) is listed. */
  lemma {:induction false} EdgesBeforeComplete<N>(names: seq<N>, cells: seq<seq<int32>>, n: nat, i: nat, j: nat,
                                                       a: nat, b: nat, e: Edge<N>)
    requires Fits(names, cells, n) && Bound(n, i, j)
    requires a < n && b < n && Before(a, b, i, j) && EdgeAt(names, cells, n, a, b, e)
    ensures e in EdgesBefore(names, cells, n, i, j)
    decreases i, j
  {
    if j > 0 {
      InAppend(EdgesBefore(names, cells, n, i, j - 1), Cell(names, cells, n, i, j - 1), e);
      if Before(a, b, i, j - 1) {
        EdgesBeforeComplete(names, cells, n, i, j - 1, a, b, e);
      }
    } else {
      EdgesBeforeComplete(names, cells, n, i - 1, n, a, b, e);
    }
  }

  class AdjMatrixGraph {
    var vertexes: seq<string>
    var edges: array2<int32>
    var size: nat

    /** The matrix is square with a row per vertex name, and `size` counts no more names
        than there are. */
    ghost predicate Square()
      reads this
    {
      edges.Length0 == |vertexes| && edges.Length1 == |vertexes| && size <= |vertexes|
    }

    /** Every name is counted by `size`; all constructors but the one taking a matrix, and
        every addVertex, keep this. */
    ghost predicate Valid()
      reads this
    {
      Square() && size == |vertexes|
    }

    /** AdjMatrixGraph(String[], int[][]): shares the given matrix and never sets `size`,
        which therefore stays 0. */
    constructor FromMatrix(vertexes: seq<string>, edges: array2<int32>)
      requires edges.Length0 == |vertexes| && edges.Length1 == |vertexes|
      ensures this.vertexes == vertexes && this.edges == edges && size == 0
      ensures Square() && Size() == 0
    {
      this.vertexes := vertexes;
      this.edges := edges;
      size := 0;
    }

    /** AdjMatrixGraph(String[]): the given names and no edges. */
    constructor FromVertexes(vertexes: seq<string>)
      ensures Valid() && this.vertexes == vertexes && fresh(edges)
      ensures forall i, j :: 0 <= i < size && 0 <= j < size ==> edges[i, j] == 0
    {
      this.vertexes := vertexes;
      size := |vertexes|;
      edges := new int32[|vertexes|, |vertexes|]((i, j) => 0);
    }

    /** AdjMatrixGraph(): no vertices. */
    constructor ()
      ensures Valid() && vertexes == [] && fresh(edges)
    {
      vertexes := [];
      size := 0;
      edges := new int32[0, 0];
    }

    /** size(): the bound of getVertex(int); the number of names once `size` is kept up to
        date, and 0 after FromMatrix. */
    function Size(): (r: nat)
      reads this
      ensures Valid() ==> r == |vertexes|
      ensures Square() ==> forall i: int :: VertexAt(i).Ok? <==> 0 <= i < r
    {
      size
    }

    /** getVertexes(): the names in the order they were added; a name is listed exactly when
        getVertex(String) finds it, and position i holds what getVertex(i) returns. */
    function GetVertexes(): (r: seq<string>)
      reads this
      ensures forall w :: w in r <==> IndexOfVertex(w) != -1
      ensures Valid() ==> |r| == Size() && forall i :: 0 <= i < |r| ==> VertexAt(i) == Ok(r[i])
    {
      vertexes
    }

    /** getVertex(String): the position of the first occurrence of the name, -1 if absent. */
    function IndexOfVertex(vertex: string): (r: int)
      reads this
      ensures r == -1 <==> vertex !in vertexes
      ensures r != -1 ==> 0 <= r < |vertexes| && vertexes[r] == vertex && vertex !in vertexes[..r]
    {
      IndexOf(vertexes, vertex)
    }

    /** getVertex(int): the name at a position below `size`; IndexOutOfBounds otherwise. */
    function VertexAt(index: int): (r: Result<string>)
      reads this
      requires Square()
      ensures r.Ok? <==> 0 <= index < size
      ensures r.Ok? ==> r.value == vertexes[index] && IndexOfVertex(r.value) <= index
      ensures r.Err? ==> r.error == IndexOutOfBounds(index)
    {
      if 0 <= index < size then Ok(vertexes[index]) else Err(IndexOutOfBounds(index))
    }

    /** With distinct names, position and name address a vertex interchangeably. */
    lemma VertexRoundTrip(index: nat, name: string)
      requires Valid() && Distinct(vertexes)
      ensures index < size ==> IndexOfVertex(VertexAt(index).value) == index
      ensures name in vertexes ==> VertexAt(IndexOfVertex(name)) == Ok(name)
    {
      if index < size {
        IndexOfDistinct(vertexes, index);
      }
    }

    /** The matrix as a value: entry [i][j] is the weight from vertex i to vertex j. */
    ghost function Matrix(): (w: seq<seq<int>>)
      reads this, edges
      requires Square()
      ensures IsSquare(w, |vertexes|)
      ensures forall i, j :: 0 <= i < |vertexes| && 0 <= j < |vertexes| ==> w[i][j] == edges[i, j] as int
    {
      var e := edges;
      seq(e.Length0, i requires 0 <= i < e.Length0 reads e =>
        seq(e.Length1, j requires 0 <= j < e.Length1 reads e => e[i, j] as int))
    }

    /** getEdge: the entry between the first occurrences of the two names; -1 when either
        name is not a vertex. */
    function GetEdge(a: string, b: string): (r: int32)
      reads this, edges
      requires Square()
      ensures a !in vertexes || b !in vertexes ==> r == -1
    {
      if a in vertexes && b in vertexes then
        edges[IndexOf(vertexes, a), IndexOf(vertexes, b)]
      else
        -1
    }

    /** getEdge reads the entry between the first occurrences of the two names. */
    lemma GetEdgeFirst(a: string, b: string, i: nat, j: nat)
      requires Square() && i < |vertexes| && j < |vertexes|
      requires vertexes[i] == a && a !in vertexes[..i] && vertexes[j] == b && b !in vertexes[..j]
      ensures GetEdge(a, b) == edges[i, j]
    {
    }

    /** No entry of the matrix is negative.  addEdge(a, b, value) can store a negative value, and
        2^31 increments of one pair by addEdge(a, b) wrap its entry round to MinInt. */
    ghost predicate NonNegative()
      reads this, edges
    {
      forall i, j :: 0 <= i < edges.Length0 && 0 <= j < edges.Length1 ==> edges[i, j] >= 0
    }

    /** With distinct names, getEdge reads exactly the entry of the two vertices; with no
        negative entry, -1 means precisely that a name is missing. */
    lemma GetEdgeAt(i: nat, j: nat, a: string, b: string)
      requires Square()
      ensures Distinct(vertexes) && i < |vertexes| && j < |vertexes| ==> GetEdge(vertexes[i], vertexes[j]) == edges[i, j]
      ensures NonNegative() ==> (GetEdge(a, b) == -1 <==> a !in vertexes || b !in vertexes)
    {
      if Distinct(vertexes) && i < |vertexes| && j < |vertexes| {
        IndexOfDistinct(vertexes, i);
        IndexOfDistinct(vertexes, j);
      }
    }

    /** addVertex: appends the name and grows the matrix by a zero row and column. */
    method AddVertex(vertex: string)
      requires Valid()
      modifies this
      ensures Valid() && fresh(edges)
      ensures vertexes == old(vertexes) + [vertex] && size == old(size) + 1
      ensures forall i, j :: 0 <= i < size && 0 <= j < size ==>
                edges[i, j] == if i < old(size) && j < old(size) then old(edges[i, j]) else 0
    {
      vertexes := vertexes + [vertex];
      var n := size;
      var newEdges := new int32[n + 1, n + 1]((i, j) => 0);
      for i := 0 to n
        modifies newEdges
        invariant forall p, q :: 0 <= p < n + 1 && 0 <= q < n + 1 ==>
                    newEdges[p, q] == if p < i && q < n then edges[p, q] else 0
      {
        for j := 0 to n
          modifies newEdges
          invariant forall p, q :: 0 <= p < n + 1 && 0 <= q < n + 1 ==>
                      newEdges[p, q] == if (p < i && q < n) || (p == i && q < j) then edges[p, q] else 0
        {
          newEdges[i, j] := edges[i, j];
        }
      }
      edges := newEdges;
      size := size + 1;
    }

    /** addEdge(a, b, value): sets the entry of the two vertices; NoSuchVertex, and nothing
        changes, when either name is missing. */
    method AddEdgeValue(a: string, b: string, value: int32) returns (r: Outcome)
      requires Square()
      modifies edges
      ensures r.Pass? <==> a in vertexes && b in vertexes
      ensures r.Fail? ==> r.error == NoSuchVertex && unchanged(edges)
      ensures r.Pass? ==> GetEdge(a, b) == value
      ensures forall x, y :: x != a || y != b ==> GetEdge(x, y) == old(GetEdge(x, y))
      ensures r.Pass? ==> forall i, j :: 0 <= i < |vertexes| && 0 <= j < |vertexes| ==>
                edges[i, j] == if i == IndexOf(vertexes, a) && j == IndexOf(vertexes, b) then value else old(edges[i, j])
    {
      if a in vertexes && b in vertexes {
        var ia, ib := IndexOf(vertexes, a), IndexOf(vertexes, b);
        edges[ia, ib] := value;
        r := Pass;
      } else {
        r := Fail(NoSuchVertex);
      }
    }

    /** addEdge(a, b): adds one to the entry of the two vertices, wrapping around as a Java
        int; NoSuchVertex, and nothing changes, when either name is missing. */
    method AddEdge(a: string, b: string) returns (r: Outcome)
      requires Square()
      modifies edges
      ensures r.Pass? <==> a in vertexes && b in vertexes
      ensures r.Fail? ==> r.error == NoSuchVertex && unchanged(edges)
      ensures r.Pass? ==> GetEdge(a, b) == Inc32(old(GetEdge(a, b)))
      ensures forall x, y :: x != a || y != b ==> GetEdge(x, y) == old(GetEdge(x, y))
      ensures r.Pass? ==> forall i, j :: 0 <= i < |vertexes| && 0 <= j < |vertexes| ==>
                edges[i, j] == if i == IndexOf(vertexes, a) && j == IndexOf(vertexes, b) then Inc32(old(edges[i, j])) else old(edges[i, j])
    {
      if a in vertexes && b in vertexes {
        var ia, ib := IndexOf(vertexes, a), IndexOf(vertexes, b);
        edges[ia, ib] := Inc32(edges[ia, ib]);
        r := Pass;
      } else {
        r := Fail(NoSuchVertex);
      }
    }

    /** The matrix as Java ints: entry [i][j] is the stored weight from vertex i to j. */
    ghost function Cells(): (c: seq<seq<int32>>)
      reads this, edges
      requires Square()
      ensures |c| == |vertexes| && forall i :: 0 <= i < |c| ==> |c[i]| == |vertexes|
      ensures forall i, j :: 0 <= i < |vertexes| && 0 <= j < |vertexes| ==> c[i][j] == edges[i, j]
    {
      var e := edges;
      seq(e.Length0, i requires 0 <= i < e.Length0 reads e =>
        seq(e.Length1, j requires 0 <= j < e.Length1 reads e => e[i, j]))
    }

    /** The graph as a value. */
    ghost function View(): (s: Snapshot)
      reads this, edges
      requires Square()
      ensures WellFormed(s)
    {
      Snapshot(vertexes, Matrix(), size)
    }

    /** `s` is this graph as a value, stated entry by entry. */
    ghost predicate Mirrors(s: Snapshot)
      reads this, edges
    {
      && Square() && s.names == vertexes && s.n == size && IsSquare(s.w, |vertexes|)
      && forall i, j :: 0 <= i < |vertexes| && 0 <= j < |vertexes| ==> s.w[i][j] == edges[i, j] as int
    }

    /** A value that agrees with the graph entry by entry is its view. */
    lemma MirrorsView(s: Snapshot)
      requires Mirrors(s)
      ensures s == View()
    {
      var w := Matrix();
      forall i | 0 <= i < |vertexes| ensures s.w[i] == w[i] {
        assert forall j :: 0 <= j < |vertexes| ==> s.w[i][j] == w[i][j];
      }
    }

    /** The view agrees with the graph entry by entry. */
    lemma ViewMirrors(s: Snapshot)
      requires Square() && s == View()
      ensures Mirrors(s)
    {
    }

    /** The neighbours of `v` in this graph. */
    ghost function Neighbors(v: string): seq<string>
      reads this, edges
      requires Square()
    {
      NeighborsIn(View(), v)
    }

    /** The neighbours of a vertex are the names at the positions its row has an edge to;
        a name that is not a vertex has none. */
    lemma NeighborsSpec(v: string)
      requires Square()
      ensures v !in vertexes ==> Neighbors(v) == []
      ensures v in vertexes ==> forall j :: 0 <= j < size && edges[IndexOf(vertexes, v), j] > 0 ==> vertexes[j] in Neighbors(v)
      ensures forall w :: w in Neighbors(v) ==> exists j :: 0 <= j < size && vertexes[j] == w && edges[IndexOf(vertexes, v), j] > 0
    {
      if v in vertexes {
        var row := Matrix()[IndexOf(vertexes, v)];
        forall j | 0 <= j < size && edges[IndexOf(vertexes, v), j] > 0 ensures vertexes[j] in Neighbors(v) {
          RowNamesSpec(vertexes, row, size, vertexes[j]);
        }
        forall w | w in Neighbors(v)
          ensures exists j :: 0 <= j < size && vertexes[j] == w && edges[IndexOf(vertexes, v), j] > 0
        {
          RowNamesSpec(vertexes, row, size, w);
        }
      }
    }

    /** With distinct names, w is a neighbour of v exactly when getEdge(v, w) is positive. */
    lemma NeighborsByEdge(v: string, w: string)
      requires Square() && Distinct(vertexes)
      ensures w in Neighbors(v) <==> w in vertexes[..size] && GetEdge(v, w) > 0
    {
      NeighborsSpec(v);
      if w in Neighbors(v) {
        var j :| 0 <= j < size && vertexes[j] == w && edges[IndexOf(vertexes, v), j] > 0;
        IndexOfDistinct(vertexes, j);
        assert vertexes[..size][j] == w;
      }
      if w in vertexes[..size] && GetEdge(v, w) > 0 {
        var j := IndexOf(vertexes[..size], w);
        IndexOfDistinct(vertexes, j);
      }
    }

    /** getNeighbors. */
    method GetNeighbors(v: string, ghost s: Snapshot) returns (results: seq<string>)
      requires Square() && s == View()
      ensures results == NeighborsIn(s, v)
    {
      results := [];
      if v in vertexes {
        var index := IndexOf(vertexes, v);
        ghost var row := Matrix()[index];
        for i := 0 to size
          invariant results == RowNames(vertexes, row, i)
        {
          if edges[index, i] > 0 {
            results := results + [vertexes[i]];
          }
        }
      }
    }

    /** Every edge of the graph in row-major order. */
    ghost function AllEdges(): seq<Edge<string>>
      reads this, edges
      requires Square()
    {
      EdgesBefore(vertexes, Cells(), size, size, 0)
    }

    /** With distinct names, the listed edges are exactly the positive getEdge values. */
    lemma AllEdgesByGetEdge(e: Edge<string>)
      requires Valid() && Distinct(vertexes)
      ensures e in AllEdges() <==> e.from in vertexes && e.to in vertexes && e.value > 0 && GetEdge(e.from, e.to) == e.value
    {
      var C := Cells();
      if e in AllEdges() {
        EdgesBeforeSound(vertexes, C, size, size, 0, e);
        var i, j :| 0 <= i < size && 0 <= j < size && Before(i, j, size, 0) && EdgeAt(vertexes, C, size, i, j, e);
        GetEdgeAt(i, j, e.from, e.to);
      }
      if e.from in vertexes && e.to in vertexes && e.value > 0 && GetEdge(e.from, e.to) == e.value {
        var i, j := IndexOf(vertexes, e.from), IndexOf(vertexes, e.to);
        assert EdgeAt(vertexes, C, size, i, j, e);
        EdgesBeforeComplete(vertexes, C, size, size, 0, i, j, e);
      }
    }

    /** getEdges. */
    method GetEdges() returns (results: seq<Edge<string>>)
      requires Square()
      ensures results == AllEdges()
    {
      ghost var C := Cells();
      assert Fits(vertexes, C, size);
      results := [];
      for i := 0 to size
        invariant results == EdgesBefore(vertexes, C, size, i, 0)
      {
        for j := 0 to size
          invariant results == EdgesBefore(vertexes, C, size, i, j)
        {
          assert C[i][j] == edges[i, j];
          if edges[i, j] > 0 {
            results := results + [Edge(vertexes[i], vertexes[j], edges[i, j])];
          }
        }
      }
    }

    /**
     * Steps 2 and 3 of a Dijkstra round that selected `k`: relax every unvisited vertex
     * through k, then give a start-to-vertex text to every vertex without one that is
     * settled (or is the start).
     */
    method Relax(v: string, start: nat, k: nat, visit: array<bool>, bestmin: array<int>,
                 dis: array<int>, path: array<Option<string>>, ghost W: seq<seq<int>>)
      requires Valid() && start < size && k < size && vertexes[start] == v && W == Matrix()
      requires visit.Length == size && bestmin.Length == size && dis.Length == size && path.Length == size
      requires bestmin != dis
      requires visit[k] && bestmin[k] > 0
      modifies dis, path
      ensures dis[..] == RelaxAll(W, visit[..], old(dis[..]), k)
      ensures path[..] == FillAll(W, vertexes, start, visit[..], bestmin[..], old(dis[..]), old(path[..]), k)
    {
      ghost var vis, best, dist0, path0 := visit[..], bestmin[..], dis[..], path[..];
      ghost var R, F := RelaxAll(W, vis, dist0, k), FillAll(W, vertexes, start, vis, best, dist0, path0, k);
      assert forall j :: 0 <= j < size ==> edges[k, j] as int == W[k][j];
      for i := 0 to size
        invariant dis[..] == R[..i] + dist0[i..]
        invariant path[..] == F[..i] + path0[i..]
        invariant visit[..] == vis && bestmin[..] == best
      {
        RelaxAt(v, start, k, i, visit, bestmin, dis, path, W, vis, best, dist0, path0, R, F);
      }
    }

    /** One pass of the relaxation loop: vertex i gets its relaxed distance and its text. */
    method RelaxAt(v: string, start: nat, k: nat, i: nat, visit: array<bool>, bestmin: array<int>,
                   dis: array<int>, path: array<Option<string>>, ghost W: seq<seq<int>>, ghost vis: seq<bool>,
                   ghost best: seq<int>, ghost dist0: seq<int>, ghost path0: seq<Option<string>>,
                   ghost R: seq<int>, ghost F: seq<Option<string>>)
      requires Valid() && start < size && k < size && i < size && vertexes[start] == v
      requires IsSquare(W, size) && edges[k, i] as int == W[k][i]
      requires visit.Length == size && bestmin.Length == size && dis.Length == size && path.Length == size
      requires visit[..] == vis && bestmin[..] == best && |dist0| == size && |path0| == size
      requires vis[k] && best[k] > 0
      requires R == RelaxAll(W, vis, dist0, k) && F == FillAll(W, vertexes, start, vis, best, dist0, path0, k)
      requires dis[..] == R[..i] + dist0[i..] && path[..] == F[..i] + path0[i..]
      modifies dis, path
      ensures dis[..] == R[..i + 1] + dist0[i + 1..] && path[..] == F[..i + 1] + path0[i + 1..]
    {
      assert dis[k] == dist0[k];
      assert Through(vertexes, start, k, path[k]) == Through(vertexes, start, k, path0[k]);
      var d, p := dis[i], path[i];
      var via := Wrap32(Tentative(dis[k]) + Tentative(edges[k, i] as int)) as int;
      if !visit[i] && via < Tentative(d) {
        d := via;
        p := Some((if path[k].None? then v + Text.Arrow + vertexes[k] else path[k].value) + Text.Arrow + vertexes[i]);
      }
      if p.None? && (bestmin[i] > 0 || i == start) {
        p := Some(v + Text.Arrow + vertexes[i]);
      }
      assert d == R[i] && p == F[i];
      SpliceStep(R, dist0, i);
      SpliceStep(F, path0, i);
      dis[i], path[i] := d, p;
    }

    /**
     * One round of dijkstra()'s main loop: select the nearest unvisited vertex and, if there
     * is one, mark it visited at its distance and relax through it.  The invariant is kept;
     * when there is none (-1), nothing changes.
     */
    method Advance(v: string, start: nat, visit: array<bool>, bestmin: array<int>, dis: array<int>,
                   path: array<Option<string>>, ghost W: seq<seq<int>>, ghost P: seq<seq<nat>>, ghost selected: bool)
      returns (k: int, ghost P1: seq<seq<nat>>, ghost selected1: bool)
      requires Valid() && start < size && vertexes[start] == v && W == Matrix()
      requires visit.Length == size && bestmin.Length == size && dis.Length == size && path.Length == size
      requires bestmin != dis
      requires Basic(W, vertexes, start, visit[..], bestmin[..], dis[..], path[..], P, selected)
      requires BelowInfinity(W) ==> Correct(W, vertexes, start, visit[..], bestmin[..], dis[..], path[..], P)
      modifies visit, bestmin, dis, path
      ensures -1 <= k < size && selected1 == (selected || k != -1)
      ensures k == -1 ==> Exhausted(old(visit[..]), old(dis[..])) && unchanged(visit, bestmin, dis, path)
      ensures k != -1 ==> IsNearest(old(visit[..]), old(dis[..]), k) && visit[..] == old(visit[..])[k := true]
      ensures Basic(W, vertexes, start, visit[..], bestmin[..], dis[..], path[..], P1, selected1)
      ensures BelowInfinity(W) ==> Correct(W, vertexes, start, visit[..], bestmin[..], dis[..], path[..], P1)
    {
      var dtemp;
      k, dtemp := SelectNearest(visit, dis);
      P1, selected1 := P, selected;
      ghost var vis0, best0, dist0, path0 := visit[..], bestmin[..], dis[..], path[..];
      if k != -1 {
        visit[k] := true;
        bestmin[k] := dtemp;
        assert visit[..] == vis0[k := true];
        assert bestmin[..] == best0[k := dist0[k]];
        Relax(v, start, k, visit, bestmin, dis, path, W);
        P1, selected1 := ExtendAll(W, visit[..], dist0, k, P), true;
        Round(W, vertexes, start, vis0, best0, dist0, path0, P, selected, k, visit[..], bestmin[..], dis[..], path[..], P1);
      } else {
        assert visit[..] == vis0 && bestmin[..] == best0 && dis[..] == dist0 && path[..] == path0;
      }
    }

    /**
     * The main loop of dijkstra(): `size` rounds from the state right after initialisation.
     * Afterwards no unvisited vertex is nearer than Infinity, and the start has a text
     * exactly when some other vertex has an edge from it below Infinity.
     */
    method Rounds(v: string, start: nat, visit: array<bool>, bestmin: array<int>, dis: array<int>,
                  path: array<Option<string>>, ghost W: seq<seq<int>>) returns (ghost P: seq<seq<nat>>, ghost selected: bool)
      requires Valid() && start < size && vertexes[start] == v && W == Matrix()
      requires visit.Length == size && bestmin.Length == size && dis.Length == size && path.Length == size
      requires bestmin != dis
      requires visit[..] == Unvisited(size, start) && bestmin[..] == Zeros(size)
      requires dis[..] == W[start] && path[..] == Nulls(size)
      modifies visit, bestmin, dis, path
      ensures Basic(W, vertexes, start, visit[..], bestmin[..], dis[..], path[..], P, selected)
      ensures BelowInfinity(W) ==> Correct(W, vertexes, start, visit[..], bestmin[..], dis[..], path[..], P)
      ensures Exhausted(visit[..], dis[..])
      ensures selected <==> OneHop(W, start)
    {
      var n := size;
      P := DirectWalks(n, start);
      selected := false;
      ghost var order: seq<nat> := [start];
      Init(W, vertexes, start);
      for l := 0 to n
        invariant Basic(W, vertexes, start, visit[..], bestmin[..], dis[..], path[..], P, selected)
        invariant BelowInfinity(W) ==> Correct(W, vertexes, start, visit[..], bestmin[..], dis[..], path[..], P)
        invariant SelectionOrder(visit[..], order)
        invariant Exhausted(visit[..], dis[..]) || |order| == l + 1
        invariant selected ==> OneHop(W, start)
        invariant !selected ==> dis[..] == W[start] && visit[..] == Unvisited(n, start)
        invariant !selected && l > 0 ==> !OneHop(W, start)
      {
        var k;
        ghost var selected0, vis0, dis0 := selected, visit[..], dis[..];
        k, P, selected := Advance(v, start, visit, bestmin, dis, path, W, P, selected);
        if !selected0 {
          FirstRound(W, start, k);
        }
        order := SelectionRound(vis0, dis0, visit[..], dis[..], order, k, l);
      }
      if !Exhausted(visit[..], dis[..]) {
        DistinctBelow(order, n);
        assert false;
      }
    }

    /**
     * Dijkstra: from the name `v`, an entry per vertex with the text of a path and its
     * weight, or the unreachable text and -1; None when `v` is not a vertex.  The start's own
     * entry is "v-->v" of weight 0 once any other vertex was reached, as the fill step writes
     * it.  When every entry of the matrix is below 10000000 (so the Java sums cannot wrap),
     * every other reported entry spells a lightest path of its weight, and a vertex reported
     * unreachable has no path lighter than 10000000.
     */
    method Dijkstra(v: string) returns (r: Option<seq<PathEntry>>)
      requires Valid()
      ensures r.None? <==> v !in vertexes
      ensures r.Some? ==> |r.value| == size && Reported(Matrix(), vertexes, IndexOf(vertexes, v), r.value)
    {
      if v !in vertexes {
        return None;
      }
      var start := IndexOf(vertexes, v);
      ghost var W := Matrix();
      var visit, bestmin, dis, path := Initial(start, W);
      ghost var P, selected := Rounds(v, start, visit, bestmin, dis, path, W);
      Conclude(W, vertexes, start, visit[..], bestmin[..], dis[..], path[..], P, selected);
      var results := Collect(v, start, bestmin, path);
      assert W == Matrix();
      r := Some(results);
    }

    /** The state before the first round: only the start is visited, every distance is 0,
        no vertex has a text, and the distances are the start's row of the matrix. */
    method Initial(start: nat, ghost W: seq<seq<int>>)
      returns (visit: array<bool>, bestmin: array<int>, dis: array<int>, path: array<Option<string>>)
      requires Valid() && start < size && W == Matrix()
      ensures fresh(visit) && fresh(bestmin) && fresh(dis) && fresh(path) && bestmin != dis
      ensures visit.Length == size && bestmin.Length == size && dis.Length == size && path.Length == size
      ensures visit[..] == Unvisited(size, start) && bestmin[..] == Zeros(size)
      ensures dis[..] == W[start] && path[..] == Nulls(size)
    {
      var n := size;
      visit := new bool[n](i => i == start);
      bestmin := new int[n](i => 0);
      path := new Option<string>[n](i => None);
      dis := new int[n](i => 0);
      for j := 0 to n
        modifies dis
        invariant forall t :: 0 <= t < j ==> dis[t] == W[start][t]
      {
        dis[j] := edges[start, j] as int;
      }
      assert visit[..] == Unvisited(n, start);
      assert bestmin[..] == Zeros(n);
      assert path[..] == Nulls(n);
      assert dis[..] == W[start];
    }

    /** The result list: for each vertex its text and distance, or the unreachable text and
        -1 when it has no text. */
    method Collect(v: string, start: nat, bestmin: array<int>, path: array<Option<string>>)
      returns (results: seq<PathEntry>)
      requires Valid() && start < size && vertexes[start] == v
      requires bestmin.Length == size && path.Length == size
      ensures results == Entries(vertexes, start, bestmin[..], path[..])
    {
      results := [];
      for i := 0 to size
        invariant results == Entries(vertexes, start, bestmin[..], path[..])[..i]
      {
        var e := if path[i].Some? then PathEntry(path[i].value, bestmin[i]) else PathEntry(UnreachableText(v, vertexes[i]), -1);
        results := results + [e];
      }
    }
  }
}
