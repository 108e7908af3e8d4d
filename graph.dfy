/**
 * Directed graphs on the vertices 0..V-1 in two representations: an
 * adjacency matrix, where a non-zero entry [o][d] is an edge o -> d (its
 * value the weight), and adjacency lists, one list of edges per origin.
 * Queries: counting edges, the out-degree of the graph (the largest number
 * of edges leaving one vertex), edge lookup, and reachability by a
 * depth-first search that marks visited vertices in an array.
 */
module Graphs {

  // ---------------------------------------------------------------------------
  // Representations
  // ---------------------------------------------------------------------------

  /** GrafoM: V rows of V entries; a non-zero entry [o][d] is an edge o -> d. */
  type MatrixGraph = seq<seq<int>>

  /** One cell of an adjacency list (struct aresta): destination and weight. */
  datatype Edge = Edge(dest: int, weight: int)

  /** GrafoL: for each origin, the list of edges leaving it. */
  type ListGraph = seq<seq<Edge>>

  /** The matrix has as many columns in every row as it has rows (V x V). */
  predicate IsSquare(g: MatrixGraph) {
    forall o :: 0 <= o < |g| ==> |g[o]| == |g|
  }

  /** Every edge in the lists leads to a vertex of the graph. */
  predicate DestsInRange(g: ListGraph) {
    forall o, e :: 0 <= o < |g| && e in g[o] ==> 0 <= e.dest < |g|
  }

  // ---------------------------------------------------------------------------
  // Specification functions: counts
  // ---------------------------------------------------------------------------

  /** The number of non-zero entries of a matrix row. */
  function RowDegree(row: seq<int>): nat {
    if row == [] then 0
    else RowDegree(row[..|row| - 1]) + (if row[|row| - 1] != 0 then 1 else 0)
  }

  /** The number of non-zero entries of the whole matrix, row by row. */
  function MatrixCount(g: MatrixGraph): nat {
    if g == [] then 0 else MatrixCount(g[..|g| - 1]) + RowDegree(g[|g| - 1])
  }

  /** The total length of all adjacency lists. */
  function ListsCount(g: ListGraph): nat {
    if g == [] then 0 else ListsCount(g[..|g| - 1]) + |g[|g| - 1]|
  }

  /** The edges of a matrix graph, as (origin, destination) pairs. */
  ghost function MatrixEdges(g: MatrixGraph): set<(int, int)> {
    set o, d | 0 <= o < |g| && 0 <= d < |g[o]| && g[o][d] != 0 :: (o, d)
  }

  /** The destinations d with a non-zero entry in row o before column n. */
  ghost function RowEdges(o: int, row: seq<int>, n: nat): set<(int, int)>
    requires n <= |row|
  {
    set d | 0 <= d < n && row[d] != 0 :: (o, d)
  }

  /** The cells of a list graph, as (origin, position in the list) pairs. */
  ghost function ListCells(g: ListGraph): set<(int, int)> {
    set o, j | 0 <= o < |g| && 0 <= j < |g[o]| :: (o, j)
  }

  /** Positions before n in the list of origin o. */
  ghost function ListPositions(o: int, n: nat): set<(int, int)> {
    set j | 0 <= j < n :: (o, j)
  }

  // ---------------------------------------------------------------------------
  // Lemmas about the counts
  // ---------------------------------------------------------------------------

  /** A row has at most as many non-zero entries as it has entries. */
  lemma {:induction false} RowDegreeBound(row: seq<int>)
    ensures RowDegree(row) <= |row|
  {
    if row != [] {
      RowDegreeBound(row[..|row| - 1]);
    }
  }

  /** RowDegree counts the non-zero columns of row o. */
  lemma {:induction false} RowDegreeIsCardinality(o: int, row: seq<int>, n: nat)
    requires n <= |row|
    ensures |RowEdges(o, row, n)| == RowDegree(row[..n])
  {
    if n > 0 {
      RowDegreeIsCardinality(o, row, n - 1);
      assert row[..n][..n - 1] == row[..n - 1];
      if row[n - 1] != 0 {
        assert RowEdges(o, row, n) == RowEdges(o, row, n - 1) + {(o, n - 1)};
      } else {
        assert RowEdges(o, row, n) == RowEdges(o, row, n - 1);
      }
    } else {
      assert RowEdges(o, row, n) == {};
    }
  }

  /** MatrixCount is the number of edges of the matrix graph. */
  lemma {:induction false} MatrixCountIsCardinality(g: MatrixGraph)
    ensures MatrixCount(g) == |MatrixEdges(g)|
  {
    if g == [] {
      assert MatrixEdges(g) == {};
    } else {
      var n := |g| - 1;
      var init := g[..n];
      MatrixCountIsCardinality(init);
      RowDegreeIsCardinality(n, g[n], |g[n]|);
      assert g[n][..|g[n]|] == g[n];
      var last := RowEdges(n, g[n], |g[n]|);
      assert MatrixEdges(g) == MatrixEdges(init) + last;
      assert MatrixEdges(init) * last == {};
    }
  }

  /** A V x V matrix has at most V * V edges. */
  lemma {:induction false} MatrixCountBound(g: MatrixGraph, v: nat)
    requires forall o :: 0 <= o < |g| ==> |g[o]| == v
    ensures MatrixCount(g) <= |g| * v
  {
    if g != [] {
      var n := |g| - 1;
      MatrixCountBound(g[..n], v);
      RowDegreeBound(g[n]);
      assert |g| * v == n * v + v;
    }
  }

  /** ListsCount is the number of cells in all the lists. */
  lemma {:induction false} ListsCountIsCardinality(g: ListGraph)
    ensures ListsCount(g) == |ListCells(g)|
  {
    if g == [] {
      assert ListCells(g) == {};
    } else {
      var n := |g| - 1;
      var init := g[..n];
      ListsCountIsCardinality(init);
      PositionsCardinality(n, |g[n]|);
      var last := ListPositions(n, |g[n]|);
      assert ListCells(g) == ListCells(init) + last;
      assert ListCells(init) * last == {};
    }
  }

  lemma {:induction false} PositionsCardinality(o: int, n: nat)
    ensures |ListPositions(o, n)| == n
  {
    if n > 0 {
      PositionsCardinality(o, n - 1);
      assert ListPositions(o, n) == ListPositions(o, n - 1) + {(o, n - 1)};
    } else {
      assert ListPositions(o, n) == {};
    }
  }

  /** No single list is longer than all lists together. */
  lemma {:induction false} ListBelowTotal(g: ListGraph, o: nat)
    requires o < |g|
    ensures |g[o]| <= ListsCount(g)
  {
    var n := |g| - 1;
    if o < n {
      ListBelowTotal(g[..n], o);
    }
  }

  // ---------------------------------------------------------------------------
  // Edge counting
  // ---------------------------------------------------------------------------

  /** contaArestasM: the number of pairs (o, d) with g[o][d] != 0, at most V * V. */
  method CountEdgesM(g: MatrixGraph) returns (r: int)
    requires IsSquare(g)
    ensures r == |MatrixEdges(g)|
    ensures 0 <= r <= |g| * |g|
  {
    var v := |g|;
    r := 0;
    for o := 0 to v
      invariant r == MatrixCount(g[..o])
    {
      for d := 0 to v
        invariant r == MatrixCount(g[..o]) + RowDegree(g[o][..d])
      {
        assert g[o][..d + 1][..d] == g[o][..d];
        if g[o][d] != 0 {
          r := r + 1;
        }
      }
      assert g[o][..v] == g[o];
      assert g[..o + 1][..o] == g[..o];
    }
    assert g[..v] == g;
    MatrixCountIsCardinality(g);
    MatrixCountBound(g, v);
  }

  /** contaArestasL: the total length of the adjacency lists, which is the
      number of list cells. */
  method CountEdgesL(g: ListGraph) returns (r: int)
    ensures r == ListsCount(g)
    ensures r == |ListCells(g)|
  {
    r := 0;
    for o := 0 to |g|
      invariant r == ListsCount(g[..o])
    {
      var x := g[o];
      while x != []
        invariant |x| <= |g[o]|
        invariant r == ListsCount(g[..o]) + (|g[o]| - |x|)
      {
        r := r + 1;
        x := x[1..];
      }
      assert g[..o + 1][..o] == g[..o];
    }
    assert g[..|g|] == g;
    ListsCountIsCardinality(g);
  }

  // ---------------------------------------------------------------------------
  // Out-degree
  // ---------------------------------------------------------------------------

  /** outDegreeL: the length of the longest adjacency list (0 when V is 0),
      which is at most the number of edges. */
  method OutDegreeL(g: ListGraph) returns (r: int)
    ensures forall o :: 0 <= o < |g| ==> |g[o]| <= r
    ensures |g| == 0 ==> r == 0
    ensures |g| > 0 ==> exists o :: 0 <= o < |g| && r == |g[o]|
    ensures r <= ListsCount(g)
  {
    r := 0;
    for o := 0 to |g|
      invariant forall p :: 0 <= p < o ==> |g[p]| <= r
      invariant o == 0 ==> r == 0
      invariant o > 0 ==> exists p :: 0 <= p < o && r == |g[p]|
    {
      var t := 0;
      var x := g[o];
      while x != []
        invariant |x| <= |g[o]| && t == |g[o]| - |x|
      {
        t := t + 1;
        x := x[1..];
      }
      if t > r {
        r := t;
      }
    }
    if |g| > 0 {
      var w :| 0 <= w < |g| && r == |g[w]|;
      ListBelowTotal(g, w);
    }
  }

  /** outDegreeM: the largest number of non-zero entries in one row (0 when V
      is 0), which is at most V. */
  method OutDegreeM(g: MatrixGraph) returns (r: int)
    requires IsSquare(g)
    ensures forall o :: 0 <= o < |g| ==> RowDegree(g[o]) <= r
    ensures |g| == 0 ==> r == 0
    ensures |g| > 0 ==> exists o :: 0 <= o < |g| && r == RowDegree(g[o])
    ensures r <= |g|
  {
    var v := |g|;
    r := 0;
    for o := 0 to v
      invariant forall p :: 0 <= p < o ==> RowDegree(g[p]) <= r
      invariant o == 0 ==> r == 0
      invariant o > 0 ==> exists p :: 0 <= p < o && r == RowDegree(g[p])
    {
      var t := 0;
      for d := 0 to v
        invariant t == RowDegree(g[o][..d])
      {
        assert g[o][..d + 1][..d] == g[o][..d];
        if g[o][d] != 0 {
          t := t + 1;
        }
      }
      assert g[o][..v] == g[o];
      if t > r {
        r := t;
      }
    }
    if v > 0 {
      var w :| 0 <= w < v && r == RowDegree(g[w]);
      RowDegreeBound(g[w]);
    }
  }

  // ---------------------------------------------------------------------------
  // Edge lookup
  // ---------------------------------------------------------------------------

  /** haArestaM: whether (o, d) is one of the edges the matrix holds. */
  function HasEdgeM(g: MatrixGraph, o: int, d: int): (b: bool)
    requires 0 <= o < |g| && 0 <= d < |g[o]|
    ensures b <==> (o, d) in MatrixEdges(g)
  {
    g[o][d] != 0
  }

  /** The edge o -> d is in the adjacency lists. */
  predicate IsEdgeL(g: ListGraph, o: int, d: int) {
    0 <= o < |g| && exists e :: e in g[o] && e.dest == d
  }

  /** haArestaL: walks the list of o until it finds an edge to d. */
  method HasEdgeL(g: ListGraph, o: int, d: int) returns (b: bool)
    requires 0 <= o < |g|
    ensures b <==> IsEdgeL(g, o, d)
  {
    var x := g[o];
    while x != [] && x[0].dest != d
      invariant |x| <= |g[o]| && x == g[o][|g[o]| - |x|..]
      invariant forall j :: 0 <= j < |g[o]| - |x| ==> g[o][j].dest != d
    {
      x := x[1..];
    }
    if x != [] {
      assert x[0] in g[o];
    }
    b := x != [];
  }

  // ---------------------------------------------------------------------------
  // Reachability
  // ---------------------------------------------------------------------------

  /** A non-empty sequence of vertices, each joined to the next by a list edge. */
  ghost predicate IsPath(g: ListGraph, p: seq<int>) {
    |p| > 0 && forall k :: 0 <= k < |p| - 1 ==> IsEdgeL(g, p[k], p[k + 1])
  }

  /** d can be reached from o by following list edges (o reaches itself). */
  ghost predicate Reachable(g: ListGraph, o: int, d: int) {
    exists p :: IsPath(g, p) && p[0] == o && p[|p| - 1] == d
  }

  lemma ReachableSelf(g: ListGraph, o: int)
    ensures Reachable(g, o, o)
  {
    assert IsPath(g, [o]);
  }

  /** An edge followed by a path is a path. */
  lemma ReachableStep(g: ListGraph, o: int, w: int, d: int)
    requires IsEdgeL(g, o, w) && Reachable(g, w, d)
    ensures Reachable(g, o, d)
  {
    var p :| IsPath(g, p) && p[0] == w && p[|p| - 1] == d;
    var q := [o] + p;
    assert forall k :: 0 < k < |q| ==> q[k] == p[k - 1];
    assert IsPath(g, q);
  }

  /** The vertices marked in s have all their successors marked. */
  ghost predicate Closed(g: ListGraph, s: seq<int>)
    requires |s| == |g|
  {
    forall v, e :: 0 <= v < |g| && s[v] != 0 && e in g[v] ==> 0 <= e.dest < |s| && s[e.dest] != 0
  }

  /** A set of marked vertices closed under successors holds every vertex on
      a path that starts inside it. */
  lemma {:induction false} ClosedHoldsPath(g: ListGraph, s: seq<int>, p: seq<int>)
    requires |s| == |g| && Closed(g, s) && IsPath(g, p)
    requires 0 <= p[0] < |s| && s[p[0]] != 0
    ensures 0 <= p[|p| - 1] < |s| && s[p[|p| - 1]] != 0
    decreases |p|
  {
    if |p| > 1 {
      var e :| e in g[p[0]] && e.dest == p[1];
      var q := p[1..];
      assert forall k :: 0 <= k < |q| ==> q[k] == p[k + 1];
      assert IsPath(g, q);
      ClosedHoldsPath(g, s, q);
    }
  }

  /** The unmarked vertices. */
  ghost function Unvisited(s: seq<int>): set<int> {
    set v | 0 <= v < |s| && s[v] == 0
  }

  lemma SubsetCardinality(a: set<int>, b: set<int>)
    requires a <= b
    ensures |a| <= |b|
  {
    assert b == a + (b - a);
  }

  /** haCaminhoAux: marks o visited and returns true at once when o is d;
      otherwise searches, depth first, from each unvisited successor of o in
      list order, returning true as soon as one search does. Marks only ever
      go from 0 to 1 (o's own mark is set to 1). A true answer means d is
      reachable from o; a false one means that no vertex this call marked is
      d and that all their successors are marked. */
  method HasPathAux(g: ListGraph, o: int, d: int, vis: array<int>) returns (b: bool)
    requires DestsInRange(g) && vis.Length == |g| && 0 <= o < |g|
    modifies vis
    ensures vis[o] == 1
    ensures forall v :: 0 <= v < vis.Length && v != o ==>
              vis[v] == old(vis[v]) || (old(vis[v]) == 0 && vis[v] == 1)
    ensures o == d ==> b && forall v :: 0 <= v < vis.Length && v != o ==> vis[v] == old(vis[v])
    ensures b ==> Reachable(g, o, d)
    ensures !b ==> forall v :: 0 <= v < vis.Length && (v == o || (old(vis[v]) == 0 && vis[v] != 0)) ==>
                     v != d && forall e :: e in g[v] ==> vis[e.dest] != 0
    decreases 2 * |Unvisited(vis[..])| + (if vis[o] == 0 then 0 else 1)
  {
    vis[o] := 1;
    if o == d {
      ReachableSelf(g, o);
      return true;
    }
    var x := g[o];
    while x != []
      invariant |x| <= |g[o]| && x == g[o][|g[o]| - |x|..]
      invariant vis[o] == 1
      invariant forall v :: 0 <= v < vis.Length && v != o ==>
                  vis[v] == old(vis[v]) || (old(vis[v]) == 0 && vis[v] == 1)
      invariant forall j :: 0 <= j < |g[o]| - |x| ==> vis[g[o][j].dest] != 0
      invariant forall v :: 0 <= v < vis.Length && v != o && old(vis[v]) == 0 && vis[v] != 0 ==>
                  v != d && forall e :: e in g[v] ==> vis[e.dest] != 0
    {
      assert x[0] in g[o];
      var w := x[0].dest;
      if vis[w] == 0 {
        assert Unvisited(vis[..]) <= Unvisited(old(vis[..])) - {o};
        SubsetCardinality(Unvisited(vis[..]), Unvisited(old(vis[..])) - {o});
        SubsetCardinality(Unvisited(old(vis[..])) - {o}, Unvisited(old(vis[..])));
        var found := HasPathAux(g, w, d, vis);
        if found {
          ReachableStep(g, o, w, d);
          return true;
        }
      }
      x := x[1..];
    }
    return false;
  }

  /** haCaminho: clears the visited marks and runs the search from o; the
      answer is true exactly when d is reachable from o, in particular when
      d is o. */
  method HasPath(g: ListGraph, o: int, d: int) returns (b: bool)
    requires DestsInRange(g) && 0 <= o < |g|
    ensures b <==> Reachable(g, o, d)
    ensures o == d ==> b
  {
    var vis := new int[|g|];
    for i := 0 to |g|
      invariant forall k :: 0 <= k < i ==> vis[k] == 0
    {
      vis[i] := 0;
    }
    b := HasPathAux(g, o, d, vis);
    if !b && Reachable(g, o, d) {
      var p :| IsPath(g, p) && p[0] == o && p[|p| - 1] == d;
      ClosedHoldsPath(g, vis[..], p);
      assert false;
    }
  }
}
