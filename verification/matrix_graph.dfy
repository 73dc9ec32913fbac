/** `MacierzSasiedztwa`: the dense adjacency-matrix layout. Inserting the edge
    (p, k) writes 1 into cell [p][k] and -1 into the mirror cell [k][p]; a
    stored edge is a cell holding 1. Because the mirror is written after the
    forward cell, a self-loop ends up as -1 on the diagonal and is never
    stored, although its insertion reports success. */
module MatrixGraph {
  import opened Common
  import opened DirectedEdges

  /** A graph of order `order`; a graph built with order < 1 has order 0 and
      no cells, standing for the program's null matrix. */
  datatype Matrix = Matrix(order: int, cells: seq<seq<int>>)

  /** Shape, cell range, and the mirror encoding: off the diagonal a cell
      holds 1 exactly when its mirror holds -1, and the diagonal never holds 1. */
  predicate Valid(g: Matrix) {
    && g.order >= 0
    && |g.cells| == g.order
    && (forall i :: 0 <= i < g.order ==> |g.cells[i]| == g.order)
    && (forall i, j :: 0 <= i < g.order && 0 <= j < g.order ==> -1 <= g.cells[i][j] <= 1)
    && (forall i, j :: 0 <= i < g.order && 0 <= j < g.order && i != j ==>
          (g.cells[i][j] == 1 <==> g.cells[j][i] == -1))
    && (forall i :: 0 <= i < g.order ==> g.cells[i][i] != 1)
  }

  /** Cell [p][k] exists and holds 1. */
  predicate Stored(g: Matrix, p: int, k: int)
    requires Valid(g)
  {
    0 <= p < g.order && 0 <= k < g.order && g.cells[p][k] == 1
  }

  /** The abstract edge set: the cells holding 1. */
  ghost function Edges(g: Matrix): set<Edge>
    requires Valid(g)
  {
    set p, k | 0 <= p < g.order && 0 <= k < g.order && g.cells[p][k] == 1 :: Edge(p, k)
  }

  lemma EdgesStored(g: Matrix, p: int, k: int)
    requires Valid(g)
    ensures Edge(p, k) in Edges(g) <==> Stored(g, p, k)
  {
    if Stored(g, p, k) {
      assert Edge(p, k) in Edges(g);
    }
  }

  lemma EdgesInRange(g: Matrix)
    requires Valid(g)
    ensures forall e :: e in Edges(g) ==> InRange(e, g.order) && e.start != e.end
  {
  }

  /** The constructor `MacierzSasiedztwa(rzadGrafu)`. */
  function New(n: int): (g: Matrix)
    ensures Valid(g)
    ensures g.order == if n < 1 then 0 else n
    ensures Edges(g) == {}
  {
    if n < 1 then Matrix(0, [])
    else Matrix(n, seq(n, _ => seq(n, _ => 0)))
  }

  /** `DodajKrawedz(poczatek, koniec)`. */
  function AddEdge(g: Matrix, p: int, k: int): (r: Insertion<Matrix>)
    requires Valid(g)
    ensures Valid(r.graph) && r.graph.order == g.order
    ensures r.added <==> InRange(Edge(p, k), g.order) && Edge(p, k) !in Edges(g) && Edge(k, p) !in Edges(g)
    ensures !r.added ==> r.graph == g
    ensures r.added ==> Edges(r.graph) == if p == k then Edges(g) else Edges(g) + {Edge(p, k)}
    ensures r.added ==> r.graph.cells[p][k] == (if p == k then -1 else 1) && r.graph.cells[k][p] == -1
    ensures r.added ==> forall i, j :: 0 <= i < g.order && 0 <= j < g.order && (i != p || j != k) && (i != k || j != p) ==>
                          r.graph.cells[i][j] == g.cells[i][j]
  {
    EdgesStored(g, p, k);
    EdgesStored(g, k, p);
    if !InRange(Edge(p, k), g.order) then Insertion(g, false)
    else if g.cells[p][k] == 1 || g.cells[k][p] == 1 then Insertion(g, false)
    else
      WrittenEdges(g, p, k);
      Insertion(Written(g, p, k), true)
  }

  /** The two writes of `DodajKrawedz`, the mirror written last. */
  function Written(g: Matrix, p: int, k: int): (h: Matrix)
    requires Valid(g) && InRange(Edge(p, k), g.order)
    ensures |h.cells| == g.order && h.order == g.order
    ensures forall i :: 0 <= i < g.order ==> |h.cells[i]| == g.order
    ensures forall i, j :: 0 <= i < g.order && 0 <= j < g.order ==>
              h.cells[i][j] == if i == k && j == p then -1 else if i == p && j == k then 1 else g.cells[i][j]
  {
    var forward := g.cells[p := g.cells[p][k := 1]];
    Matrix(g.order, forward[k := forward[k][p := -1]])
  }

  lemma WrittenValid(g: Matrix, p: int, k: int)
    requires Valid(g) && InRange(Edge(p, k), g.order)
    requires g.cells[p][k] != 1 && g.cells[k][p] != 1
    ensures Valid(Written(g, p, k))
  {
  }

  lemma WrittenEdges(g: Matrix, p: int, k: int)
    requires Valid(g) && InRange(Edge(p, k), g.order)
    requires g.cells[p][k] != 1 && g.cells[k][p] != 1
    ensures Valid(Written(g, p, k))
    ensures Edges(Written(g, p, k)) == if p == k then Edges(g) else Edges(g) + {Edge(p, k)}
  {
    var h := Written(g, p, k);
    WrittenValid(g, p, k);
    forall e | e in Edges(h)
      ensures e in Edges(g) || (p != k && e == Edge(p, k))
    {
      EdgesStored(h, e.start, e.end);
      EdgesStored(g, e.start, e.end);
    }
    forall e | e in Edges(g) || (p != k && e == Edge(p, k))
      ensures e in Edges(h)
    {
      EdgesStored(h, e.start, e.end);
      EdgesStored(g, e.start, e.end);
    }
  }

  /** A self-loop is always accepted and never stored, so inserting it again
      is accepted again and leaves the matrix as it was. */
  lemma SelfLoopRepeated(g: Matrix, p: int)
    requires Valid(g) && 0 <= p < g.order
    ensures AddEdge(g, p, p).added
    ensures AddEdge(AddEdge(g, p, p).graph, p, p) == AddEdge(g, p, p)
  {
    WrittenEdges(g, p, p);
    var h := Written(g, p, p);
    assert h.cells[p][p] == -1;
    WrittenEdges(h, p, p);
    var h2 := Written(h, p, p);
    forall i | 0 <= i < g.order
      ensures h2.cells[i] == h.cells[i]
    {
      assert forall j :: 0 <= j < g.order ==> h2.cells[i][j] == h.cells[i][j];
    }
    assert h2.cells == h.cells;
  }

  /** `CzyKrawedz(poczatek, koniec)`. */
  function HasEdge(g: Matrix, p: int, k: int): (r: bool)
    requires Valid(g)
    ensures r <==> Edge(p, k) in Edges(g)
  {
    EdgesStored(g, p, k);
    InRange(Edge(p, k), g.order) && g.cells[p][k] == 1
  }

  /** The indices `j >= from` at which `row` holds 1, ascending: the scan
      loop of `Nastepniki` and `Poprzedniki`. */
  function Ones(row: seq<int>, from: nat): (r: seq<int>)
    requires from <= |row|
    ensures Ascending(r)
    ensures forall j :: j in r <==> from <= j < |row| && row[j] == 1
    decreases |row| - from
  {
    if from == |row| then []
    else if row[from] == 1 then
      var rest := Ones(row, from + 1);
      assert forall i :: 0 <= i < |rest| ==> rest[i] in rest;
      [from] + rest
    else Ones(row, from + 1)
  }

  /** Column `v` of the matrix. */
  function Column(g: Matrix, v: int): (c: seq<int>)
    requires Valid(g) && 0 <= v < g.order
    ensures |c| == g.order && forall i :: 0 <= i < g.order ==> c[i] == g.cells[i][v]
  {
    seq(g.order, i requires 0 <= i < g.order => g.cells[i][v])
  }

  /** `Nastepniki(wierzcholek)`: absent out of range, otherwise the scan of
      row `v`. */
  function Successors(g: Matrix, v: int): (r: Option<seq<int>>)
    requires Valid(g)
    ensures r.None? <==> !(0 <= v < g.order)
    ensures r.Some? ==> Ascending(r.value) && forall j :: j in r.value <==> Edge(v, j) in Edges(g)
  {
    if !(0 <= v < g.order) then None
    else
      var s := Ones(g.cells[v], 0);
      assert forall j :: j in s <==> Edge(v, j) in Edges(g) by {
        forall j {
          EdgesStored(g, v, j);
        }
      }
      Some(s)
  }

  /** `Poprzedniki(wierzcholek)`: absent out of range, otherwise the scan of
      column `v`. */
  function Predecessors(g: Matrix, v: int): (r: Option<seq<int>>)
    requires Valid(g)
    ensures r.None? <==> !(0 <= v < g.order)
    ensures r.Some? ==> Ascending(r.value) && forall i :: i in r.value <==> Edge(i, v) in Edges(g)
  {
    if !(0 <= v < g.order) then None
    else
      var s := Ones(Column(g, v), 0);
      assert forall i :: i in s <==> Edge(i, v) in Edges(g) by {
        forall i {
          EdgesStored(g, i, v);
        }
      }
      Some(s)
  }
}
