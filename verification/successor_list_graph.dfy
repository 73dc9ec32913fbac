/** `ListaNastepnikow`: one strictly ascending successor list per vertex.
    Insertion binary-searches the start's row for the end and inserts it at
    the reported position when absent; self-loops are stored like any other
    edge. Predecessors are found by binary-searching every row. */
module SuccessorListGraph {
  import opened Common
  import opened DirectedEdges

  /** A graph of order `order`; row `i` holds the successors of `i`. A graph
      built with order < 1 has order 0 and no rows. */
  datatype SuccessorList = SuccessorList(order: int, rows: seq<seq<int>>)

  predicate Valid(g: SuccessorList) {
    && g.order >= 0
    && |g.rows| == g.order
    && (forall i :: 0 <= i < g.order ==> Ascending(g.rows[i]))
    && (forall i, j :: 0 <= i < g.order && 0 <= j < |g.rows[i]| ==> 0 <= g.rows[i][j] < g.order)
  }

  /** The abstract edge set: (i, j) for every `j` in row `i`. */
  ghost function Edges(g: SuccessorList): set<Edge>
    requires Valid(g)
  {
    set i, j | 0 <= i < g.order && j in g.rows[i] :: Edge(i, j)
  }

  lemma EdgesRows(g: SuccessorList, p: int, k: int)
    requires Valid(g)
    ensures Edge(p, k) in Edges(g) <==> 0 <= p < g.order && k in g.rows[p]
  {
    if 0 <= p < g.order && k in g.rows[p] {
      assert Edge(p, k) in Edges(g);
    }
  }

  /** The constructor `ListaNastepnikow(rzadGrafu)`. */
  function New(n: int): (g: SuccessorList)
    ensures Valid(g)
    ensures g.order == if n < 1 then 0 else n
    ensures Edges(g) == {}
  {
    if n < 1 then SuccessorList(0, [])
    else SuccessorList(n, seq(n, _ => []))
  }

  /** `DodajKrawedz(poczatek, koniec)`. */
  function AddEdge(g: SuccessorList, p: int, k: int): (r: Insertion<SuccessorList>)
    requires Valid(g)
    ensures Valid(r.graph) && r.graph.order == g.order
    ensures r.added <==> InRange(Edge(p, k), g.order) && Edge(p, k) !in Edges(g)
    ensures !r.added ==> r.graph == g
    ensures r.added ==> Edges(r.graph) == Edges(g) + {Edge(p, k)}
    ensures r.added ==> forall i :: 0 <= i < g.order && i != p ==> r.graph.rows[i] == g.rows[i]
  {
    EdgesRows(g, p, k);
    if !InRange(Edge(p, k), g.order) then Insertion(g, false)
    else
      var row := g.rows[p];
      var index := BinarySearch(row, k, IntCompare);
      BinarySearchAscending(row, k);
      if index < 0 then
        var q := -index - 1;
        InsertAscending(row, k, q);
        var h := SuccessorList(g.order, g.rows[p := row[..q] + [k] + row[q..]]);
        InsertEdges(g, p, k, h);
        Insertion(h, true)
      else Insertion(g, false)
  }

  lemma InsertEdges(g: SuccessorList, p: int, k: int, h: SuccessorList)
    requires Valid(g) && InRange(Edge(p, k), g.order)
    requires h.order == g.order && |h.rows| == g.order
    requires Ascending(h.rows[p]) && forall x :: x in h.rows[p] <==> x in g.rows[p] || x == k
    requires forall i :: 0 <= i < g.order && i != p ==> h.rows[i] == g.rows[i]
    ensures Valid(h)
    ensures Edges(h) == Edges(g) + {Edge(p, k)}
  {
    forall i, j | 0 <= i < h.order && 0 <= j < |h.rows[i]|
      ensures 0 <= h.rows[i][j] < h.order
    {
      if i == p {
        assert h.rows[i][j] in h.rows[p];
      }
    }
    forall e | e in Edges(h)
      ensures e in Edges(g) + {Edge(p, k)}
    {
      EdgesRows(h, e.start, e.end);
      EdgesRows(g, e.start, e.end);
    }
    forall e | e in Edges(g) + {Edge(p, k)}
      ensures e in Edges(h)
    {
      EdgesRows(h, e.start, e.end);
      EdgesRows(g, e.start, e.end);
    }
  }

  /** `CzyKrawedz(poczatek, koniec)`: false out of range, otherwise whether
      row `p` contains `k`. */
  function HasEdge(g: SuccessorList, p: int, k: int): (r: bool)
    requires Valid(g)
    ensures r <==> Edge(p, k) in Edges(g)
  {
    EdgesRows(g, p, k);
    if !InRange(Edge(p, k), g.order) then false else k in g.rows[p]
  }

  /** `Nastepniki(wierzcholek)`: absent out of range, otherwise row `v`. */
  function Successors(g: SuccessorList, v: int): (r: Option<seq<int>>)
    requires Valid(g)
    ensures r.None? <==> !(0 <= v < g.order)
    ensures r.Some? ==> Ascending(r.value) && forall j :: j in r.value <==> Edge(v, j) in Edges(g)
  {
    if !(0 <= v < g.order) then None
    else
      assert forall j :: j in g.rows[v] <==> Edge(v, j) in Edges(g) by {
        forall j {
          EdgesRows(g, v, j);
        }
      }
      Some(g.rows[v])
  }

  /** The loop of `Poprzedniki` from row `from` on: the rows whose binary
      search for `v` hits, ascending. */
  function RowsContaining(g: SuccessorList, v: int, from: int): (r: seq<int>)
    requires Valid(g) && 0 <= from <= g.order
    ensures Ascending(r)
    ensures forall i :: i in r <==> from <= i < g.order && v in g.rows[i]
    decreases g.order - from
  {
    if from == g.order then []
    else
      BinarySearchAscending(g.rows[from], v);
      var rest := RowsContaining(g, v, from + 1);
      assert forall i :: 0 <= i < |rest| ==> rest[i] in rest;
      if BinarySearch(g.rows[from], v, IntCompare) >= 0 then [from] + rest else rest
  }

  /** `Poprzedniki(wierzcholek)`: absent out of range, otherwise, ascending,
      every vertex whose row contains `v`. */
  function Predecessors(g: SuccessorList, v: int): (r: Option<seq<int>>)
    requires Valid(g)
    ensures r.None? <==> !(0 <= v < g.order)
    ensures r.Some? ==> Ascending(r.value) && forall i :: i in r.value <==> Edge(i, v) in Edges(g)
  {
    if !(0 <= v < g.order) then None
    else
      var s := RowsContaining(g, v, 0);
      assert forall i :: i in s <==> Edge(i, v) in Edges(g) by {
        forall i {
          EdgesRows(g, i, v);
        }
      }
      Some(s)
  }
}
