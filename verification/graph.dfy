/** `Graf`: the interface every layout implements, as one datatype with a
    case per layout. `Successors`, `Predecessors`, `AddEdge` and `HasEdge`
    dispatch to the layout. The depth-first forest and Kahn's sort, written
    once in `Graf`, read a graph through `View`: its order and the lists
    `Nastepniki` and `Poprzedniki` return. */
module Graphs {
  import opened Common
  import opened DirectedEdges
  import M = MatrixGraph
  import L = EdgeListGraph
  import S = SuccessorListGraph
  import D = Digraphs

  datatype Layout = AdjacencyMatrix | SortedEdgeList | SuccessorLists

  datatype Graph =
    | OfMatrix(m: M.Matrix)
    | OfEdgeList(l: L.EdgeList)
    | OfSuccessorList(s: S.SuccessorList)
  {
    function Layout(): Layout {
      match this
      case OfMatrix(_) => AdjacencyMatrix
      case OfEdgeList(_) => SortedEdgeList
      case OfSuccessorList(_) => SuccessorLists
    }
  }

  predicate Valid(g: Graph) {
    match g
    case OfMatrix(m) => M.Valid(m)
    case OfEdgeList(l) => L.Valid(l)
    case OfSuccessorList(s) => S.Valid(s)
  }

  /** `Rzad()`: the vertex count fixed at construction. */
  function Order(g: Graph): (n: int)
    ensures Valid(g) ==> n >= 0
  {
    match g
    case OfMatrix(m) => m.order
    case OfEdgeList(l) => l.order
    case OfSuccessorList(s) => s.order
  }

  /** The abstract edge set of the layout. */
  ghost function Edges(g: Graph): set<Edge>
    requires Valid(g)
  {
    match g
    case OfMatrix(m) => M.Edges(m)
    case OfEdgeList(l) => L.Edges(l)
    case OfSuccessorList(s) => S.Edges(s)
  }

  /** Every stored edge joins two vertices of the graph; the matrix stores
      no self-loop. */
  lemma EdgesInRange(g: Graph)
    requires Valid(g)
    ensures Order(g) >= 0
    ensures forall e :: e in Edges(g) ==> InRange(e, Order(g))
    ensures g.OfMatrix? ==> forall e :: e in Edges(g) ==> e.start != e.end
  {
    match g
    case OfMatrix(m) => M.EdgesInRange(m);
    case OfEdgeList(l) =>
    case OfSuccessorList(s) =>
      forall e | e in Edges(g)
        ensures InRange(e, Order(g))
      {
        S.EdgesRows(s, e.start, e.end);
        var row := s.rows[e.start];
        var j :| 0 <= j < |row| && row[j] == e.end;
      }
  }

  /** The constructors: order < 1 gives an empty graph of order 0. */
  function New(layout: Layout, n: int): (g: Graph)
    ensures Valid(g) && g.Layout() == layout
    ensures Order(g) == if n < 1 then 0 else n
    ensures Edges(g) == {}
  {
    match layout
    case AdjacencyMatrix => OfMatrix(M.New(n))
    case SortedEdgeList => OfEdgeList(L.New(n))
    case SuccessorLists => OfSuccessorList(S.New(n))
  }

  /** `DodajKrawedz`. Every layout refuses an out-of-range or present edge
      and accepts an edge none of whose directions is present; the matrix
      also refuses an edge whose reverse is present, and accepts a self-loop
      without storing it. */
  function AddEdge(g: Graph, p: int, k: int): (r: Insertion<Graph>)
    requires Valid(g)
    ensures Valid(r.graph) && r.graph.Layout() == g.Layout() && Order(r.graph) == Order(g)
    ensures !r.added ==> r.graph == g
    ensures r.added ==> InRange(Edge(p, k), Order(g)) && Edge(p, k) !in Edges(g)
    ensures InRange(Edge(p, k), Order(g)) && Edge(p, k) !in Edges(g) && Edge(k, p) !in Edges(g) ==> r.added
    ensures !g.OfMatrix? ==> (r.added <==> InRange(Edge(p, k), Order(g)) && Edge(p, k) !in Edges(g))
    ensures g.OfMatrix? ==> (r.added <==> InRange(Edge(p, k), Order(g)) && Edge(p, k) !in Edges(g) && Edge(k, p) !in Edges(g))
    ensures r.added ==> Edges(r.graph) == Edges(g) + if g.OfMatrix? && p == k then {} else {Edge(p, k)}
  {
    match g
    case OfMatrix(m) => var r := M.AddEdge(m, p, k); Insertion(OfMatrix(r.graph), r.added)
    case OfEdgeList(l) => var r := L.AddEdge(l, p, k); Insertion(OfEdgeList(r.graph), r.added)
    case OfSuccessorList(s) => var r := S.AddEdge(s, p, k); Insertion(OfSuccessorList(r.graph), r.added)
  }

  /** `CzyKrawedz`: membership in the edge set. The sorted edge list of a
      graph of order 0 is null in the program, so the query needs order >= 1
      there. */
  function HasEdge(g: Graph, p: int, k: int): (r: bool)
    requires Valid(g)
    requires g.OfEdgeList? ==> Order(g) >= 1
    ensures r <==> Edge(p, k) in Edges(g)
  {
    match g
    case OfMatrix(m) => M.HasEdge(m, p, k)
    case OfEdgeList(l) => L.HasEdge(l, p, k)
    case OfSuccessorList(s) => S.HasEdge(s, p, k)
  }

  /** `Nastepniki`: absent out of range; otherwise exactly the successors,
      ascending in every layout. */
  function Successors(g: Graph, v: int): (r: Option<seq<int>>)
    requires Valid(g)
    ensures r.None? <==> !(0 <= v < Order(g))
    ensures r.Some? ==> Ascending(r.value) && forall j :: j in r.value <==> Edge(v, j) in Edges(g)
  {
    match g
    case OfMatrix(m) => M.Successors(m, v)
    case OfEdgeList(l) => L.Successors(l, v)
    case OfSuccessorList(s) => S.Successors(s, v)
  }

  /** `Poprzedniki`: absent out of range; otherwise a duplicate-free list of
      predecessors that misses an edge (u, v) only when it holds `v` itself
      (the sorted edge list with a self-loop at `v`). Matrix and successor
      lists return exactly the predecessors, ascending. */
  function Predecessors(g: Graph, v: int): (r: Option<seq<int>>)
    requires Valid(g)
    ensures r.None? <==> !(0 <= v < Order(g))
    ensures r.Some? ==> NoDup(r.value)
    ensures r.Some? ==> forall u :: u in r.value ==> Edge(u, v) in Edges(g)
    ensures r.Some? ==> forall u :: Edge(u, v) in Edges(g) ==> u in r.value || v in r.value
    ensures r.Some? && !g.OfEdgeList? ==> Ascending(r.value) && forall u :: u in r.value <==> Edge(u, v) in Edges(g)
  {
    match g
    case OfMatrix(m) => M.Predecessors(m, v)
    case OfEdgeList(l) => L.Predecessors(l, v)
    case OfSuccessorList(s) => S.Predecessors(s, v)
  }

  /** The successor list of an in-range vertex, as the algorithms use it. */
  function Succ(g: Graph, v: int): (s: seq<int>)
    requires Valid(g) && 0 <= v < Order(g)
    ensures NoDup(s)
    ensures forall w :: w in s <==> Edge(v, w) in Edges(g)
    ensures forall w :: w in s ==> 0 <= w < Order(g)
  {
    EdgesInRange(g);
    var s := Successors(g, v).value;
    AscendingNoDup(s);
    s
  }

  /** The predecessor list of an in-range vertex, as Kahn's sort uses it. */
  function Pred(g: Graph, v: int): (s: seq<int>)
    requires Valid(g) && 0 <= v < Order(g)
    ensures NoDup(s)
    ensures forall u :: u in s ==> Edge(u, v) in Edges(g)
    ensures forall u :: Edge(u, v) in Edges(g) ==> u in s || v in s
  {
    Predecessors(g, v).value
  }

  /** The lists the algorithms read, tabulated for every vertex; its arcs
      are exactly the edges of `g`. */
  function View(g: Graph): (d: D.Digraph)
    requires Valid(g)
    ensures D.Valid(d) && d.order == Order(g)
    ensures forall v :: 0 <= v < Order(g) ==> d.succ[v] == Succ(g, v) && d.pred[v] == Pred(g, v)
    ensures forall v, w :: D.Arc(d, v, w) <==> Edge(v, w) in Edges(g)
  {
    EdgesInRange(g);
    var n := Order(g);
    D.Digraph(n, seq(n, v requires 0 <= v < n => Succ(g, v)), seq(n, v requires 0 <= v < n => Pred(g, v)))
  }

  /** A graph without edges has empty successor lists. */
  lemma ViewWithoutEdges(g: Graph)
    requires Valid(g)
    ensures Edges(g) == {} ==> D.Arcless(View(g))
  {
    var d := View(g);
    forall v | 0 <= v < |d.succ| && d.succ[v] != []
      ensures Edge(v, d.succ[v][0]) in Edges(g)
    {
      assert D.Arc(d, v, d.succ[v][0]);
    }
  }

  // ---------------------------------------------------------------------
  // Properties of the interface
  // ---------------------------------------------------------------------

  /** A graph constructed with order < 1 is inert: order 0, every insertion
      refused without change, every query absent. */
  lemma Degenerate(layout: Layout, n: int, p: int, k: int, v: int)
    requires n < 1
    ensures var g := New(layout, n);
            && Order(g) == 0
            && AddEdge(g, p, k) == Insertion(g, false)
            && Successors(g, v).None?
            && Predecessors(g, v).None?
  {
  }

  /** Repeating a successful insertion is refused and changes nothing,
      except that the matrix accepts a repeated self-loop again (still
      without storing it). */
  lemma SecondInsertion(g: Graph, p: int, k: int)
    requires Valid(g)
    requires AddEdge(g, p, k).added
    ensures var h := AddEdge(g, p, k).graph;
            && AddEdge(h, p, k).graph == h
            && (AddEdge(h, p, k).added <==> g.OfMatrix? && p == k)
  {
    var h := AddEdge(g, p, k).graph;
    if g.OfMatrix? && p == k {
      M.SelfLoopRepeated(g.m, p);
    } else {
      assert Edge(p, k) in Edges(h);
    }
  }

  /** The driver's bulk load: insert `es` in order, ignoring the flags. */
  function Load(g: Graph, es: seq<Edge>): (r: Graph)
    requires Valid(g)
    ensures Valid(r) && r.Layout() == g.Layout() && Order(r) == Order(g)
    decreases |es|
  {
    if |es| == 0 then g
    else Load(AddEdge(g, es[0].start, es[0].end).graph, es[1..])
  }

  /** The in-range edges of `es`. */
  ghost function Admissible(es: seq<Edge>, n: int): set<Edge> {
    set e | e in es && InRange(e, n)
  }

  /** The list layouts store exactly the in-range edges they were fed. */
  lemma {:induction false} LoadListLayout(g: Graph, es: seq<Edge>)
    requires Valid(g) && !g.OfMatrix?
    ensures Edges(Load(g, es)) == Edges(g) + Admissible(es, Order(g))
    decreases |es|
  {
    if |es| > 0 {
      var e := es[0];
      var h := AddEdge(g, e.start, e.end).graph;
      assert Edges(h) == Edges(g) + Admissible([e], Order(g)) by {
        assert Admissible([e], Order(g)) == if InRange(e, Order(g)) then {e} else {};
      }
      LoadListLayout(h, es[1..]);
      AdmissibleCons(es, Order(g));
    }
  }

  /** No edge of `es` is a self-loop or the reverse of another. */
  ghost predicate Antisymmetric(es: seq<Edge>) {
    forall e :: e in es ==> e.start != e.end && Edge(e.end, e.start) !in es
  }

  /** The matrix stores only in-range edges it was fed. */
  lemma {:induction false} LoadMatrixSubset(g: Graph, es: seq<Edge>)
    requires Valid(g) && g.OfMatrix?
    ensures Edges(Load(g, es)) <= Edges(g) + Admissible(es, Order(g))
    decreases |es|
  {
    if |es| > 0 {
      var h := AddEdge(g, es[0].start, es[0].end).graph;
      LoadMatrixSubset(h, es[1..]);
      AdmissibleCons(es, Order(g));
    }
  }

  lemma AdmissibleCons(es: seq<Edge>, n: int)
    requires |es| > 0
    ensures Admissible(es, n) == Admissible([es[0]], n) + Admissible(es[1..], n)
  {
    assert es == [es[0]] + es[1..];
  }

  /** One matrix insertion of a non-loop edge whose reverse is absent
      stores it exactly when it is in range. */
  lemma MatrixStep(g: Graph, e: Edge)
    requires Valid(g) && g.OfMatrix?
    requires e.start != e.end && Edge(e.end, e.start) !in Edges(g)
    ensures Edges(AddEdge(g, e.start, e.end).graph) == Edges(g) + Admissible([e], Order(g))
  {
  }

  /** Fed an antisymmetric list none of whose edges reverses a stored one,
      the matrix stores exactly the in-range edges. */
  lemma {:induction false} LoadMatrixExact(g: Graph, es: seq<Edge>)
    requires Valid(g) && g.OfMatrix?
    requires Antisymmetric(es)
    requires forall x :: x in Edges(g) ==> Edge(x.end, x.start) !in es
    ensures Edges(Load(g, es)) == Edges(g) + Admissible(es, Order(g))
    decreases |es|
  {
    if |es| > 0 {
      var e := es[0];
      assert e in es;
      var h := AddEdge(g, e.start, e.end).graph;
      MatrixStep(g, e);
      assert Antisymmetric(es[1..]) by {
        assert forall x :: x in es[1..] ==> x in es;
      }
      assert forall x :: x in Edges(h) ==> Edge(x.end, x.start) !in es[1..] by {
        assert forall x :: x in es[1..] ==> x in es;
      }
      LoadMatrixExact(h, es[1..]);
      AdmissibleCons(es, Order(g));
    }
  }

  /** The four edges (0, 1), (0, 2), (1, 3), (2, 3): two paths from 0 that
      meet at 3. */
  function DiamondEdges(): seq<Edge> {
    [Edge(0, 1), Edge(0, 2), Edge(1, 3), Edge(2, 3)]
  }

  /** Loaded into a graph of four vertices, in any layout, the diamond gives
      the successor lists [1, 2], [3], [3] and []. */
  lemma DiamondView(layout: Layout)
    ensures var g := Load(New(layout, 4), DiamondEdges());
            View(g).succ == [[1, 2], [3], [3], []]
  {
    var g := Load(New(layout, 4), DiamondEdges());
    DiamondStored(layout);
    DiamondLists(g);
    ViewRows(g);
  }

  /** Every layout stores exactly the four diamond edges. */
  lemma DiamondStored(layout: Layout)
    ensures Edges(Load(New(layout, 4), DiamondEdges())) == {Edge(0, 1), Edge(0, 2), Edge(1, 3), Edge(2, 3)}
  {
    var es := DiamondEdges();
    var g0 := New(layout, 4);
    if layout == AdjacencyMatrix {
      LoadMatrixExact(g0, es);
    } else {
      LoadListLayout(g0, es);
    }
    DiamondAdmissible();
  }

  lemma DiamondAdmissible()
    ensures Admissible(DiamondEdges(), 4) == {Edge(0, 1), Edge(0, 2), Edge(1, 3), Edge(2, 3)}
  {
    var es := DiamondEdges();
    forall e
      ensures e in Admissible(es, 4) <==> e in {Edge(0, 1), Edge(0, 2), Edge(1, 3), Edge(2, 3)}
    {
      if e in es {
        assert InRange(e, 4);
      }
    }
  }

  lemma DiamondLists(g: Graph)
    requires Valid(g) && Order(g) == 4
    requires Edges(g) == {Edge(0, 1), Edge(0, 2), Edge(1, 3), Edge(2, 3)}
    ensures Succ(g, 0) == [1, 2] && Succ(g, 1) == [3] && Succ(g, 2) == [3] && Succ(g, 3) == []
  {
    DiamondRow(g, 0, [1, 2]);
    DiamondRow(g, 1, [3]);
    DiamondRow(g, 2, [3]);
    DiamondRow(g, 3, []);
  }

  lemma ViewRows(g: Graph)
    requires Valid(g) && Order(g) == 4
    requires Succ(g, 0) == [1, 2] && Succ(g, 1) == [3] && Succ(g, 2) == [3] && Succ(g, 3) == []
    ensures View(g).succ == [[1, 2], [3], [3], []]
  {
    var d := View(g);
    assert d.succ[0] == [1, 2] && d.succ[1] == [3] && d.succ[2] == [3] && d.succ[3] == [];
  }

  lemma DiamondRow(g: Graph, v: int, w: seq<int>)
    requires Valid(g) && Order(g) == 4
    requires Edges(g) == {Edge(0, 1), Edge(0, 2), Edge(1, 3), Edge(2, 3)}
    requires 0 <= v < 4 && w == [[1, 2], [3], [3], []][v]
    ensures Succ(g, v) == w
  {
    forall x
      ensures x in w <==> Edge(v, x) in Edges(g)
    {
      DiamondEnds(v, w, x);
    }
    SuccIs(g, v, w);
  }

  lemma DiamondEnds(v: int, w: seq<int>, x: int)
    requires 0 <= v < 4 && w == [[1, 2], [3], [3], []][v]
    ensures x in w <==> Edge(v, x) in {Edge(0, 1), Edge(0, 2), Edge(1, 3), Edge(2, 3)}
  {
  }

  /** The successor list of `v` is the one ascending list of its ends. */
  lemma SuccIs(g: Graph, v: int, w: seq<int>)
    requires Valid(g) && 0 <= v < Order(g)
    requires Ascending(w) && forall x :: x in w <==> Edge(v, x) in Edges(g)
    ensures Succ(g, v) == w
  {
    assert Ascending(Succ(g, v)) by {
      assert Succ(g, v) == Successors(g, v).value;
    }
    AscendingUnique(Succ(g, v), w);
  }

  /** Layouts holding the same edges over the same vertices return the same
      successor lists; the matrix and the successor lists also return the
      same predecessor lists. */
  lemma SameEdgesSameQueries(g: Graph, h: Graph, v: int)
    requires Valid(g) && Valid(h) && Order(g) == Order(h) && Edges(g) == Edges(h)
    ensures Successors(g, v) == Successors(h, v)
    ensures !g.OfEdgeList? && !h.OfEdgeList? ==> Predecessors(g, v) == Predecessors(h, v)
  {
    if 0 <= v < Order(g) {
      AscendingUnique(Successors(g, v).value, Successors(h, v).value);
      if !g.OfEdgeList? && !h.OfEdgeList? {
        AscendingUnique(Predecessors(g, v).value, Predecessors(h, v).value);
      }
    }
  }

  /** Fed the same edges, the sorted edge list and the successor lists hold
      the same edge set and answer every successor query alike; so does the
      matrix when the edges are loop-free and hold no edge with its reverse,
      and then it also agrees with the successor lists on predecessors. */
  lemma LayoutsAgree(n: int, es: seq<Edge>, v: int)
    ensures var l := Load(New(SortedEdgeList, n), es);
            var s := Load(New(SuccessorLists, n), es);
            && Edges(l) == Edges(s)
            && Successors(l, v) == Successors(s, v)
    ensures var m := Load(New(AdjacencyMatrix, n), es);
            var s := Load(New(SuccessorLists, n), es);
            && Edges(m) <= Edges(s)
            && (Antisymmetric(es) ==>
                  Successors(m, v) == Successors(s, v) && Predecessors(m, v) == Predecessors(s, v))
  {
    var l := Load(New(SortedEdgeList, n), es);
    var s := Load(New(SuccessorLists, n), es);
    var m := Load(New(AdjacencyMatrix, n), es);
    LoadListLayout(New(SortedEdgeList, n), es);
    LoadListLayout(New(SuccessorLists, n), es);
    LoadMatrixSubset(New(AdjacencyMatrix, n), es);
    SameEdgesSameQueries(l, s, v);
    if Antisymmetric(es) {
      LoadMatrixExact(New(AdjacencyMatrix, n), es);
      SameEdgesSameQueries(m, s, v);
    }
  }
}
