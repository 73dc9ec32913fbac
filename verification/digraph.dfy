/** What the algorithms of `Graf` read from a graph: its order `Rzad()` and,
    for every vertex, the lists `Nastepniki` and `Poprzedniki` return. The
    algorithms only ever query in-range vertices, and the queries are pure,
    so the graph is seen through these lists; `Graphs.View` tabulates them
    for each layout. */
module Digraphs {
  import opened Common

  datatype Digraph = Digraph(order: int, succ: seq<seq<int>>, pred: seq<seq<int>>)

  /** The edge (v, w): `w` is listed among the successors of `v`. */
  predicate Arc(d: Digraph, v: int, w: int) {
    0 <= v < |d.succ| && w in d.succ[v]
  }

  /** No vertex has a successor. */
  predicate Arcless(d: Digraph) {
    forall v :: 0 <= v < |d.succ| ==> d.succ[v] == []
  }

  /** The guarantees every layout gives: duplicate-free lists of in-range
      vertices; every reported predecessor `u` of `v` has the edge (u, v),
      and an edge (u, v) is reported unless `v` itself is (the sorted edge
      list with a self-loop at `v` misses predecessors). */
  ghost predicate Valid(d: Digraph) {
    && d.order >= 0 && |d.succ| == d.order && |d.pred| == d.order
    && (forall v :: 0 <= v < d.order ==> NoDup(d.succ[v]) && NoDup(d.pred[v]))
    && (forall v, w :: 0 <= v < d.order && w in d.succ[v] ==> 0 <= w < d.order)
    && (forall u, v :: 0 <= v < d.order && u in d.pred[v] ==> Arc(d, u, v))
    && (forall u, v :: 0 <= v < d.order && Arc(d, u, v) ==> u in d.pred[v] || v in d.pred[v])
  }
}
