/** `ListaKrawedzi`: one list of edges kept strictly sorted in the edge order.
    Insertion binary-searches for the edge and inserts it at the reported
    position when absent. `Poprzedniki` binary-searches its partial result for
    the edge's end (the queried vertex itself) instead of the edge's start;
    the model keeps that behaviour and states exactly what it yields. */
module EdgeListGraph {
  import opened Common
  import opened DirectedEdges

  /** A graph of order `order` with its edge list; a graph built with
      order < 1 has order 0 and no edges. */
  datatype EdgeList = EdgeList(order: int, edges: seq<Edge>)

  predicate Valid(g: EdgeList) {
    && g.order >= 0
    && Sorted(g.edges)
    && (forall i :: 0 <= i < |g.edges| ==> InRange(g.edges[i], g.order))
  }

  /** The abstract edge set: the elements of the list. */
  ghost function Edges(g: EdgeList): set<Edge> {
    set e | e in g.edges
  }

  /** The constructor `ListaKrawedzi(rzadGrafu)`. */
  function New(n: int): (g: EdgeList)
    ensures Valid(g)
    ensures g.order == if n < 1 then 0 else n
    ensures Edges(g) == {}
  {
    if n < 1 then EdgeList(0, []) else EdgeList(n, [])
  }

  /** `DodajKrawedz(k)` (and the `(poczatek, koniec)` overload, which builds
      the edge and delegates). */
  function AddEdge(g: EdgeList, p: int, k: int): (r: Insertion<EdgeList>)
    requires Valid(g)
    ensures Valid(r.graph) && r.graph.order == g.order
    ensures r.added <==> InRange(Edge(p, k), g.order) && Edge(p, k) !in Edges(g)
    ensures !r.added ==> r.graph == g
    ensures r.added ==> Edges(r.graph) == Edges(g) + {Edge(p, k)} && |r.graph.edges| == |g.edges| + 1
  {
    var e := Edge(p, k);
    if !InRange(e, g.order) then Insertion(g, false)
    else
      var index := BinarySearch(g.edges, e, Compare);
      BinarySearchSorted(g.edges, e);
      if index < 0 then
        var q := -index - 1;
        var h := EdgeList(g.order, g.edges[..q] + [e] + g.edges[q..]);
        assert g.edges == g.edges[..q] + g.edges[q..];
        assert Edges(h) == Edges(g) + {e};
        Insertion(h, true)
      else Insertion(g, false)
  }

  /** `CzyKrawedz(k)`: a binary search for the edge. On a graph of order 0
      the program's list is null and the search dereferences it, so the
      model requires a graph of order at least 1. */
  function HasEdge(g: EdgeList, p: int, k: int): (r: bool)
    requires Valid(g) && g.order >= 1
    ensures r <==> Edge(p, k) in Edges(g)
  {
    BinarySearchSorted(g.edges, Edge(p, k));
    BinarySearch(g.edges, Edge(p, k), Compare) >= 0
  }

  /** The ends of the edges of `es` that start at `v`, in list order. */
  function EndsFrom(es: seq<Edge>, v: int): (r: seq<int>)
    ensures forall j :: j in r <==> Edge(v, j) in es
    ensures Sorted(es) ==> Ascending(r)
  {
    if |es| == 0 then []
    else
      var rest := EndsFrom(es[1..], v);
      assert forall j :: j in rest ==> Edge(v, j) in es[1..];
      assert Sorted(es) ==> forall i :: 0 <= i < |rest| ==> es[0].end < rest[i] || es[0].start != v by {
        if Sorted(es) {
          forall i | 0 <= i < |rest|
            ensures es[0].end < rest[i] || es[0].start != v
          {
            assert rest[i] in rest;
            var m :| 0 <= m < |es[1..]| && es[1..][m] == Edge(v, rest[i]);
            assert Precedes(es[0], es[m + 1]);
          }
        }
      }
      assert es == [es[0]] + es[1..];
      if es[0].start == v then [es[0].end] + rest else rest
  }

  /** `Nastepniki(wierzcholek)`: absent out of range, otherwise the ends of
      the edges starting at `v`, which the sorted list yields ascending. */
  function Successors(g: EdgeList, v: int): (r: Option<seq<int>>)
    requires Valid(g)
    ensures r.None? <==> !(0 <= v < g.order)
    ensures r.Some? ==> Ascending(r.value) && forall j :: j in r.value <==> Edge(v, j) in Edges(g)
  {
    if !(0 <= v < g.order) then None else Some(EndsFrom(g.edges, v))
  }

  // ---------------------------------------------------------------------
  // Poprzedniki
  // ---------------------------------------------------------------------

  /** The loop of `Poprzedniki` from position `i` on: for every edge ending
      at `v` it binary-searches the result so far for the edge's END and, on
      a miss, inserts the edge's START at the position the search reports. */
  function PredecessorScan(es: seq<Edge>, v: int, i: nat, acc: seq<int>): seq<int>
    requires i <= |es|
    decreases |es| - i
  {
    if i == |es| then acc
    else if es[i].end == v then
      var index := BinarySearch(acc, es[i].end, IntCompare);
      if index < 0 then
        var q := -index - 1;
        PredecessorScan(es, v, i + 1, acc[..q] + [es[i].start] + acc[q..])
      else PredecessorScan(es, v, i + 1, acc)
    else PredecessorScan(es, v, i + 1, acc)
  }

  /** The starts of the edges of `es` that end at `v`, in list order. */
  function Starts(es: seq<Edge>, v: int): seq<int> {
    if |es| == 0 then []
    else Starts(es[..|es| - 1], v) + if es[|es| - 1].end == v then [es[|es| - 1].start] else []
  }

  /** The elements of `s` below `v`, in order. */
  function Below(s: seq<int>, v: int): seq<int> {
    if |s| == 0 then []
    else Below(s[..|s| - 1], v) + if s[|s| - 1] < v then [s[|s| - 1]] else []
  }

  /** The elements of `s` above `v`, in reverse order. */
  function AboveReversed(s: seq<int>, v: int): seq<int> {
    if |s| == 0 then []
    else (if v < s[|s| - 1] then [s[|s| - 1]] else []) + AboveReversed(s[..|s| - 1], v)
  }

  lemma {:induction false} StartsMembers(es: seq<Edge>, v: int)
    ensures forall u :: u in Starts(es, v) <==> Edge(u, v) in es
  {
    if |es| > 0 {
      StartsMembers(es[..|es| - 1], v);
      assert es == es[..|es| - 1] + [es[|es| - 1]];
    }
  }

  lemma {:induction false} BelowMembers(s: seq<int>, v: int)
    ensures forall x :: x in Below(s, v) <==> x in s && x < v
  {
    if |s| > 0 {
      BelowMembers(s[..|s| - 1], v);
      assert s == s[..|s| - 1] + [s[|s| - 1]];
    }
  }

  lemma {:induction false} AboveReversedMembers(s: seq<int>, v: int)
    ensures forall x :: x in AboveReversed(s, v) <==> x in s && v < x
  {
    if |s| > 0 {
      AboveReversedMembers(s[..|s| - 1], v);
      assert s == s[..|s| - 1] + [s[|s| - 1]];
    }
  }

  /** What `Poprzedniki(v)` yields when the starts of the edges ending at `v`
      are `s` in list order: the starts below `v` ascending; then, if the
      self-loop (v, v) is present, just `v` (every later search finds `v` and
      the starts above it are dropped); otherwise the starts above `v` in
      descending order (each one is inserted in front of the previous). */
  function Yield(s: seq<int>, v: int): seq<int> {
    Below(s, v) + if v in s then [v] else AboveReversed(s, v)
  }

  lemma {:induction false} BelowAscending(s: seq<int>, v: int)
    requires Ascending(s)
    ensures Ascending(Below(s, v))
  {
    if |s| > 0 {
      var init := s[..|s| - 1];
      BelowAscending(init, v);
      BelowMembers(init, v);
      var b := Below(init, v);
      assert forall i :: 0 <= i < |b| ==> b[i] in b && b[i] in init;
      assert forall i :: 0 <= i < |init| ==> init[i] < s[|s| - 1];
    }
  }

  lemma {:induction false} AboveReversedDescending(s: seq<int>, v: int)
    requires Ascending(s)
    ensures forall i, j :: 0 <= i < j < |AboveReversed(s, v)| ==> AboveReversed(s, v)[i] > AboveReversed(s, v)[j]
  {
    if |s| > 0 {
      var init := s[..|s| - 1];
      AboveReversedDescending(init, v);
      AboveReversedMembers(init, v);
      var a := AboveReversed(init, v);
      assert forall i :: 0 <= i < |a| ==> a[i] in a && a[i] in init;
      assert forall i :: 0 <= i < |init| ==> init[i] < s[|s| - 1];
    }
  }

  /** The yield never repeats a vertex. */
  lemma YieldNoDup(s: seq<int>, v: int)
    requires Ascending(s)
    ensures NoDup(Yield(s, v))
  {
    BelowAscending(s, v);
    AboveReversedDescending(s, v);
    BelowMembers(s, v);
    AboveReversedMembers(s, v);
    var b := Below(s, v);
    var t := if v in s then [v] else AboveReversed(s, v);
    forall i | 0 <= i < |b|
      ensures b[i] < v
    {
      assert b[i] in b;
    }
    forall i | 0 <= i < |t|
      ensures v <= t[i]
    {
      assert t[i] in t;
    }
    var y := b + t;
    forall i, j | 0 <= i < j < |y|
      ensures y[i] != y[j]
    {
      if j < |b| {
        assert y[i] == b[i] && y[j] == b[j];
      } else if i >= |b| {
        assert y[i] == t[i - |b|] && y[j] == t[j - |b|];
      } else {
        assert y[i] == b[i] && y[j] == t[j - |b|];
      }
    }
  }

  /** Starts of a sorted list's edges ending at `v` are ascending. */
  lemma {:induction false} StartsAscending(es: seq<Edge>, v: int)
    requires Sorted(es)
    ensures Ascending(Starts(es, v))
  {
    if |es| > 0 {
      var init := es[..|es| - 1];
      StartsAscending(init, v);
      StartsMembers(init, v);
      var s := Starts(init, v);
      forall i | 0 <= i < |s|
        ensures es[|es| - 1].end == v ==> s[i] < es[|es| - 1].start
      {
        assert s[i] in s;
        var m :| 0 <= m < |init| && init[m] == Edge(s[i], v);
        assert Precedes(es[m], es[|es| - 1]);
      }
    }
  }

  lemma BelowSnoc(s: seq<int>, u: int, v: int)
    ensures Below(s + [u], v) == Below(s, v) + if u < v then [u] else []
  {
    assert (s + [u])[..|s + [u]| - 1] == s;
  }

  lemma AboveReversedSnoc(s: seq<int>, u: int, v: int)
    ensures AboveReversed(s + [u], v) == (if v < u then [u] else []) + AboveReversed(s, v)
  {
    assert (s + [u])[..|s + [u]| - 1] == s;
  }

  /** The yield is split at the number of starts below `v`: smaller ones
      first, then `v` or larger ones. */
  lemma YieldPartitioned(s: seq<int>, v: int)
    ensures Partitioned(Yield(s, v), v, IntCompare, |Below(s, v)|)
  {
    BelowMembers(s, v);
    AboveReversedMembers(s, v);
    var b := Below(s, v);
    var tail := if v in s then [v] else AboveReversed(s, v);
    var acc := b + tail;
    forall i | 0 <= i < |b|
      ensures b[i] < v
    {
      assert b[i] in b;
    }
    forall i | 0 <= i < |tail|
      ensures v <= tail[i]
    {
      assert tail[i] in tail;
    }
    assert forall i :: 0 <= i < |b| ==> acc[i] == b[i];
    assert forall i :: |b| <= i < |acc| ==> acc[i] == tail[i - |b|];
  }

  /** Searching the yield for `v` hits exactly when `v` is among the
      starts, and otherwise reports the end of the starts below `v`. */
  lemma SearchYield(s: seq<int>, v: int)
    ensures var index := BinarySearch(Yield(s, v), v, IntCompare);
            && (index >= 0 <==> v in s)
            && (index < 0 ==> -index - 1 == |Below(s, v)|)
  {
    var acc := Yield(s, v);
    var p := |Below(s, v)|;
    YieldPartitioned(s, v);
    BinarySearchPartitioned(acc, v, IntCompare, p);
    BelowMembers(s, v);
    AboveReversedMembers(s, v);
    assert v in s ==> acc[p] == v;
    assert v !in s ==> v !in acc;
  }

  /** One step of the scan keeps the accumulated list equal to the yield of
      the starts seen so far. */
  lemma ScanStep(s: seq<int>, v: int, u: int)
    requires forall x :: x in s ==> x < u
    ensures var acc := Yield(s, v);
            var index := BinarySearch(acc, v, IntCompare);
            Yield(s + [u], v) == if index < 0 then acc[..-index - 1] + [u] + acc[-index - 1..] else acc
  {
    SearchYield(s, v);
    if v in s {
      ScanStepFound(s, v, u);
    } else {
      ScanStepMissed(s, v, u);
    }
  }

  /** `v` already collected: every later start is larger and is skipped. */
  lemma ScanStepFound(s: seq<int>, v: int, u: int)
    requires forall x :: x in s ==> x < u
    requires v in s
    ensures Yield(s + [u], v) == Yield(s, v)
  {
    BelowSnoc(s, u, v);
    assert v in s + [u];
  }

  /** `v` not collected yet: the start goes in right after the starts below `v`. */
  lemma ScanStepMissed(s: seq<int>, v: int, u: int)
    requires forall x :: x in s ==> x < u
    requires v !in s
    ensures var acc := Yield(s, v);
            var q := |Below(s, v)|;
            q <= |acc| && Yield(s + [u], v) == acc[..q] + [u] + acc[q..]
  {
    var b := Below(s, v);
    var a := AboveReversed(s, v);
    var acc := Yield(s, v);
    assert acc == b + a;
    assert acc[..|b|] == b && acc[|b|..] == a;
    var q := |b|;
    assert acc[..q] + [u] + acc[q..] == b + [u] + a;
    if u == v {
      YieldSnocVertex(s, v);
      AboveReversedEmpty(s, v);
    } else {
      YieldSnocOther(s, v, u);
    }
  }

  lemma {:induction false} AboveReversedEmpty(s: seq<int>, v: int)
    requires forall x :: x in s ==> x <= v
    ensures AboveReversed(s, v) == []
  {
    if |s| > 0 {
      assert s[|s| - 1] in s;
      var init := s[..|s| - 1];
      assert forall x :: x in init ==> x in s;
      AboveReversedEmpty(init, v);
    }
  }

  lemma YieldSnocVertex(s: seq<int>, v: int)
    requires v !in s
    ensures Yield(s + [v], v) == Below(s, v) + [v]
  {
    BelowSnoc(s, v, v);
    assert v in s + [v];
  }

  lemma YieldSnocOther(s: seq<int>, v: int, u: int)
    requires v !in s && u != v
    requires forall x :: x in s ==> x < u
    ensures Yield(s + [u], v) == Below(s, v) + [u] + AboveReversed(s, v)
  {
    var t := s + [u];
    assert v !in t;
    assert Yield(t, v) == Below(t, v) + AboveReversed(t, v);
    BelowSnoc(s, u, v);
    AboveReversedSnoc(s, u, v);
    if u < v {
      assert forall x :: x in s ==> x <= v;
      AboveReversedEmpty(s, v);
    }
  }

  lemma {:induction false} ScanYields(es: seq<Edge>, v: int, i: nat)
    requires Sorted(es) && i <= |es|
    ensures PredecessorScan(es, v, i, Yield(Starts(es[..i], v), v)) == Yield(Starts(es, v), v)
    decreases |es| - i
  {
    if i == |es| {
      assert es[..i] == es;
    } else {
      var s := Starts(es[..i], v);
      assert es[..i + 1][..i] == es[..i];
      StartsAscending(es[..i + 1], v);
      if es[i].end == v {
        assert Starts(es[..i + 1], v) == s + [es[i].start];
        assert forall x :: x in s ==> x < es[i].start by {
          var t := s + [es[i].start];
          forall x | x in s
            ensures x < es[i].start
          {
            var j :| 0 <= j < |s| && s[j] == x;
            assert t[j] == x && t[|s|] == es[i].start;
          }
        }
        ScanStep(s, v, es[i].start);
      } else {
        assert Starts(es[..i + 1], v) == s;
      }
      ScanYields(es, v, i + 1);
    }
  }

  /** Which vertices the yield holds: everything up to `v`, and the larger
      ones only when `v` itself is absent. */
  lemma YieldMembers(s: seq<int>, v: int)
    ensures forall x :: x in Yield(s, v) <==> x in s && (x <= v || v !in s)
  {
    BelowMembers(s, v);
    AboveReversedMembers(s, v);
  }

  /** `Poprzedniki(wierzcholek)`: absent out of range; otherwise the yield
      of the starts of the edges ending at `v`. As a set that is every start
      below or at `v`, and the starts above `v` only when no self-loop (v, v)
      is stored; it never repeats a vertex. */
  function Predecessors(g: EdgeList, v: int): (r: Option<seq<int>>)
    requires Valid(g)
    ensures r.None? <==> !(0 <= v < g.order)
    ensures r.Some? ==> r.value == Yield(Starts(g.edges, v), v)
    ensures r.Some? ==> NoDup(r.value)
    ensures r.Some? ==> forall u :: u in r.value <==> Edge(u, v) in Edges(g) && (u <= v || Edge(v, v) !in Edges(g))
  {
    if !(0 <= v < g.order) then None
    else
      var s := PredecessorScan(g.edges, v, 0, []);
      assert g.edges[..0] == [];
      ScanYields(g.edges, v, 0);
      StartsAscending(g.edges, v);
      YieldNoDup(Starts(g.edges, v), v);
      YieldMembers(Starts(g.edges, v), v);
      StartsMembers(g.edges, v);
      Some(s)
  }

  /** The result need not be ascending: starts above `v` come out descending. */
  lemma PredecessorsDescendAboveVertex()
    ensures Predecessors(EdgeList(4, [Edge(0, 1), Edge(2, 1), Edge(3, 1)]), 1) == Some([0, 3, 2])
  {
    var es := [Edge(0, 1), Edge(2, 1), Edge(3, 1)];
    assert Valid(EdgeList(4, es));
    StartsExample();
    YieldExample();
  }

  lemma StartsExample()
    ensures Starts([Edge(0, 1), Edge(2, 1), Edge(3, 1)], 1) == [0, 2, 3]
  {
    var es := [Edge(0, 1), Edge(2, 1), Edge(3, 1)];
    var e1 := [Edge(0, 1)];
    var e2 := [Edge(0, 1), Edge(2, 1)];
    assert e1[..0] == [];
    assert Starts(e1, 1) == [0];
    assert e2[..1] == e1;
    assert Starts(e2, 1) == [0, 2];
    assert es[..2] == e2;
  }

  lemma YieldExample()
    ensures Yield([0, 2, 3], 1) == [0, 3, 2]
  {
    assert [0, 2, 3][..2] == [0, 2] && [0, 2][..1] == [0] && [0][..0] == [];
    assert Below([0], 1) == [0];
    assert Below([0, 2], 1) == [0];
    assert Below([0, 2, 3], 1) == [0];
    assert AboveReversed([0], 1) == [];
    assert AboveReversed([0, 2], 1) == [2];
    assert AboveReversed([0, 2, 3], 1) == [3, 2];
  }

  /** A stored self-loop (v, v) hides every predecessor above `v`. */
  lemma PredecessorsHiddenBySelfLoop()
    ensures Predecessors(EdgeList(3, [Edge(1, 1), Edge(2, 1)]), 1) == Some([1])
  {
    assert Valid(EdgeList(3, [Edge(1, 1), Edge(2, 1)]));
    SelfLoopStartsExample();
    SelfLoopYieldExample();
  }

  lemma SelfLoopStartsExample()
    ensures Starts([Edge(1, 1), Edge(2, 1)], 1) == [1, 2]
  {
    var es := [Edge(1, 1), Edge(2, 1)];
    var e1 := [Edge(1, 1)];
    assert e1[..0] == [];
    assert Starts(e1, 1) == [1];
    assert es[..1] == e1;
  }

  lemma SelfLoopYieldExample()
    ensures Yield([1, 2], 1) == [1]
  {
    assert [1, 2][..1] == [1] && [1][..0] == [];
    assert Below([1], 1) == [];
    assert Below([1, 2], 1) == [];
  }
}
