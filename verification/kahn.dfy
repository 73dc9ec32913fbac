/** `AlgorytmKahna`: Kahn's topological sort. Every vertex starts with the
    predecessor list `Poprzedniki` reports; each round removes the least
    vertex whose list is empty, emits it, and strikes it from the lists of
    its successors. The sort fails (null) on an empty graph or when no list
    is empty. It is stated on the view of a graph (`Digraphs`); `SortOf`
    applies it to a graph of any layout. */
module Kahn {
  import opened Common
  import opened DirectedEdges
  import opened Digraphs
  import G = Graphs

  /** Every predecessor the layout reports for `v` is in `done`. */
  ghost predicate Ready(d: Digraph, v: int, done: seq<int>)
    requires Valid(d) && 0 <= v < d.order
  {
    forall u :: u in d.pred[v] ==> u in done
  }

  /** Each emitted vertex was ready when it was emitted. */
  ghost predicate EmittedReady(d: Digraph, out: seq<int>)
    requires Valid(d)
  {
    forall j :: 0 <= j < |out| ==> 0 <= out[j] < d.order && Ready(d, out[j], out[..j])
  }

  /** Each emitted vertex was the least ready one. */
  ghost predicate Greedy(d: Digraph, out: seq<int>)
    requires Valid(d)
  {
    forall j, v :: 0 <= j < |out| && 0 <= v < out[j] && v < d.order && v !in out[..j] ==>
      !Ready(d, v, out[..j])
  }

  /** `ord` lists every vertex once, and every edge points forward in it. */
  ghost predicate IsTopologicalOrder(d: Digraph, ord: seq<int>)
    requires Valid(d)
  {
    && (forall v :: v in ord <==> 0 <= v < d.order)
    && NoDup(ord)
    && EdgesForward(d, ord)
  }

  /** Every edge between two positions of `ord` points strictly forward. */
  ghost predicate EdgesForward(d: Digraph, ord: seq<int>)
    requires Valid(d)
  {
    forall i, j :: 0 <= i < |ord| && 0 <= j < |ord| && Arc(d, ord[i], ord[j]) ==> i < j
  }

  /** The map `poprzedniki` after emitting `out`: one key per vertex not yet
      emitted, holding its reported predecessors not yet emitted. */
  ghost predicate Pending(d: Digraph, pending: map<int, seq<int>>, out: seq<int>)
    requires Valid(d)
  {
    && (forall v :: v in pending <==> 0 <= v < d.order && v !in out)
    && (forall v :: v in pending ==> 0 <= v < d.order && Remaining(d, v, pending[v], out))
  }

  /** `list` holds, once each, the reported predecessors of `v` outside
      `out`. */
  ghost predicate Remaining(d: Digraph, v: int, list: seq<int>, out: seq<int>)
    requires Valid(d) && 0 <= v < d.order
  {
    && NoDup(list)
    && forall u :: u in list <==> u in d.pred[v] && u !in out
  }

  /** `AlgorytmKahna()`. */
  method Sort(d: Digraph) returns (r: Option<seq<int>>)
    requires Valid(d)
    ensures d.order == 0 ==> r.None?
    ensures r.Some? ==> IsTopologicalOrder(d, r.value)
    ensures r.Some? ==> EmittedReady(d, r.value) && Greedy(d, r.value)
    ensures r.Some? <==> d.order > 0 && exists ord :: IsTopologicalOrder(d, ord)
  {
    if d.order <= 0 {
      return None;
    }
    var pending := InitialLists(d);
    var out: seq<int> := [];
    while |pending| > 0
      invariant Pending(d, pending, out)
      invariant NoDup(out) && EmittedReady(d, out) && Greedy(d, out)
      decreases pending.Keys
    {
      var w := FirstReady(d, pending, out);
      if w == -1 {
        Stuck(d, pending, out);
        return None;
      }
      Emit(d, pending, out, w);
      var keys := pending.Keys;
      pending := Strike(d, pending - {w}, out, w);
      out := out + [w];
      assert pending.Keys < keys by {
        assert w in keys && w !in pending.Keys;
        assert forall x :: x in pending.Keys ==> x in keys;
      }
    }
    Finished(d, pending, out);
    r := Some(out);
  }

  /** `AlgorytmKahna()` on a graph of any layout: it sorts the view of `g`,
      so a returned order lists every vertex once and every edge of `g`
      points forward in it. */
  method SortOf(g: G.Graph) returns (r: Option<seq<int>>)
    requires G.Valid(g)
    ensures G.Order(g) == 0 ==> r.None?
    ensures r.Some? <==> G.Order(g) > 0 && exists ord :: IsTopologicalOrder(G.View(g), ord)
    ensures r.Some? ==> NoDup(r.value) && forall v :: v in r.value <==> 0 <= v < G.Order(g)
    ensures r.Some? ==> forall i, j :: 0 <= i < |r.value| && 0 <= j < |r.value| && Edge(r.value[i], r.value[j]) in G.Edges(g) ==> i < j
    ensures r.Some? ==> EmittedReady(G.View(g), r.value) && Greedy(G.View(g), r.value)
  {
    r := Sort(G.View(g));
  }

  /** The first loop of `AlgorytmKahna`: every vertex keyed to its reported
      predecessors. */
  function InitialLists(d: Digraph): (pending: map<int, seq<int>>)
    requires Valid(d)
    ensures Pending(d, pending, [])
  {
    map v | 0 <= v < d.order :: d.pred[v]
  }

  /** The `foreach` over `poprzedniki` in ascending key order: the least key
      whose list is empty, or -1 when there is none. */
  method FirstReady(d: Digraph, pending: map<int, seq<int>>, out: seq<int>) returns (w: int)
    requires Valid(d) && Pending(d, pending, out)
    ensures w == -1 ==> forall x :: x in pending ==> |pending[x]| > 0
    ensures w != -1 ==> 0 <= w < d.order && w in pending && |pending[w]| == 0
    ensures w != -1 ==> forall x :: 0 <= x < w && x in pending ==> |pending[x]| > 0
  {
    w := -1;
    var v := 0;
    while v < d.order && w == -1
      invariant 0 <= v <= d.order
      invariant w == -1 ==> forall x :: 0 <= x < v && x in pending ==> |pending[x]| > 0
      invariant w != -1 ==> 0 <= w < d.order && w in pending && |pending[w]| == 0
      invariant w != -1 ==> forall x :: 0 <= x < w && x in pending ==> |pending[x]| > 0
    {
      if v in pending && |pending[v]| == 0 {
        w := v;
      }
      v := v + 1;
    }
  }

  /** The state once `w`, emitted after `out`, has left the map. */
  ghost predicate Emitting(d: Digraph, pending: map<int, seq<int>>, out: seq<int>, w: int)
    requires Valid(d)
  {
    && NoDup(out) && EmittedReady(d, out)
    && 0 <= w < d.order && w !in out && Ready(d, w, out)
    && (forall v :: v in pending <==> 0 <= v < d.order && v !in out + [w])
    && (forall v :: v in pending ==> 0 <= v < d.order && Remaining(d, v, pending[v], out))
  }

  /** The `foreach` over `Nastepniki(w)` after `w` is emitted: `w` is
      struck from the list of each successor, whose key is always present. */
  method Strike(d: Digraph, pending: map<int, seq<int>>, out: seq<int>, w: int) returns (next: map<int, seq<int>>)
    requires Valid(d) && Emitting(d, pending, out, w)
    ensures Pending(d, next, out + [w])
  {
    var succ := d.succ[w];
    next := pending;
    var j := 0;
    StrikeStart(d, pending, out, w);
    while j < |succ|
      invariant Striking(d, pending, next, out, w, j)
    {
      var s := succ[j];
      StrikeStep(d, pending, out, w, next, j);
      next := next[s := RemoveFirst(next[s], w)];
      j := j + 1;
    }
    StrikeDone(d, pending, next, out, w);
  }

  /** The state of the `foreach` after the first `j` successors of `w`. */
  ghost predicate Striking(d: Digraph, pending: map<int, seq<int>>, next: map<int, seq<int>>, out: seq<int>, w: int, j: int)
    requires Valid(d)
  {
    && Emitting(d, pending, out, w)
    && 0 <= j <= |d.succ[w]|
    && next.Keys == pending.Keys
    && StruckFrom(d, next, out, w, d.succ[w][..j])
  }

  lemma StrikeStart(d: Digraph, pending: map<int, seq<int>>, out: seq<int>, w: int)
    requires Valid(d) && Emitting(d, pending, out, w)
    ensures Striking(d, pending, pending, out, w, 0)
  {
    assert d.succ[w][..0] == [];
  }

  /** One pass of the `foreach`: the key of the successor is present, and
      striking `w` from its list extends the struck prefix. */
  lemma StrikeStep(d: Digraph, pending: map<int, seq<int>>, out: seq<int>, w: int, next: map<int, seq<int>>, j: int)
    requires Valid(d) && Striking(d, pending, next, out, w, j) && j < |d.succ[w]|
    ensures var s := d.succ[w][j];
            && s in next
            && Striking(d, pending, next[s := RemoveFirst(next[s], w)], out, w, j + 1)
  {
    var succ := d.succ[w];
    var s := succ[j];
    assert s in succ;
    SuccessorPending(d, out, w, s);
    assert s in pending;
    StrikeOne(d, next, out, w, succ[..j], s);
    TakeSnoc(succ, j);
  }

  /** The lists after striking `w` from those of the vertices in `done`. */
  ghost predicate StruckFrom(d: Digraph, next: map<int, seq<int>>, out: seq<int>, w: int, done: seq<int>)
    requires Valid(d)
  {
    forall v :: v in next ==>
      && 0 <= v < d.order
      && NoDup(next[v])
      && forall u :: (u in next[v] <==> u in d.pred[v] && u !in out && !(u == w && v in done))
  }

  lemma StrikeOne(d: Digraph, next: map<int, seq<int>>, out: seq<int>, w: int, done: seq<int>, s: int)
    requires Valid(d) && StruckFrom(d, next, out, w, done) && s in next
    ensures StruckFrom(d, next[s := RemoveFirst(next[s], w)], out, w, done + [s])
  {
    RemoveFirstNoDup(next[s], w);
  }

  /** Every list holding `w` belongs to a successor of `w`, so after the
      strike no list holds it. */
  lemma StrikeDone(d: Digraph, pending: map<int, seq<int>>, next: map<int, seq<int>>, out: seq<int>, w: int)
    requires Valid(d) && 0 <= w < d.order && Striking(d, pending, next, out, w, |d.succ[w]|)
    ensures Pending(d, next, out + [w])
  {
    assert d.succ[w][..|d.succ[w]|] == d.succ[w];
    assert forall v :: v in next <==> v in pending;
    forall v | v in next
      ensures Remaining(d, v, next[v], out + [w])
    {
      forall u
        ensures u in next[v] <==> u in d.pred[v] && u !in out + [w]
      {
        if u == w && u in d.pred[v] {
          assert v in d.succ[w];
        }
      }
    }
  }

  /** The removal of `w` from the lists of its successors: none of them is
      emitted yet, so `poprzedniki[nastepnik]` always finds its key. */
  lemma SuccessorPending(d: Digraph, prev: seq<int>, w: int, s: int)
    requires Valid(d) && NoDup(prev) && EmittedReady(d, prev)
    requires 0 <= w < d.order && w !in prev && Ready(d, w, prev)
    requires Arc(d, w, s)
    ensures 0 <= s < d.order && s !in prev && s != w
  {
    forall j | 0 <= j < |prev|
      ensures prev[j] != s
    {
      assert prev[j] !in prev[..j];
      assert Ready(d, prev[j], prev[..j]);
    }
  }

  /** Emitting the least ready vertex `w` keeps the emitted prefix
      duplicate-free, ready at every step, and greedy. */
  lemma Emit(d: Digraph, pending: map<int, seq<int>>, out: seq<int>, w: int)
    requires Valid(d) && Pending(d, pending, out)
    requires NoDup(out) && EmittedReady(d, out) && Greedy(d, out)
    requires 0 <= w < d.order && w in pending && |pending[w]| == 0
    requires forall x :: 0 <= x < w && x in pending ==> |pending[x]| > 0
    ensures Emitting(d, pending - {w}, out, w)
    ensures NoDup(out + [w]) && EmittedReady(d, out + [w]) && Greedy(d, out + [w])
  {
    var o := out + [w];
    assert o[..|out|] == out;
    assert forall j :: 0 <= j < |out| ==> o[..j] == out[..j];
    assert Ready(d, w, out) by {
      forall u | u in d.pred[w]
        ensures u in out
      {
        assert u !in pending[w];
      }
    }
    forall v | 0 <= v < w && v !in out
      ensures !Ready(d, v, out)
    {
      assert v in pending;
      var u := pending[v][0];
      assert u in pending[v];
      assert u in d.pred[v] && u !in out;
    }
  }

  /** The loop ran dry: everything was emitted, in an order that is
      topological. */
  lemma Finished(d: Digraph, pending: map<int, seq<int>>, out: seq<int>)
    requires Valid(d) && Pending(d, pending, out) && |pending| == 0
    requires NoDup(out) && EmittedReady(d, out)
    ensures IsTopologicalOrder(d, out)
  {
    assert pending == map[];
    forall i, j | 0 <= i < |out| && 0 <= j < |out| && Arc(d, out[i], out[j])
      ensures i < j
    {
      assert out[j] !in out[..j];
      assert Ready(d, out[j], out[..j]);
      assert out[i] in out[..j];
      var k :| 0 <= k < j && out[k] == out[i];
    }
  }

  /** Every vertex of `P` is the end of an edge from a vertex of `P`. */
  ghost predicate NoSource(d: Digraph, P: set<int>)
    requires Valid(d)
  {
    // triggered on `EnteredFrom` alone: a trigger on `v in P` would feed
    // each witness `u in P` back into this quantifier
    forall v {:trigger EnteredFrom(d, P, v)} :: v in P ==> EnteredFrom(d, P, v)
  }

  ghost predicate EnteredFrom(d: Digraph, P: set<int>, v: int)
    requires Valid(d)
  {
    exists u :: u in P && Arc(d, u, v)
  }

  /** Walking backwards along edges inside a source-free set, some edge of
      `ord` points backwards or to its own position. */
  lemma {:induction false} BackEdge(d: Digraph, P: set<int>, ord: seq<int>, i: int)
    requires Valid(d) && NoSource(d, P) && forall v :: v in P ==> v in ord
    requires 0 <= i < |ord| && ord[i] in P
    ensures !EdgesForward(d, ord)
    decreases i
  {
    assert EnteredFrom(d, P, ord[i]);
    var u :| u in P && Arc(d, u, ord[i]);
    var j :| 0 <= j < |ord| && ord[j] == u;
    if i <= j {
      NotForward(d, ord, j, i);
    } else {
      BackEdge(d, P, ord, j);
    }
  }

  lemma NotForward(d: Digraph, ord: seq<int>, a: int, b: int)
    requires Valid(d) && 0 <= b <= a < |ord| && Arc(d, ord[a], ord[b])
    ensures !EdgesForward(d, ord)
  {
  }

  /** No topological order exists once a non-empty set of vertices is left
      with every reported list non-empty: the vertices left form a set with
      no source. */
  lemma Stuck(d: Digraph, pending: map<int, seq<int>>, out: seq<int>)
    requires Valid(d) && Pending(d, pending, out) && |pending| > 0
    requires forall x :: x in pending ==> |pending[x]| > 0
    ensures forall ord :: !IsTopologicalOrder(d, ord)
  {
    var P := pending.Keys;
    StuckSet(d, pending, out);
    assert |P| == |pending| > 0;
    if forall x :: x !in P {
      assert false;
    }
    var v0 :| v0 in P;
    forall ord
      ensures !IsTopologicalOrder(d, ord)
    {
      if forall v :: v in ord <==> 0 <= v < d.order {
        assert v0 in pending && v0 in ord;
        var i :| 0 <= i < |ord| && ord[i] == v0;
        BackEdge(d, P, ord, i);
      }
    }
  }

  /** Each vertex left is entered by an edge from another vertex left: the
      head of its list. */
  lemma StuckSet(d: Digraph, pending: map<int, seq<int>>, out: seq<int>)
    requires Valid(d) && Pending(d, pending, out)
    requires forall x :: x in pending ==> |pending[x]| > 0
    ensures NoSource(d, pending.Keys)
  {
    forall v | v in pending.Keys
      ensures EnteredFrom(d, pending.Keys, v)
    {
      var u := pending[v][0];
      assert u in pending[v];
      assert Arc(d, u, v);
      assert u in pending.Keys;
    }
  }
}
