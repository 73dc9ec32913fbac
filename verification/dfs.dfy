/** `AlgorytmDFS` and `KrokDFS`: the depth-first forest. Vertices are tried
    in ascending order; each one not yet visited opens a component, and
    `KrokDFS` visits the successors of a vertex in the order `Nastepniki`
    returns them, recursing into each one not yet visited. The algorithm is
    stated on the view of a graph (`Digraphs`); `ForestOf` applies it to a
    graph of any layout. */
module DepthFirst {
  import opened Common
  import opened Digraphs
  import G = Graphs

  /** The state the recursion threads through: the `odwiedzone` flags as a
      set, and the component (`fragment`) built so far. */
  datatype Visit = Visit(visited: set<int>, component: seq<int>)

  /** Visited vertices are vertices of `d`, the component is duplicate-free
      and lies inside the visited set. */
  ghost predicate Consistent(d: Digraph, st: Visit)
    requires Valid(d)
  {
    && (forall x :: x in st.visited ==> 0 <= x < d.order)
    && (forall x :: x in st.component ==> x in st.visited)
    && NoDup(st.component)
  }

  /** The vertices not yet visited: the measure the recursion consumes. */
  ghost function Unvisited(d: Digraph, visited: set<int>): set<int> {
    set x | 0 <= x < d.order && x !in visited
  }

  /** From index `from` on, every vertex of `c` is the end of an edge from an
      earlier vertex of `c`. */
  ghost predicate Descends(d: Digraph, c: seq<int>, from: int)
    requires Valid(d)
  {
    forall j :: 0 <= j < |c| && from <= j ==> ReachedAt(d, c, j)
  }

  /** `c[j]` is the end of an edge from an earlier vertex of `c`. */
  ghost predicate ReachedAt(d: Digraph, c: seq<int>, j: int)
    requires Valid(d) && 0 <= j < |c|
  {
    exists i :: 0 <= i < j && Arc(d, c[i], c[j])
  }

  /** `after` only adds to `before`: more vertices visited, the component
      extended at its end by exactly the newly visited vertices, each of them
      reached by an edge from an earlier vertex. */
  ghost predicate Grows(d: Digraph, before: Visit, after: Visit)
    requires Valid(d)
  {
    && before.visited <= after.visited
    && |before.component| <= |after.component|
    && after.component[..|before.component|] == before.component
    && (forall x :: x in after.visited && x !in before.visited <==> x in after.component[|before.component|..])
    && Descends(d, after.component, |before.component|)
  }

  /** Every successor of a vertex that `after` visited newly is visited. */
  ghost predicate Closed(d: Digraph, before: Visit, after: Visit)
    requires Valid(d)
  {
    forall x, y :: x in after.visited && x !in before.visited && Arc(d, x, y) ==> y in after.visited
  }

  /** `KrokDFS(w, fragment, odwiedzone)` for the vertex `w` just visited and
      appended to the component. */
  function Explore(d: Digraph, w: int, st: Visit): (r: Visit)
    requires Valid(d) && 0 <= w < d.order
    requires Consistent(d, st) && |st.component| > 0 && st.component[|st.component| - 1] == w
    ensures Consistent(d, r)
    ensures Grows(d, st, r) && Closed(d, st, r)
    ensures forall y :: Arc(d, w, y) ==> y in r.visited
    ensures Preorder(d, st, r) && Subtree(d, st, r, |st.component| - 1)
    decreases Unvisited(d, st.visited), 1, 0, 0
  {
    LastIsDone(d, st, w);
    var r := ExploreAll(d, w, 0, st);
    assert st.component[|st.component| - 1] == w;
    r
  }

  /** The `foreach` of `KrokDFS` over the successors of `parent`, from
      position `k` of `Nastepniki(parent)` on; those before `k` are
      visited. */
  function ExploreAll(d: Digraph, parent: int, k: int, st: Visit): (r: Visit)
    requires Valid(d) && 0 <= parent < d.order && parent in st.component
    requires 0 <= k <= |d.succ[parent]|
    requires Consistent(d, st) && DoneAfter(d, st, parent)
    requires forall t :: 0 <= t < k ==> d.succ[parent][t] in st.visited
    ensures Consistent(d, r)
    ensures Grows(d, st, r) && Closed(d, st, r)
    ensures forall y :: Arc(d, parent, y) ==> y in r.visited
    ensures Preorder(d, st, r) && SubtreeOf(d, st, r, parent)
    decreases Unvisited(d, st.visited), 0, |d.succ[parent]| - k, 1
  {
    if k == |d.succ[parent]| then
      GrowsRefl(d, st);
      st
    else if d.succ[parent][k] in st.visited then
      ExploreAll(d, parent, k + 1, st)
    else
      Descend(d, parent, k, st)
  }

  /** One pass of the `foreach` whose successor `s` is unvisited: mark `s`,
      append it, run `KrokDFS(s)`, and go on with the next successor. */
  function Descend(d: Digraph, parent: int, k: int, st: Visit): (r: Visit)
    requires Valid(d) && 0 <= parent < d.order && parent in st.component
    requires 0 <= k < |d.succ[parent]| && d.succ[parent][k] !in st.visited
    requires Consistent(d, st) && DoneAfter(d, st, parent)
    requires forall t :: 0 <= t < k ==> d.succ[parent][t] in st.visited
    ensures Consistent(d, r)
    ensures Grows(d, st, r) && Closed(d, st, r)
    ensures forall y :: Arc(d, parent, y) ==> y in r.visited
    ensures Preorder(d, st, r) && SubtreeOf(d, st, r, parent)
    decreases Unvisited(d, st.visited), 0, |d.succ[parent]| - k, 0
  {
    var s := d.succ[parent][k];
    var st1 := Visit(st.visited + {s}, st.component + [s]);
    VisitOne(d, st, parent, s);
    assert Unvisited(d, st1.visited) < Unvisited(d, st.visited) by {
      assert s in Unvisited(d, st.visited);
    }
    FirstStep(d, st, parent, k);
    var st2 := Explore(d, s, st1);
    StillDone(d, st, parent, k, st1, st2);
    var r := ExploreAll(d, parent, k + 1, st2);
    ExploreChain(d, st, s, st1, st2, r);
    VisitedAfter(d, st1, st2);
    PreorderChain(d, st, s, st1, st2, r);
    SubtreeChain(d, st, parent, s, st1, st2, r);
    r
  }

  lemma GrowsRefl(d: Digraph, st: Visit)
    requires Valid(d)
    ensures Grows(d, st, st) && Closed(d, st, st)
  {
    assert st.component[..|st.component|] == st.component;
  }

  /** Marking the unvisited successor `s` of `parent` and appending it. */
  lemma VisitOne(d: Digraph, st: Visit, parent: int, s: int)
    requires Valid(d) && Consistent(d, st)
    requires parent in st.component && Arc(d, parent, s)
    requires 0 <= s < d.order && s !in st.visited
    ensures Consistent(d, Visit(st.visited + {s}, st.component + [s]))
    ensures Grows(d, st, Visit(st.visited + {s}, st.component + [s]))
    ensures s in (st.component + [s])
  {
    var c := st.component + [s];
    var n := |st.component|;
    var i :| 0 <= i < n && st.component[i] == parent;
    assert c[i] == parent && c[n] == s;
    assert c[..n] == st.component;
    assert c[n..] == [s];
  }

  /** The three stages of one branch of the `foreach` compose. */
  lemma ExploreChain(d: Digraph, st: Visit, s: int, st1: Visit, st2: Visit, r: Visit)
    requires Valid(d)
    requires st1 == Visit(st.visited + {s}, st.component + [s]) && s !in st.visited
    requires Grows(d, st, st1) && Grows(d, st1, st2) && Grows(d, st2, r)
    requires Closed(d, st1, st2) && Closed(d, st2, r)
    requires forall y :: Arc(d, s, y) ==> y in st2.visited
    ensures Grows(d, st, r) && Closed(d, st, r)
    ensures s in r.visited
  {
    GrowsTrans(d, st, st1, st2);
    GrowsTrans(d, st, st2, r);
  }

  lemma GrowsTrans(d: Digraph, a: Visit, b: Visit, c: Visit)
    requires Valid(d) && Grows(d, a, b) && Grows(d, b, c)
    ensures Grows(d, a, c)
  {
    var na, nb := |a.component|, |b.component|;
    assert c.component[..na] == c.component[..nb][..na];
    DescendsTrans(d, b.component, c.component, na);
    NewTrans(d, a, b, c);
  }

  lemma DescendsTrans(d: Digraph, b: seq<int>, c: seq<int>, na: int)
    requires Valid(d) && 0 <= na <= |b| <= |c| && c[..|b|] == b
    requires Descends(d, b, na) && Descends(d, c, |b|)
    ensures Descends(d, c, na)
  {
    forall j | na <= j < |c|
      ensures ReachedAt(d, c, j)
    {
      if j < |b| {
        assert ReachedAt(d, b, j);
        assert c[..|b|][j] == b[j];
        var i :| 0 <= i < j && Arc(d, b[i], b[j]);
        assert c[..|b|][i] == b[i];
      } else {
        assert ReachedAt(d, c, j);
      }
    }
  }

  lemma NewTrans(d: Digraph, a: Visit, b: Visit, c: Visit)
    requires Valid(d) && Grows(d, a, b) && Grows(d, b, c)
    ensures forall x :: x in c.visited && x !in a.visited <==> x in c.component[|a.component|..]
  {
    forall x | x in c.component[|a.component|..]
      ensures x in c.visited && x !in a.visited
    {
      NewTransBack(d, a, b, c, x);
    }
    forall x | x in c.visited && x !in a.visited
      ensures x in c.component[|a.component|..]
    {
      NewTransForth(d, a, b, c, x);
    }
  }

  lemma NewTransBack(d: Digraph, a: Visit, b: Visit, c: Visit, x: int)
    requires Valid(d) && Grows(d, a, b) && Grows(d, b, c)
    requires x in c.component[|a.component|..]
    ensures x in c.visited && x !in a.visited
  {
    var na, nb := |a.component|, |b.component|;
    var j :| na <= j < |c.component| && c.component[j] == x;
    if j < nb {
      assert c.component[..nb][j] == x;
      assert b.component[na..][j - na] == x;
    } else {
      assert c.component[nb..][j - nb] == x;
    }
  }

  lemma NewTransForth(d: Digraph, a: Visit, b: Visit, c: Visit, x: int)
    requires Valid(d) && Grows(d, a, b) && Grows(d, b, c)
    requires x in c.visited && x !in a.visited
    ensures x in c.component[|a.component|..]
  {
    var na, nb := |a.component|, |b.component|;
    if x in b.visited {
      assert x in b.component[na..];
      var j :| na <= j < nb && b.component[j] == x;
      assert c.component[..nb][j] == x;
      assert c.component[na..][j - na] == x;
    } else {
      assert x in c.component[nb..];
      var j :| nb <= j < |c.component| && c.component[j] == x;
      assert c.component[na..][j - na] == x;
    }
  }

  // ---------------------------------------------------------------------
  // The depth-first order
  // ---------------------------------------------------------------------

  ghost function Elems(s: seq<int>): set<int> {
    set x | x in s
  }

  /** The first vertex of `s` outside `seen`: the successor the `foreach` of
      `KrokDFS` descends into next. */
  function FirstOutside(s: seq<int>, seen: set<int>): (r: Option<int>)
    ensures r.None? ==> forall t :: t in s ==> t in seen
    ensures r.Some? ==> r.value in s && r.value !in seen
  {
    if |s| == 0 then None
    else if s[0] !in seen then Some(s[0])
    else
      assert forall t :: t in s ==> t == s[0] || t in s[1..];
      FirstOutside(s[1..], seen)
  }

  lemma {:induction false} FirstOutsideAt(s: seq<int>, seen: set<int>, k: int)
    requires 0 <= k < |s| && s[k] !in seen
    requires forall t :: 0 <= t < k ==> s[t] in seen
    ensures FirstOutside(s, seen) == Some(s[k])
    decreases k
  {
    if k > 0 {
      assert s[0] in seen;
      FirstOutsideAt(s[1..], seen, k - 1);
    }
  }

  /** `v` is a vertex with a successor outside `seen`: its call of
      `KrokDFS` still has work. */
  predicate Open(d: Digraph, v: int, seen: set<int>) {
    0 <= v < |d.succ| && FirstOutside(d.succ[v], seen).Some?
  }

  /** The position of the last vertex of `c` still open, or -1. */
  function Deepest(d: Digraph, c: seq<int>, seen: set<int>): (i: int)
    ensures -1 <= i < |c|
    ensures i >= 0 ==> Open(d, c[i], seen)
    ensures forall q :: i < q < |c| ==> !Open(d, c[q], seen)
  {
    if |c| == 0 then -1
    else if Open(d, c[|c| - 1], seen) then |c| - 1
    else Deepest(d, c[..|c| - 1], seen)
  }

  /** `next` is the vertex `KrokDFS` visits after the component prefix `c`
      with `seen` visited: the first unvisited successor of the last vertex
      of `c` that still has one, since the calls for the vertices after it
      have returned. */
  ghost predicate NextVisited(d: Digraph, c: seq<int>, seen: set<int>, next: int) {
    var i := Deepest(d, c, seen);
    0 <= i && Open(d, c[i], seen) && FirstOutside(d.succ[c[i]], seen) == Some(next)
  }

  /** Each vertex that `after` appends to the component is the one
      `KrokDFS` visits next. */
  ghost predicate Preorder(d: Digraph, before: Visit, after: Visit) {
    forall j :: |before.component| <= j < |after.component| ==>
      NextVisited(d, after.component[..j], before.visited + Elems(after.component[|before.component|..j]), after.component[j])
  }

  /** Every vertex that `after` appends is visited from position `p` of
      the component or a later one: the search does not return above `p`,
      so `KrokDFS` for the vertex at `p` stays within its own subtree. */
  ghost predicate Subtree(d: Digraph, before: Visit, after: Visit, p: int) {
    forall j :: |before.component| <= j < |after.component| ==>
      p <= Deepest(d, after.component[..j], before.visited + Elems(after.component[|before.component|..j]))
  }

  /** `Subtree` from every position `parent` holds in the component. */
  ghost predicate SubtreeOf(d: Digraph, before: Visit, after: Visit, parent: int) {
    forall p :: 0 <= p < |before.component| && before.component[p] == parent ==> Subtree(d, before, after, p)
  }

  /** The vertices after `parent` in the component have no unvisited
      successor: their calls of `KrokDFS` have returned. */
  ghost predicate DoneAfter(d: Digraph, st: Visit, parent: int) {
    forall q1, q2 :: 0 <= q1 < q2 < |st.component| && st.component[q1] == parent ==> !Open(d, st.component[q2], st.visited)
  }

  lemma LastIsDone(d: Digraph, st: Visit, w: int)
    requires Valid(d) && Consistent(d, st)
    requires |st.component| > 0 && st.component[|st.component| - 1] == w
    ensures DoneAfter(d, st, w)
  {
  }

  /** A vertex whose successors are all in `seen` is not open. */
  lemma Returned(d: Digraph, v: int, seen: set<int>)
    requires forall y :: Arc(d, v, y) ==> y in seen
    ensures !Open(d, v, seen)
  {
    if 0 <= v < |d.succ| {
      var r := FirstOutside(d.succ[v], seen);
      if r.Some? {
        assert Arc(d, v, r.value);
      }
    }
  }

  lemma OpenShrinks(d: Digraph, v: int, seen: set<int>, more: set<int>)
    requires seen <= more && !Open(d, v, seen)
    ensures !Open(d, v, more)
  {
  }

  /** The first unvisited successor of `parent` is the vertex visited next. */
  lemma FirstStep(d: Digraph, st: Visit, parent: int, k: int)
    requires Valid(d) && 0 <= parent < d.order && parent in st.component
    requires Consistent(d, st) && DoneAfter(d, st, parent)
    requires 0 <= k < |d.succ[parent]| && d.succ[parent][k] !in st.visited
    requires forall t :: 0 <= t < k ==> d.succ[parent][t] in st.visited
    ensures NextVisited(d, st.component, st.visited, d.succ[parent][k])
    ensures forall p :: 0 <= p < |st.component| && st.component[p] == parent ==> p <= Deepest(d, st.component, st.visited)
  {
    FirstOutsideAt(d.succ[parent], st.visited, k);
    var c := st.component;
    var p :| 0 <= p < |c| && c[p] == parent;
    assert Open(d, c[p], st.visited);
  }

  /** After the recursive call for the successor at `k` returns, the
      vertices after `parent` are still done and the successors up to `k`
      are visited. */
  lemma StillDone(d: Digraph, st: Visit, parent: int, k: int, st1: Visit, st2: Visit)
    requires Valid(d) && 0 <= parent < d.order && parent in st.component
    requires 0 <= k < |d.succ[parent]|
    requires Consistent(d, st) && DoneAfter(d, st, parent)
    requires forall t :: 0 <= t < k ==> d.succ[parent][t] in st.visited
    requires d.succ[parent][k] !in st.visited
    requires st1 == Visit(st.visited + {d.succ[parent][k]}, st.component + [d.succ[parent][k]])
    requires Consistent(d, st2) && Grows(d, st1, st2) && Closed(d, st1, st2)
    requires forall y :: Arc(d, d.succ[parent][k], y) ==> y in st2.visited
    ensures DoneAfter(d, st2, parent)
    ensures forall t :: 0 <= t < k + 1 ==> d.succ[parent][t] in st2.visited
  {
    var s := d.succ[parent][k];
    var c, c2 := st.component, st2.component;
    var n0 := |c|;
    assert c2[..n0 + 1] == c + [s];
    forall q1, q2 | 0 <= q1 < q2 < |c2| && c2[q1] == parent
      ensures !Open(d, c2[q2], st2.visited)
    {
      var p :| 0 <= p < n0 && c[p] == parent;
      assert c2[p] == c2[..n0 + 1][p] == parent;
      assert q1 == p;
      if q2 < n0 {
        assert c2[q2] == c2[..n0 + 1][q2] == c[q2];
        OpenShrinks(d, c[q2], st.visited, st2.visited);
      } else if q2 == n0 {
        assert c2[q2] == c2[..n0 + 1][q2] == s;
        Returned(d, s, st2.visited);
      } else {
        assert c2[n0 + 1..][q2 - n0 - 1] == c2[q2];
        Returned(d, c2[q2], st2.visited);
      }
    }
  }

  lemma ElemsSplit(c: seq<int>, a: int, b: int, e: int)
    requires 0 <= a <= b <= e <= |c|
    ensures Elems(c[a..e]) == Elems(c[a..b]) + Elems(c[b..e])
  {
    assert c[a..e] == c[a..b] + c[b..e];
  }

  /** What `Grows` says of the visited set: the new vertices are those
      appended. */
  lemma VisitedAfter(d: Digraph, a: Visit, b: Visit)
    requires Valid(d) && Grows(d, a, b)
    ensures b.visited == a.visited + Elems(b.component[|a.component|..])
  {
    forall x
      ensures x in b.visited <==> x in a.visited || x in b.component[|a.component|..]
    {
    }
  }

  /** The order of the vertices one branch of the `foreach` appends: the
      successor `s` itself, those its own call appends, then those the
      rest of the `foreach` appends. */
  lemma PreorderChain(d: Digraph, st: Visit, s: int, st1: Visit, st2: Visit, r: Visit)
    requires st1 == Visit(st.visited + {s}, st.component + [s])
    requires |st1.component| <= |st2.component| <= |r.component|
    requires st2.component[..|st1.component|] == st1.component
    requires st2.visited == st1.visited + Elems(st2.component[|st1.component|..])
    requires r.component[..|st2.component|] == st2.component
    requires NextVisited(d, st.component, st.visited, s)
    requires Preorder(d, st1, st2) && Preorder(d, st2, r)
    ensures Preorder(d, st, r)
  {
    var c := r.component;
    var n0, n2 := |st.component|, |st2.component|;
    forall j | n0 <= j < |c|
      ensures NextVisited(d, c[..j], st.visited + Elems(c[n0..j]), c[j])
    {
      if j == n0 {
        PreorderFirst(d, st, s, st2, r);
      } else if j < n2 {
        PreorderInner(d, st, s, st1, st2, r, j);
      } else {
        PreorderOuter(d, st, s, st1, st2, r, j);
      }
    }
  }

  lemma PreorderFirst(d: Digraph, st: Visit, s: int, st2: Visit, r: Visit)
    requires |st.component| + 1 <= |st2.component| <= |r.component|
    requires st2.component[..|st.component| + 1] == st.component + [s]
    requires r.component[..|st2.component|] == st2.component
    requires NextVisited(d, st.component, st.visited, s)
    ensures var n0 := |st.component|;
            NextVisited(d, r.component[..n0], st.visited + Elems(r.component[n0..n0]), r.component[n0])
  {
    var c, n0 := r.component, |st.component|;
    assert c[..n0] == st.component && c[n0] == s by {
      assert c[..n0 + 1] == st.component + [s];
    }
    assert st.visited + Elems(c[n0..n0]) == st.visited by {
      assert c[n0..n0] == [];
    }
  }

  lemma PreorderInner(d: Digraph, st: Visit, s: int, st1: Visit, st2: Visit, r: Visit, j: int)
    requires st1 == Visit(st.visited + {s}, st.component + [s])
    requires |st.component| + 1 <= j < |st2.component| <= |r.component|
    requires r.component[..|st2.component|] == st2.component
    requires st2.component[..|st1.component|] == st1.component
    requires Preorder(d, st1, st2)
    ensures NextVisited(d, r.component[..j], st.visited + Elems(r.component[|st.component|..j]), r.component[j])
  {
    var c, n0 := r.component, |st.component|;
    assert NextVisited(d, st2.component[..j], st1.visited + Elems(st2.component[n0 + 1..j]), st2.component[j]);
    assert c[..j] == st2.component[..j] && c[j] == st2.component[j];
    SeenInner(st.visited, s, c, st2.component, n0, j);
  }

  lemma SeenInner(v: set<int>, s: int, c: seq<int>, c2: seq<int>, n0: int, j: int)
    requires 0 <= n0 < j <= |c2| <= |c| && c[..|c2|] == c2 && c2[n0] == s
    ensures (v + {s}) + Elems(c2[n0 + 1..j]) == v + Elems(c[n0..j])
  {
    assert c[n0..j] == [s] + c2[n0 + 1..j];
    forall x
      ensures x in c[n0..j] <==> x == s || x in c2[n0 + 1..j]
    {
    }
  }

  lemma PreorderOuter(d: Digraph, st: Visit, s: int, st1: Visit, st2: Visit, r: Visit, j: int)
    requires st1 == Visit(st.visited + {s}, st.component + [s])
    requires |st1.component| <= |st2.component| <= j < |r.component|
    requires st2.component[..|st1.component|] == st1.component
    requires st2.visited == st1.visited + Elems(st2.component[|st1.component|..])
    requires r.component[..|st2.component|] == st2.component
    requires Preorder(d, st2, r)
    ensures NextVisited(d, r.component[..j], st.visited + Elems(r.component[|st.component|..j]), r.component[j])
  {
    var c := r.component;
    assert NextVisited(d, c[..j], st2.visited + Elems(c[|st2.component|..j]), c[j]);
    SeenOuter(st.visited, s, st2.visited, c, st2.component, |st.component|, j);
  }

  /** One branch of the `foreach` stays below `parent`: the step to `s`
      starts from `parent` or deeper, the call for `s` stays below `s`, and
      the rest of the `foreach` stays below `parent`. */
  lemma SubtreeChain(d: Digraph, st: Visit, parent: int, s: int, st1: Visit, st2: Visit, r: Visit)
    requires st1 == Visit(st.visited + {s}, st.component + [s])
    requires |st1.component| <= |st2.component| <= |r.component|
    requires st2.component[..|st1.component|] == st1.component
    requires st2.visited == st1.visited + Elems(st2.component[|st1.component|..])
    requires r.component[..|st2.component|] == st2.component
    requires forall p :: 0 <= p < |st.component| && st.component[p] == parent ==> p <= Deepest(d, st.component, st.visited)
    requires Subtree(d, st1, st2, |st.component|) && SubtreeOf(d, st2, r, parent)
    ensures SubtreeOf(d, st, r, parent)
  {
    var c := r.component;
    var n0, n2 := |st.component|, |st2.component|;
    forall p | 0 <= p < n0 && st.component[p] == parent
      ensures Subtree(d, st, r, p)
    {
      forall j | n0 <= j < |c|
        ensures p <= Deepest(d, c[..j], st.visited + Elems(c[n0..j]))
      {
        if j == n0 {
          SubtreeFirst(d, st, s, st2, r, p);
        } else if j < n2 {
          SubtreeInner(d, st, s, st1, st2, r, j);
        } else {
          assert st2.component[p] == parent by {
            assert st2.component[..n0 + 1][p] == st.component[p];
          }
          SubtreeOuter(d, st, s, st1, st2, r, j, p);
        }
      }
    }
  }

  lemma SubtreeFirst(d: Digraph, st: Visit, s: int, st2: Visit, r: Visit, p: int)
    requires |st.component| + 1 <= |st2.component| <= |r.component|
    requires st2.component[..|st.component| + 1] == st.component + [s]
    requires r.component[..|st2.component|] == st2.component
    requires p <= Deepest(d, st.component, st.visited)
    ensures var n0 := |st.component|;
            p <= Deepest(d, r.component[..n0], st.visited + Elems(r.component[n0..n0]))
  {
    var c, n0 := r.component, |st.component|;
    assert c[..n0] == st.component by {
      assert c[..n0 + 1] == st.component + [s];
    }
    assert st.visited + Elems(c[n0..n0]) == st.visited by {
      assert c[n0..n0] == [];
    }
  }

  lemma SubtreeInner(d: Digraph, st: Visit, s: int, st1: Visit, st2: Visit, r: Visit, j: int)
    requires st1 == Visit(st.visited + {s}, st.component + [s])
    requires |st.component| + 1 <= j < |st2.component| <= |r.component|
    requires r.component[..|st2.component|] == st2.component
    requires st2.component[..|st1.component|] == st1.component
    requires Subtree(d, st1, st2, |st.component|)
    ensures |st.component| <= Deepest(d, r.component[..j], st.visited + Elems(r.component[|st.component|..j]))
  {
    var c, n0 := r.component, |st.component|;
    assert n0 <= Deepest(d, st2.component[..j], st1.visited + Elems(st2.component[n0 + 1..j]));
    assert c[..j] == st2.component[..j];
    SeenInner(st.visited, s, c, st2.component, n0, j);
  }

  lemma SubtreeOuter(d: Digraph, st: Visit, s: int, st1: Visit, st2: Visit, r: Visit, j: int, p: int)
    requires st1 == Visit(st.visited + {s}, st.component + [s])
    requires |st1.component| <= |st2.component| <= j < |r.component|
    requires st2.component[..|st1.component|] == st1.component
    requires st2.visited == st1.visited + Elems(st2.component[|st1.component|..])
    requires r.component[..|st2.component|] == st2.component
    requires 0 <= p < |st2.component| && Subtree(d, st2, r, p)
    ensures p <= Deepest(d, r.component[..j], st.visited + Elems(r.component[|st.component|..j]))
  {
    var c := r.component;
    assert p <= Deepest(d, c[..j], st2.visited + Elems(c[|st2.component|..j]));
    SeenOuter(st.visited, s, st2.visited, c, st2.component, |st.component|, j);
  }

  lemma SeenOuter(v: set<int>, s: int, v2: set<int>, c: seq<int>, c2: seq<int>, n0: int, j: int)
    requires 0 <= n0 < |c2| <= j <= |c| && c[..|c2|] == c2 && c2[n0] == s
    requires v2 == (v + {s}) + Elems(c2[n0 + 1..])
    ensures v2 + Elems(c[|c2|..j]) == v + Elems(c[n0..j])
  {
    assert c[n0..j] == [s] + c2[n0 + 1..] + c[|c2|..j];
    forall x
      ensures x in c[n0..j] <==> x == s || x in c2[n0 + 1..] || x in c[|c2|..j]
    {
    }
  }

  // ---------------------------------------------------------------------
  // The forest
  // ---------------------------------------------------------------------

  /** The components concatenated in order. */
  function Flatten(f: seq<seq<int>>): (r: seq<int>)
    ensures forall x :: x in r <==> exists k :: 0 <= k < |f| && x in f[k]
  {
    if |f| == 0 then []
    else
      var init := f[..|f| - 1];
      var r := Flatten(init) + f[|f| - 1];
      assert forall k :: 0 <= k < |init| ==> init[k] == f[k];
      r
  }

  lemma FlattenSnoc(f: seq<seq<int>>, c: seq<int>)
    ensures Flatten(f + [c]) == Flatten(f) + c
  {
    assert (f + [c])[..|f|] == f;
  }

  lemma NoDupAppend(a: seq<int>, b: seq<int>)
    requires NoDup(a) && NoDup(b)
    requires forall x :: x in b ==> x !in a
    ensures NoDup(a + b)
  {
    forall i, j | 0 <= i < j < |a + b|
      ensures (a + b)[i] != (a + b)[j]
    {
      if j >= |a| && i < |a| {
        assert (a + b)[j] in b;
      }
    }
  }

  /** Component `k` starts at the least vertex missing from the components
      before it. */
  ghost predicate HeadIsLeast(f: seq<seq<int>>, k: int)
    requires 0 <= k < |f| && |f[k]| > 0
  {
    && f[k][0] !in Flatten(f[..k])
    && forall v :: 0 <= v < f[k][0] ==> v in Flatten(f[..k])
  }

  /** Every successor of a vertex of component `k` lies in component `k` or
      an earlier one. */
  ghost predicate NoForwardEdge(d: Digraph, f: seq<seq<int>>, k: int)
    requires Valid(d) && 0 <= k < |f|
  {
    forall x, y :: x in f[k] && Arc(d, x, y) ==> y in Flatten(f[..k + 1])
  }

  /** Every later vertex of component `k` is the one `KrokDFS` visits
      next, given the vertices of the earlier components and of the
      component before it. */
  ghost predicate ComponentOrder(d: Digraph, f: seq<seq<int>>, k: int)
    requires 0 <= k < |f|
  {
    forall j :: 1 <= j < |f[k]| ==> NextVisited(d, f[k][..j], Elems(Flatten(f[..k]) + f[k][..j]), f[k][j])
  }

  /** What `AlgorytmDFS` promises: every vertex appears exactly once; each
      component is non-empty and starts at the least vertex not in an
      earlier component, so the starts ascend; every later vertex of a
      component is the end of an edge from an earlier vertex of it, and is
      the first unvisited successor of the last vertex before it that has
      one; no edge leads from a component to a later one; without edges
      every vertex is a component of its own; an empty graph gives an empty
      forest. */
  ghost predicate DepthFirstForest(d: Digraph, forest: seq<seq<int>>)
    requires Valid(d)
  {
    && NoDup(Flatten(forest))
    && (forall v :: v in Flatten(forest) <==> 0 <= v < d.order)
    && (forall k :: 0 <= k < |forest| ==> |forest[k]| > 0 && HeadIsLeast(forest, k))
    && (forall k1, k2 :: 0 <= k1 < k2 < |forest| ==> forest[k1][0] < forest[k2][0])
    && (forall k :: 0 <= k < |forest| ==> Descends(d, forest[k], 1))
    && (forall k :: 0 <= k < |forest| ==> NoForwardEdge(d, forest, k))
    && (forall k :: 0 <= k < |forest| ==> ComponentOrder(d, forest, k))
    && (Arcless(d) ==> forest == seq(d.order, v => [v]))
    && (d.order == 0 ==> forest == [])
  }

  /** `AlgorytmDFS()`: the depth-first forest, one list per component. */
  function Forest(d: Digraph): (forest: seq<seq<int>>)
    requires Valid(d)
    ensures DepthFirstForest(d, forest)
  {
    ForestStart(d);
    Grow(d, [], {}, 0)
  }

  /** `AlgorytmDFS()` on a graph of any layout: the forest of its view,
      whose arcs are the edges of `g`; every vertex appears once, and a
      graph without edges gives one component per vertex. */
  function ForestOf(g: G.Graph): (forest: seq<seq<int>>)
    requires G.Valid(g)
    ensures DepthFirstForest(G.View(g), forest)
    ensures NoDup(Flatten(forest)) && forall v :: v in Flatten(forest) <==> 0 <= v < G.Order(g)
    ensures G.Edges(g) == {} ==> forest == seq(G.Order(g), v => [v])
  {
    G.ViewWithoutEdges(g);
    Forest(G.View(g))
  }

  /** The loop of `AlgorytmDFS` from vertex `i` on, given the components
      found so far and the vertices they visited. */
  function Grow(d: Digraph, forest: seq<seq<int>>, visited: set<int>, i: int): (r: seq<seq<int>>)
    requires Valid(d) && 0 <= i <= d.order
    requires LoopState(d, forest, visited, i)
    ensures DepthFirstForest(d, r)
    decreases d.order - i
  {
    if i == d.order then
      ForestDone(d, forest, visited);
      forest
    else
      var next := TryVertex(d, forest, visited, i);
      Grow(d, next.0, next.1, i + 1)
  }

  /** One pass of the loop of `AlgorytmDFS`: an unvisited `i` is marked and
      opens a component that `KrokDFS` completes; a visited one is skipped. */
  function TryVertex(d: Digraph, forest: seq<seq<int>>, visited: set<int>, i: int): (r: (seq<seq<int>>, set<int>))
    requires Valid(d) && 0 <= i < d.order
    requires LoopState(d, forest, visited, i)
    ensures LoopState(d, r.0, r.1, i + 1)
    ensures i in visited ==> r == (forest, visited)
    ensures i !in visited ==> |r.0| == |forest| + 1 && r.0[..|forest|] == forest && r.0[|forest|][0] == i
  {
    if i !in visited then
      var st := Explore(d, i, Visit(visited + {i}, [i]));
      NewComponent(d, forest, visited, i, st);
      ExploredShape(d, visited, i, st);
      assert (forest + [st.component])[..|forest|] == forest;
      (forest + [st.component], st.visited)
    else
      SkipVisited(d, forest, visited, i);
      (forest, visited)
  }

  /** The invariant of the loop of `AlgorytmDFS` once the vertices below
      `i` have been tried. */
  ghost predicate LoopState(d: Digraph, forest: seq<seq<int>>, visited: set<int>, i: int)
    requires Valid(d)
  {
    && |forest| <= i
    && Covers(d, forest, visited, i)
    && Heads(forest, i)
    && Reached(d, forest)
    && (forall k :: 0 <= k < |forest| ==> ComponentOrder(d, forest, k))
    && (Arcless(d) ==> forest == seq(i, v => [v]) && forall x :: x in visited ==> x < i)
  }

  lemma ForestStart(d: Digraph)
    requires Valid(d)
    ensures d.order >= 0 && LoopState(d, [], {}, 0)
  {
  }

  /** A pass of the loop of `AlgorytmDFS` over an already visited `i`. */
  lemma SkipVisited(d: Digraph, forest: seq<seq<int>>, visited: set<int>, i: int)
    requires Valid(d) && 0 <= i && i in visited
    requires LoopState(d, forest, visited, i)
    ensures LoopState(d, forest, visited, i + 1)
  {
  }

  /** After the last vertex the loop invariant yields the forest properties. */
  lemma ForestDone(d: Digraph, forest: seq<seq<int>>, visited: set<int>)
    requires Valid(d)
    requires LoopState(d, forest, visited, d.order)
    ensures DepthFirstForest(d, forest)
  {
  }

  /** What the loop of `AlgorytmDFS` knows after trying the vertices below
      `i`: `visited` is the flattened forest, holds every vertex below `i`,
      and each component is well formed. */
  ghost predicate Covers(d: Digraph, forest: seq<seq<int>>, visited: set<int>, i: int)
    requires Valid(d)
  {
    && (forall x :: x in visited <==> x in Flatten(forest))
    && (forall x :: x in visited ==> 0 <= x < d.order)
    && (forall x :: 0 <= x < i ==> x in visited)
    && NoDup(Flatten(forest))
  }

  ghost predicate Heads(forest: seq<seq<int>>, i: int) {
    && (forall k :: 0 <= k < |forest| ==> |forest[k]| > 0 && forest[k][0] < i && HeadIsLeast(forest, k))
    && (forall k1, k2 :: 0 <= k1 < k2 < |forest| ==> forest[k1][0] < forest[k2][0])
  }

  ghost predicate Reached(d: Digraph, forest: seq<seq<int>>)
    requires Valid(d)
  {
    && (forall k :: 0 <= k < |forest| ==> Descends(d, forest[k], 1))
    && (forall k :: 0 <= k < |forest| ==> NoForwardEdge(d, forest, k))
  }

  /** The result of exploring from `i` with only `i` marked beforehand. */
  ghost predicate Explored(d: Digraph, visited: set<int>, i: int, st: Visit)
    requires Valid(d)
  {
    var start := Visit(visited + {i}, [i]);
    && Consistent(d, st) && Grows(d, start, st) && Closed(d, start, st)
    && (forall y :: Arc(d, i, y) ==> y in st.visited)
    && Preorder(d, start, st)
  }

  lemma PrefixSnoc(f: seq<seq<int>>, c: seq<int>, k: int)
    requires 0 <= k <= |f|
    ensures (f + [c])[..k] == f[..k]
  {
  }

  /** The new component: it starts at `i`, and the vertices it adds are
      exactly those newly visited. */
  lemma ExploredShape(d: Digraph, visited: set<int>, i: int, st: Visit)
    requires Valid(d) && 0 <= i < d.order && i !in visited
    requires Explored(d, visited, i, st)
    ensures |st.component| > 0 && st.component[0] == i
    ensures forall x :: x in st.visited <==> x in visited || x in st.component
    ensures forall x :: x in st.component ==> x !in visited
  {
    var c := st.component;
    assert c[..1] == [i];
    assert c == [i] + c[1..];
    forall x
      ensures x in st.visited <==> x in visited || x in c
    {
      if x in c[1..] {
        assert x in c;
      }
    }
  }

  lemma NewComponentCovers(d: Digraph, forest: seq<seq<int>>, visited: set<int>, i: int, st: Visit)
    requires Valid(d) && 0 <= i < d.order && i !in visited
    requires Covers(d, forest, visited, i)
    requires Explored(d, visited, i, st)
    ensures Covers(d, forest + [st.component], st.visited, i + 1)
  {
    ExploredShape(d, visited, i, st);
    FlattenSnoc(forest, st.component);
    NoDupAppend(Flatten(forest), st.component);
  }

  lemma NewComponentHeads(d: Digraph, forest: seq<seq<int>>, visited: set<int>, i: int, st: Visit)
    requires Valid(d) && 0 <= i < d.order && i !in visited
    requires Covers(d, forest, visited, i) && Heads(forest, i)
    requires Explored(d, visited, i, st)
    ensures Heads(forest + [st.component], i + 1)
  {
    ExploredShape(d, visited, i, st);
    var f := forest + [st.component];
    forall k | 0 <= k < |f|
      ensures |f[k]| > 0 && f[k][0] < i + 1 && HeadIsLeast(f, k)
    {
      PrefixSnoc(forest, st.component, k);
      if k < |forest| {
        assert HeadIsLeast(forest, k);
      }
    }
  }

  lemma NewComponentReached(d: Digraph, forest: seq<seq<int>>, visited: set<int>, i: int, st: Visit)
    requires Valid(d) && 0 <= i < d.order && i !in visited
    requires Covers(d, forest, visited, i) && Reached(d, forest)
    requires Explored(d, visited, i, st)
    ensures Reached(d, forest + [st.component])
  {
    ExploredShape(d, visited, i, st);
    var c := st.component;
    var f := forest + [c];
    FlattenSnoc(forest, c);
    forall k | 0 <= k < |f|
      ensures Descends(d, f[k], 1) && NoForwardEdge(d, f, k)
    {
      if k == |forest| {
        assert f[..k + 1] == f;
        forall x, y | x in c && Arc(d, x, y)
          ensures y in Flatten(f)
        {
          if x != i {
            assert x in st.visited && x !in visited + {i};
          }
        }
      } else {
        PrefixSnoc(forest, c, k + 1);
        assert NoForwardEdge(d, forest, k);
      }
    }
  }

  /** A vertex reached by an edge witnesses a non-empty edge set. */
  lemma DescendsUsesEdges(d: Digraph, c: seq<int>, from: int)
    requires Valid(d) && Descends(d, c, from) && 0 <= from < |c|
    ensures !Arcless(d)
  {
    assert ReachedAt(d, c, from);
    var i :| 0 <= i < from && Arc(d, c[i], c[from]);
    assert c[from] in d.succ[c[i]];
  }

  /** Without edges the exploration from `i` visits `i` alone. */
  lemma NewComponentWithoutEdges(d: Digraph, visited: set<int>, i: int, st: Visit)
    requires Valid(d) && 0 <= i < d.order && i !in visited
    requires Explored(d, visited, i, st)
    ensures Arcless(d) ==> st.component == [i] && st.visited == visited + {i}
  {
    ExploredShape(d, visited, i, st);
    var c := st.component;
    if |c| > 1 {
      DescendsUsesEdges(d, c, 1);
    } else {
      assert c == [i];
      assert c[1..] == [];
      forall x
        ensures x in st.visited <==> x in visited + {i}
      {
      }
    }
  }

  /** One pass of the loop of `AlgorytmDFS` that opens a component at `i`. */
  lemma NewComponent(d: Digraph, forest: seq<seq<int>>, visited: set<int>, i: int, st: Visit)
    requires Valid(d) && 0 <= i < d.order && i !in visited
    requires LoopState(d, forest, visited, i)
    requires Explored(d, visited, i, st)
    ensures LoopState(d, forest + [st.component], st.visited, i + 1)
  {
    NewComponentCovers(d, forest, visited, i, st);
    NewComponentHeads(d, forest, visited, i, st);
    NewComponentReached(d, forest, visited, i, st);
    NewComponentWithoutEdges(d, visited, i, st);
    NewComponentOrder(d, forest, visited, i, st);
    if Arcless(d) {
      Singletons(forest, i);
    }
  }

  /** The vertices visited before step `j` of the new component. */
  lemma SeenAtStart(forest: seq<seq<int>>, visited: set<int>, c: seq<int>, j: int)
    requires forall x :: x in visited <==> x in Flatten(forest)
    requires 1 <= j <= |c|
    ensures (visited + {c[0]}) + Elems(c[1..j]) == Elems(Flatten(forest) + c[..j])
  {
    assert c[..j] == [c[0]] + c[1..j];
    forall x
      ensures x in visited || x == c[0] || x in c[1..j] <==> x in Flatten(forest) + c[..j]
    {
    }
  }

  lemma NewComponentOrder(d: Digraph, forest: seq<seq<int>>, visited: set<int>, i: int, st: Visit)
    requires Valid(d) && 0 <= i < d.order && i !in visited
    requires Covers(d, forest, visited, i)
    requires forall k :: 0 <= k < |forest| ==> ComponentOrder(d, forest, k)
    requires Explored(d, visited, i, st)
    ensures forall k :: 0 <= k < |forest| + 1 ==> ComponentOrder(d, forest + [st.component], k)
  {
    ExploredShape(d, visited, i, st);
    var c := st.component;
    var f := forest + [c];
    forall k | 0 <= k < |f|
      ensures ComponentOrder(d, f, k)
    {
      PrefixSnoc(forest, c, k);
      if k < |forest| {
        assert f[k] == forest[k];
        assert ComponentOrder(d, forest, k);
      } else {
        forall j | 1 <= j < |c|
          ensures NextVisited(d, c[..j], Elems(Flatten(forest) + c[..j]), c[j])
        {
          SeenAtStart(forest, visited, c, j);
        }
      }
    }
  }

  lemma Singletons(forest: seq<seq<int>>, i: int)
    requires 0 <= i && forest == seq(i, v => [v])
    ensures forest + [[i]] == seq(i + 1, v => [v])
  {
  }

  // ---------------------------------------------------------------------
  // An example
  // ---------------------------------------------------------------------

  /** With the edges (0, 1), (0, 2), (1, 3), (2, 3) the search descends from
      1 to 3 before it returns to 0 for 2: the only forest is
      [[0, 1, 3, 2]], not the breadth-first [[0, 1, 2, 3]]. */
  lemma DiamondForest(d: Digraph, f: seq<seq<int>>)
    requires Valid(d) && d.order == 4 && d.succ == [[1, 2], [3], [3], []]
    requires DepthFirstForest(d, f)
    ensures f == [[0, 1, 3, 2]]
  {
    FirstComponent(d, f);
    var c := f[0];
    assert 2 in c by {
      assert NoForwardEdge(d, f, 0);
      assert Arc(d, 0, 2);
    }
    assert ComponentOrder(d, f, 0);
    Stepwise(d, f);
    DiamondSteps(d, c);
    Covering(c);
    OnlyComponent(d, f);
    Single(f, c);
  }

  /** With successor lists [1, 2], [], [] and the component [0, 1], the call
      of `KrokDFS` for 1 finds nothing to visit: it may not go on to 2,
      which belongs to the call for 0. */
  lemma SubtreeExample(d: Digraph)
    requires d.succ == [[1, 2], [], []]
    ensures !Subtree(d, Visit({0, 1}, [0, 1]), Visit({0, 1, 2}, [0, 1, 2]), 1)
  {
    var after := Visit({0, 1, 2}, [0, 1, 2]);
    assert after.component[..2] == [0, 1] && after.component[2..2] == [];
    assert Elems([]) == {};
    assert FirstOutside([], {0, 1}) == None;
    assert Deepest(d, [0, 1], {0, 1}) == 0 by {
      assert [0, 1][..1] == [0];
      assert FirstOutside([1, 2], {0, 1}) == Some(2);
    }
  }

  /** The same forest from `AlgorytmDFS` on a graph of any layout loaded
      with the diamond edges. */
  lemma DiamondGraph(layout: G.Layout)
    ensures ForestOf(G.Load(G.New(layout, 4), G.DiamondEdges())) == [[0, 1, 3, 2]]
  {
    var g := G.Load(G.New(layout, 4), G.DiamondEdges());
    G.DiamondView(layout);
    DiamondForest(G.View(g), ForestOf(g));
  }

  lemma Covering(c: seq<int>)
    requires c == [0, 1, 3, 2]
    ensures forall v :: 0 <= v < 4 ==> v in c
  {
    assert c[0] == 0 && c[1] == 1 && c[2] == 3 && c[3] == 2;
  }

  lemma Single(f: seq<seq<int>>, c: seq<int>)
    requires |f| == 1 && f[0] == c
    ensures f == [c]
  {
  }

  /** The first component starts at vertex 0. */
  lemma FirstComponent(d: Digraph, f: seq<seq<int>>)
    requires Valid(d) && d.order > 0 && DepthFirstForest(d, f)
    ensures |f| > 0 && |f[0]| > 0 && f[0][0] == 0 && Flatten(f[..1]) == f[0]
  {
    assert 0 in Flatten(f);
    var c := f[0];
    assert f[..0] == [];
    assert HeadIsLeast(f, 0);
    assert c[0] in Flatten(f);
    assert 0 !in Flatten(f[..0]);
    assert f[..1] == [c];
    assert Flatten([c]) == Flatten([c][..0]) + c;
  }

  /** A first component holding every vertex is the only one. */
  lemma OnlyComponent(d: Digraph, f: seq<seq<int>>)
    requires Valid(d) && DepthFirstForest(d, f)
    requires |f| > 0 && Flatten(f[..1]) == f[0]
    requires forall v :: 0 <= v < d.order ==> v in f[0]
    ensures |f| == 1
  {
    LaterHeadInFirst(d, f);
  }

  lemma LaterHeadInFirst(d: Digraph, f: seq<seq<int>>)
    requires Valid(d) && DepthFirstForest(d, f)
    requires |f| > 0 && forall v :: 0 <= v < d.order ==> v in f[0]
    ensures |f| > 1 ==> f[1][0] in f[0]
  {
    if |f| > 1 {
      assert f[1][0] in Flatten(f);
    }
  }

  /** The steps of the search in `DiamondForest`. */
  lemma DiamondSteps(d: Digraph, c: seq<int>)
    requires d.succ == [[1, 2], [3], [3], []]
    requires |c| > 0 && c[0] == 0 && 2 in c
    requires forall j :: Stepped(d, c, j)
    ensures c == [0, 1, 3, 2]
  {
    DiamondHead(d, c);
    DiamondTail(d, c);
  }

  /** From 0 the search goes to 1, then to 3. */
  lemma DiamondHead(d: Digraph, c: seq<int>)
    requires d.succ == [[1, 2], [3], [3], []]
    requires |c| > 0 && c[0] == 0 && 2 in c
    requires forall j :: Stepped(d, c, j)
    ensures |c| > 2 && c[..3] == [0, 1, 3]
  {
    DiamondToOne(d, c);
    DiamondToThree(d, c);
  }

  lemma DiamondToOne(d: Digraph, c: seq<int>)
    requires d.succ == [[1, 2], [3], [3], []]
    requires |c| > 0 && c[0] == 0 && 2 in c
    requires forall j :: Stepped(d, c, j)
    ensures |c| > 1 && c[..2] == [0, 1]
  {
    assert c[..1] == [0];
    Beyond(c, 1);
    StepAt(d, c, 1, {0});
    DiamondFirst(d, c[1]);
    TakeSnoc(c, 1);
  }

  lemma DiamondToThree(d: Digraph, c: seq<int>)
    requires d.succ == [[1, 2], [3], [3], []]
    requires |c| > 1 && c[..2] == [0, 1] && 2 in c
    requires forall j :: Stepped(d, c, j)
    ensures |c| > 2 && c[..3] == [0, 1, 3]
  {
    Beyond(c, 2);
    StepAt(d, c, 2, {0, 1});
    DiamondSecond(d, c[2]);
    TakeSnoc(c, 2);
  }

  /** From [0, 1, 3] the search returns to 0 for 2, and stops. */
  lemma DiamondTail(d: Digraph, c: seq<int>)
    requires d.succ == [[1, 2], [3], [3], []]
    requires |c| > 2 && c[..3] == [0, 1, 3] && 2 in c
    requires forall j :: Stepped(d, c, j)
    ensures c == [0, 1, 3, 2]
  {
    Beyond(c, 3);
    StepAt(d, c, 3, {0, 1, 3});
    DiamondThird(d, c[3]);
    TakeSnoc(c, 3);
    DiamondEnd(d, c);
    assert c == c[..4];
  }

  /** The step to `c[j]` of a first component: nothing comes before it. */
  ghost predicate Stepped(d: Digraph, c: seq<int>, j: int) {
    1 <= j < |c| ==> NextVisited(d, c[..j], Elems(c[..j]), c[j])
  }

  lemma Stepwise(d: Digraph, f: seq<seq<int>>)
    requires |f| > 0 && ComponentOrder(d, f, 0)
    ensures forall j :: Stepped(d, f[0], j)
  {
    assert f[..0] == [];
    forall j
      ensures Stepped(d, f[0], j)
    {
      if 1 <= j < |f[0]| {
        assert Flatten(f[..0]) + f[0][..j] == f[0][..j];
      }
    }
  }

  /** The step to `c[n]`, with the seen set written out. */
  lemma StepAt(d: Digraph, c: seq<int>, n: int, seen: set<int>)
    requires forall j :: Stepped(d, c, j)
    requires 1 <= n < |c| && seen == Elems(c[..n])
    ensures NextVisited(d, c[..n], seen, c[n])
  {
    assert Stepped(d, c, n);
  }

  /** No step follows [0, 1, 3, 2]. */
  lemma DiamondEnd(d: Digraph, c: seq<int>)
    requires d.succ == [[1, 2], [3], [3], []]
    requires |c| >= 4 && c[..4] == [0, 1, 3, 2]
    requires forall j :: Stepped(d, c, j)
    ensures |c| == 4
  {
    DiamondDone(d);
    if |c| > 4 {
      StepAt(d, c, 4, {0, 1, 3, 2});
      assert false;
    }
  }

  /** `c` holds 2 beyond its first `n` elements. */
  lemma Beyond(c: seq<int>, n: int)
    requires 0 <= n <= |c| && 2 in c && 2 !in c[..n]
    ensures |c| > n
  {
    assert c[..|c|] == c;
  }

  lemma DiamondFirst(d: Digraph, x: int)
    requires d.succ == [[1, 2], [3], [3], []]
    requires NextVisited(d, [0], {0}, x)
    ensures x == 1
  {
    assert FirstOutside([1, 2], {0}) == Some(1);
  }

  lemma DiamondSecond(d: Digraph, x: int)
    requires d.succ == [[1, 2], [3], [3], []]
    requires NextVisited(d, [0, 1], {0, 1}, x)
    ensures x == 3
  {
    assert FirstOutside([3], {0, 1}) == Some(3);
  }

  lemma DiamondThird(d: Digraph, x: int)
    requires d.succ == [[1, 2], [3], [3], []]
    requires NextVisited(d, [0, 1, 3], {0, 1, 3}, x)
    ensures x == 2
  {
    assert [0, 1, 3][..2] == [0, 1] && [0, 1][..1] == [0];
    assert FirstOutside([3], {0, 1, 3}) == None;
    assert FirstOutside([1, 2], {0, 1, 3}) == Some(2);
    assert Deepest(d, [0, 1, 3], {0, 1, 3}) == 0;
  }

  lemma DiamondDone(d: Digraph)
    requires d.succ == [[1, 2], [3], [3], []]
    ensures forall x :: !NextVisited(d, [0, 1, 3, 2], {0, 1, 3, 2}, x)
  {
    assert [0, 1, 3, 2][..3] == [0, 1, 3] && [0, 1, 3][..2] == [0, 1] && [0, 1][..1] == [0];
    assert FirstOutside([3], {0, 1, 3, 2}) == None;
    assert FirstOutside([1, 2], {0, 1, 3, 2}) == None;
    assert Deepest(d, [0, 1, 3, 2], {0, 1, 3, 2}) == -1;
  }
}
