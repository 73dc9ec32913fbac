/** The edge value `Krawedz`: a directed pair (start, end) with the equality
    and the lexicographic three-way comparison the sorted edge list is built on. */
module DirectedEdges {
  import opened Common

  datatype Edge = Edge(start: int, end: int)

  /** Reference order: by start, then by end. */
  predicate Precedes(a: Edge, b: Edge) {
    a.start < b.start || (a.start == b.start && a.end < b.end)
  }

  /** `Krawedz.Equals`: both components match. */
  function Equals(a: Edge, b: Edge): (r: bool)
    ensures r <==> a == b
  {
    a.start == b.start && a.end == b.end
  }

  /** `Krawedz.CompareTo` against another edge: -1 or 1 decided by the starts,
      otherwise the `Int32.CompareTo` of the ends. */
  function Compare(a: Edge, b: Edge): (r: int)
    ensures r < 0 <==> Precedes(a, b)
    ensures r == 0 <==> Equals(a, b)
    ensures r > 0 <==> Precedes(b, a)
    ensures -1 <= r <= 1
  {
    if a.start < b.start then -1
    else if a.start > b.start then 1
    else IntCompare(a.end, b.end)
  }

  /** The comparison is a strict total order: antisymmetric in sign,
      transitive, and it separates an edge from its reverse. */
  lemma CompareIsTotalOrder(a: Edge, b: Edge, c: Edge)
    ensures Compare(a, b) == -Compare(b, a)
    ensures Compare(a, b) < 0 && Compare(b, c) < 0 ==> Compare(a, c) < 0
    ensures a.start != a.end ==> Compare(a, Edge(a.end, a.start)) != 0
  {
  }

  /** Strictly ascending in the edge order, hence free of duplicates. */
  predicate Sorted(s: seq<Edge>) {
    forall i, j :: 0 <= i < j < |s| ==> Precedes(s[i], s[j])
  }

  /** Both endpoints of `e` are vertices of a graph of order `n`. */
  predicate InRange(e: Edge, n: int) {
    0 <= e.start < n && 0 <= e.end < n
  }

  /** Number of leading edges of `s` below `e`. */
  function CountBelow(s: seq<Edge>, e: Edge): (p: nat)
    requires Sorted(s)
    ensures p <= |s|
    ensures forall i :: 0 <= i < p ==> Precedes(s[i], e)
    ensures forall i :: p <= i < |s| ==> !Precedes(s[i], e)
  {
    if |s| == 0 || !Precedes(s[0], e) then 0 else 1 + CountBelow(s[1..], e)
  }

  /** In a sorted list an edge sits exactly after the edges below it. */
  lemma SortedPosition(s: seq<Edge>, e: Edge, i: int)
    requires Sorted(s)
    requires 0 <= i < |s| && s[i] == e
    ensures i == CountBelow(s, e)
  {
    var p := CountBelow(s, e);
    assert p <= i;
    assert p < |s| && !Precedes(s[p], e);
  }

  /** Binary search on a sorted edge list: a hit exactly when `e` is present,
      and on a miss the complement of the position that keeps it sorted. */
  lemma BinarySearchSorted(s: seq<Edge>, e: Edge)
    requires Sorted(s)
    ensures var r := BinarySearch(s, e, Compare);
            && (r >= 0 <==> e in s)
            && (r >= 0 ==> s[r] == e)
            && (r < 0 ==> Sorted(s[..-r - 1] + [e] + s[-r - 1..]))
  {
    var p := CountBelow(s, e);
    assert Partitioned(s, e, Compare, p);
    BinarySearchPartitioned(s, e, Compare, p);
    var r := BinarySearch(s, e, Compare);
    if e in s {
      var i :| 0 <= i < |s| && s[i] == e;
      SortedPosition(s, e, i);
    }
    if r < 0 {
      InsertSorted(s, e, p);
    }
  }

  /** Inserting `e` after exactly the edges below it keeps the list sorted. */
  lemma InsertSorted(s: seq<Edge>, e: Edge, p: int)
    requires Sorted(s) && 0 <= p <= |s|
    requires forall i :: 0 <= i < p ==> Precedes(s[i], e)
    requires p < |s| ==> Precedes(e, s[p])
    ensures Sorted(s[..p] + [e] + s[p..])
  {
    var t := s[..p] + [e] + s[p..];
    forall i, j | 0 <= i < j < |t|
      ensures Precedes(t[i], t[j])
    {
      if j < p {
        assert t[i] == s[i] && t[j] == s[j];
      } else if j == p {
        assert t[i] == s[i];
      } else if i == p {
        assert t[j] == s[j - 1];
      } else if i < p {
        assert t[i] == s[i] && t[j] == s[j - 1];
      } else {
        assert t[i] == s[i - 1] && t[j] == s[j - 1];
      }
    }
  }
}
