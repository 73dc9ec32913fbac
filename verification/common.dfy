/** Shared vocabulary for the graph model: the absent/present result the C# code
    expresses with `null`, the outcome of an edge insertion, sequence predicates,
    and the two `List<T>` primitives the representations rely on
    (`BinarySearch` and `Remove`). */
module Common {

  /** A query result that the program returns as `null` when absent. */
  datatype Option<T> = None | Some(value: T)

  /** What an edge insertion leaves behind: the graph afterwards and the
      success flag `DodajKrawedz` returns. */
  datatype Insertion<G> = Insertion(graph: G, added: bool)

  predicate NoDup<T(==)>(s: seq<T>) {
    forall i, j :: 0 <= i < j < |s| ==> s[i] != s[j]
  }

  /** Strictly ascending, hence duplicate-free. */
  predicate Ascending(s: seq<int>) {
    forall i, j :: 0 <= i < j < |s| ==> s[i] < s[j]
  }

  lemma AscendingNoDup(s: seq<int>)
    requires Ascending(s)
    ensures NoDup(s)
  {
  }

  /** Two strictly ascending sequences with the same elements are equal. */
  lemma {:induction false} AscendingUnique(a: seq<int>, b: seq<int>)
    requires Ascending(a) && Ascending(b)
    requires forall x :: x in a <==> x in b
    ensures a == b
    decreases |a|
  {
    assert |a| > 0 ==> a[0] in a && a[0] in b;
    assert |b| > 0 ==> b[0] in b && b[0] in a;
    if |a| > 0 && |b| > 0 {
      // both heads are the minimum of the common element set
      assert a[0] in a && b[0] in b;
      assert a[0] == b[0];
      forall x
        ensures x in a[1..] <==> x in b[1..]
      {
        if x in a[1..] {
          assert x in b;
          assert x != b[0];
        }
        if x in b[1..] {
          assert x in a;
          assert x != a[0];
        }
      }
      AscendingUnique(a[1..], b[1..]);
      assert a == [a[0]] + a[1..];
      assert b == [b[0]] + b[1..];
    }
  }

  /** Three-way comparison of `int`s, as `Int32.CompareTo` returns it. */
  function IntCompare(a: int, b: int): (r: int)
    ensures r < 0 <==> a < b
    ensures r == 0 <==> a == b
    ensures r > 0 <==> b < a
    ensures -1 <= r <= 1
  {
    if a < b then -1 else if a > b then 1 else 0
  }

  // ---------------------------------------------------------------------
  // List<T>.BinarySearch
  // ---------------------------------------------------------------------

  /** `s` is split at `p` with respect to `key` under `cmp`: everything before
      `p` compares below `key`, nothing from `p` on does. */
  ghost predicate Partitioned<T>(s: seq<T>, key: T, cmp: (T, T) -> int, p: int) {
    && 0 <= p <= |s|
    && (forall i :: 0 <= i < p ==> cmp(s[i], key) < 0)
    && (forall i :: p <= i < |s| ==> cmp(s[i], key) >= 0)
  }

  /** The probe `lo + ((hi - lo) >> 1)` of a non-empty window. */
  function Middle(lo: int, hi: int): (i: int)
    requires lo <= hi
    ensures lo <= i <= hi
  {
    lo + (hi - lo) / 2
  }

  /** The search loop of `List<T>.BinarySearch` on the window `s[lo..hi]`
      (inclusive bounds): probe the midpoint, return its index on a hit,
      otherwise continue in the half that can still hold `key`; on an empty
      window return the bitwise complement `~lo`, that is `-lo - 1`. */
  function Search<T>(s: seq<T>, key: T, cmp: (T, T) -> int, lo: int, hi: int): (r: int)
    requires 0 <= lo <= hi + 1 <= |s|
    ensures r >= 0 ==> lo <= r <= hi && cmp(s[r], key) == 0
    ensures r < 0 ==> lo <= -r - 1 <= hi + 1
    decreases hi - lo + 1
  {
    if lo > hi then -lo - 1
    else
      var i := Middle(lo, hi);
      var c := cmp(s[i], key);
      if c == 0 then i
      else if c < 0 then Search(s, key, cmp, i + 1, hi)
      else Search(s, key, cmp, lo, i - 1)
  }

  /** `List<T>.BinarySearch(key)` over the whole list. A non-negative result
      is the index of an element comparing equal to `key`; a negative one is
      the complement of a position in `0..|s|`. */
  function BinarySearch<T>(s: seq<T>, key: T, cmp: (T, T) -> int): (r: int)
    ensures r >= 0 ==> r < |s| && cmp(s[r], key) == 0
    ensures r < 0 ==> 0 <= -r - 1 <= |s|
  {
    Search(s, key, cmp, 0, |s| - 1)
  }

  /** On a list split at `p` inside the window, a miss reports `p`. */
  lemma {:induction false} SearchPartitioned<T>(s: seq<T>, key: T, cmp: (T, T) -> int, lo: int, hi: int, p: int)
    requires 0 <= lo <= hi + 1 <= |s|
    requires Partitioned(s, key, cmp, p)
    requires lo <= p <= hi + 1
    ensures var r := Search(s, key, cmp, lo, hi);
            r < 0 ==> r == -p - 1
    decreases hi - lo + 1
  {
    if lo <= hi {
      var i := Middle(lo, hi);
      var c := cmp(s[i], key);
      if c < 0 {
        SearchPartitioned(s, key, cmp, i + 1, hi, p);
      } else if c > 0 {
        SearchPartitioned(s, key, cmp, lo, i - 1, p);
      }
    }
  }

  /** A miss happens only where the element at the split compares above
      `key` (or past the end): the loop leaves a window only after probing
      the element just right of it. */
  lemma {:induction false} SearchMissAbove<T>(s: seq<T>, key: T, cmp: (T, T) -> int, lo: int, hi: int, p: int)
    requires 0 <= lo <= hi + 1 <= |s|
    requires Partitioned(s, key, cmp, p)
    requires lo <= p <= hi + 1
    requires hi + 1 == |s| || cmp(s[hi + 1], key) > 0
    ensures var r := Search(s, key, cmp, lo, hi);
            r < 0 ==> p == |s| || cmp(s[p], key) > 0
    decreases hi - lo + 1
  {
    if lo <= hi {
      var i := Middle(lo, hi);
      var c := cmp(s[i], key);
      if c < 0 {
        SearchMissAbove(s, key, cmp, i + 1, hi, p);
      } else if c > 0 {
        SearchMissAbove(s, key, cmp, lo, i - 1, p);
      }
    }
  }

  /** On a list split at `p`, a miss reports exactly `p` as the insertion
      point, and an element equal to `key` sitting at `p` is always found. */
  lemma BinarySearchPartitioned<T>(s: seq<T>, key: T, cmp: (T, T) -> int, p: int)
    requires Partitioned(s, key, cmp, p)
    ensures var r := BinarySearch(s, key, cmp);
            r < 0 ==> -r - 1 == p && (p == |s| || cmp(s[p], key) > 0)
  {
    SearchPartitioned(s, key, cmp, 0, |s| - 1, p);
    SearchMissAbove(s, key, cmp, 0, |s| - 1, p);
  }

  /** `q` is where `key` belongs in the strictly ascending `s`. */
  ghost predicate InsertionPoint(s: seq<int>, key: int, q: int) {
    && 0 <= q <= |s|
    && (forall i :: 0 <= i < q ==> s[i] < key)
    && (forall i :: q <= i < |s| ==> key < s[i])
  }

  /** Number of leading elements of `s` below `key`. */
  function CountBelow(s: seq<int>, key: int): (p: nat)
    requires Ascending(s)
    ensures p <= |s|
    ensures forall i :: 0 <= i < p ==> s[i] < key
    ensures forall i :: p <= i < |s| ==> key <= s[i]
  {
    if |s| == 0 || key <= s[0] then 0 else 1 + CountBelow(s[1..], key)
  }

  /** Binary search on a strictly ascending `int` list: a hit exactly when
      `key` is present, and on a miss the complement of the position that
      keeps the list ascending. */
  lemma BinarySearchAscending(s: seq<int>, key: int)
    requires Ascending(s)
    ensures var r := BinarySearch(s, key, IntCompare);
            && (r >= 0 <==> key in s)
            && (r >= 0 ==> s[r] == key)
            && (r < 0 ==> InsertionPoint(s, key, -r - 1))
  {
    var p := CountBelow(s, key);
    assert Partitioned(s, key, IntCompare, p);
    BinarySearchPartitioned(s, key, IntCompare, p);
  }

  /** Inserting at the insertion point keeps the list strictly ascending and
      adds exactly `key`. */
  lemma InsertAscending(s: seq<int>, key: int, q: int)
    requires Ascending(s)
    requires InsertionPoint(s, key, q)
    ensures Ascending(s[..q] + [key] + s[q..])
    ensures forall x :: x in s[..q] + [key] + s[q..] <==> x in s || x == key
  {
    var t := s[..q] + [key] + s[q..];
    forall x
      ensures x in t <==> x in s || x == key
    {
      if x in s {
        var i :| 0 <= i < |s| && s[i] == x;
        if i < q {
          assert t[i] == x;
        } else {
          assert t[i + 1] == x;
        }
      }
    }
  }

  /** Extending a prefix by the next element. */
  lemma TakeSnoc<T>(s: seq<T>, j: int)
    requires 0 <= j < |s|
    ensures s[..j + 1] == s[..j] + [s[j]]
  {
  }

  // ---------------------------------------------------------------------
  // List<T>.Remove
  // ---------------------------------------------------------------------

  /** `List<T>.Remove(x)`: drop the first occurrence of `x`, if any. */
  function RemoveFirst(s: seq<int>, x: int): (r: seq<int>)
    ensures forall y :: y in r ==> y in s
    ensures x in s ==> |r| == |s| - 1
    ensures x !in s ==> r == s
  {
    if |s| == 0 then s
    else if s[0] == x then
      assert s == [s[0]] + s[1..];
      s[1..]
    else
      assert s == [s[0]] + s[1..];
      [s[0]] + RemoveFirst(s[1..], x)
  }

  /** On a duplicate-free list, `Remove` deletes exactly `x`. */
  lemma {:induction false} RemoveFirstNoDup(s: seq<int>, x: int)
    requires NoDup(s)
    ensures NoDup(RemoveFirst(s, x))
    ensures forall y :: y in RemoveFirst(s, x) <==> y in s && y != x
  {
    if |s| > 0 {
      var r := RemoveFirst(s, x);
      var tail := s[1..];
      assert s == [s[0]] + tail;
      assert s[0] !in tail;
      if s[0] != x {
        var t := RemoveFirst(tail, x);
        assert r == [s[0]] + t;
        RemoveFirstNoDup(tail, x);
        assert s[0] !in t;
        forall i, j | 0 <= i < j < |r|
          ensures r[i] != r[j]
        {
          if i > 0 {
            assert r[i] == t[i - 1] && r[j] == t[j - 1];
          } else {
            assert r[j] in t;
          }
        }
      }
    }
  }
}
