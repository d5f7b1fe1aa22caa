/**
 stbtt__sort_edges: quicksort down to a dozen edges whose scans rely on
 sentinels instead of bounds checks, then one insertion sort over everything.
 */
module EdgeSort {
  datatype Edge = Edge(x0: real, y0: real, x1: real, y1: real, invert: bool)

  /** STBTT__COMPARE */
  predicate Before(a: Edge, b: Edge) { a.y0 < b.y0 }

  ghost predicate Sorted(s: seq<Edge>) {
    forall i, j :: 0 <= i < j < |s| ==> s[i].y0 <= s[j].y0
  }

  ghost predicate Permuted(s: seq<Edge>, t: seq<Edge>) {
    multiset(s) == multiset(t)
  }

  ghost function Swapped(s: seq<Edge>, i: nat, j: nat): seq<Edge>
    requires i < |s| && j < |s|
  {
    s[i := s[j]][j := s[i]]
  }

  lemma SwapPermutes(s: seq<Edge>, i: nat, j: nat)
    requires i < |s| && j < |s|
    ensures Permuted(s, Swapped(s, i, j))
  {
  }

  /** Nothing outside of the n edges from p on has changed, and the edges are the same. */
  twostate predicate Shuffled(a: array<Edge>, p: nat, n: nat)
    reads a
  {
    && Permuted(old(a[..]), a[..])
    && forall k :: 0 <= k < a.Length && !(p <= k < p + n) ==> a[k] == old(a[k])
  }

  method Swap(a: array<Edge>, i: nat, j: nat)
    requires i < a.Length && j < a.Length
    modifies a
    ensures a[i] == old(a[j]) && a[j] == old(a[i])
    ensures forall k :: 0 <= k < a.Length && k != i && k != j ==> a[k] == old(a[k])
    ensures Permuted(old(a[..]), a[..])
  {
    SwapPermutes(a[..], i, j);
    var t := a[i];
    a[i] := a[j];
    a[j] := t;
    assert a[..] == Swapped(old(a[..]), i, j);
  }

  // ----- insertion sort

  /** The sorted front of i edges, with a hole at j where t has to go. */
  ghost predicate Hole(s: seq<Edge>, i: nat, j: nat, t: Edge) {
    && j <= i < |s|
    && (forall k, l :: 0 <= k < l <= i && k != j && l != j ==> s[k].y0 <= s[l].y0)
    && (forall k :: j < k <= i ==> t.y0 < s[k].y0)
  }

  lemma HoleOpens(s: seq<Edge>, i: nat)
    requires i < |s| && Sorted(s[..i])
    ensures Hole(s, i, i, s[i]) && s[i := s[i]] == s
  {
    assert forall k :: 0 <= k < i ==> s[..i][k] == s[k];
  }

  lemma HoleMoves(s: seq<Edge>, i: nat, j: nat, t: Edge)
    requires Hole(s, i, j, t) && j > 0 && Before(t, s[j - 1])
    ensures Hole(s[j := s[j - 1]], i, j - 1, t)
    ensures Permuted(s[j := t], s[j := s[j - 1]][j - 1 := t])
  {
    SwapPermutes(s[j := t], j - 1, j);
    assert s[j := s[j - 1]][j - 1 := t] == Swapped(s[j := t], j - 1, j);
  }

  lemma HoleFilled(s: seq<Edge>, i: nat, j: nat, t: Edge)
    requires Hole(s, i, j, t) && (j > 0 ==> !Before(t, s[j - 1]))
    ensures Sorted(s[j := t][..i + 1])
  {
    var r := s[j := t];
    forall k, l | 0 <= k < l <= i
      ensures r[k].y0 <= r[l].y0
    {
      if l == j && k < j - 1 { assert s[k].y0 <= s[j - 1].y0; }
    }
  }

  /** Edge i is moved down to its place in front of the edges that are larger. */
  method Insert(a: array<Edge>, i: nat)
    requires i < a.Length && Sorted(a[..i])
    modifies a
    ensures Sorted(a[..i + 1]) && Shuffled(a, 0, i + 1)
  {
    hide Hole, Permuted, Before, Sorted;
    var t, j := a[i], i;
    ghost var was := a[..];
    HoleOpens(was, i);
    PermutedSelf(was);
    ghost var s := was;
    while j > 0
      invariant j <= i && s == a[..] && Hole(s, i, j, t)
      invariant Permuted(was, s[j := t])
      invariant forall k :: i < k < a.Length ==> s[k] == was[k]
      invariant j == i ==> s[i] == t
    {
      if !Before(t, a[j - 1]) { break; }
      HoleMoves(s, i, j, t);
      PermutedTrans(was, s[j := t], s[j := s[j - 1]][j - 1 := t]);
      a[j] := a[j - 1];
      s := s[j := s[j - 1]];
      j := j - 1;
    }
    HoleFilled(s, i, j, t);
    if i != j { a[j] := t; }
    assert a[..] == s[j := t];
  }

  lemma PermutedSelf(s: seq<Edge>)
    ensures Permuted(s, s)
  {
  }

  lemma PermutedTrans(s: seq<Edge>, t: seq<Edge>, u: seq<Edge>)
    requires Permuted(s, t) && Permuted(t, u)
    ensures Permuted(s, u)
  {
  }

  /** stbtt__sort_edges_ins_sort */
  method InsertionSort(a: array<Edge>, n: nat)
    requires n <= a.Length
    modifies a
    ensures Sorted(a[..n]) && Shuffled(a, 0, n)
  {
    hide Sorted, Permuted;
    ghost var was := a[..];
    PermutedSelf(was);
    SortedShort(a[..if n == 0 then 0 else 1]);
    var i := 1;
    while i < n
      invariant n > 0 ==> i <= n
      invariant Sorted(a[..if i <= n then i else n])
      invariant Permuted(was, a[..]) && forall k :: n <= k < a.Length ==> a[k] == was[k]
    {
      ghost var before := a[..];
      Insert(a, i);
      PermutedTrans(was, before, a[..]);
      i := i + 1;
    }
  }

  lemma SortedShort(s: seq<Edge>)
    requires |s| <= 1
    ensures Sorted(s)
  {
  }

  // ----- quicksort

  /** Positions l and h, in [1, n), of edges that are not larger and not smaller than the first. */
  ghost predicate MedianFirst(s: seq<Edge>, p: nat, n: nat, l: nat, h: nat) {
    && 1 <= l < n && 1 <= h < n && l != h && p + n <= |s|
    && s[p + l].y0 <= s[p].y0 <= s[p + h].y0
  }

  /** The median of the first, middle and last edge comes to the front. */
  method MedianToFront(a: array<Edge>, p: nat, n: nat) returns (ghost l: nat, ghost h: nat)
    requires p + n <= a.Length && n > 12
    modifies a
    ensures Shuffled(a, p, n) && MedianFirst(a[..], p, n, l, h)
  {
    hide Permuted;
    ghost var was := a[..];
    PermutedSelf(was);
    var m := n / 2;
    var c01 := Before(a[p], a[p + m]);
    var c12 := Before(a[p + m], a[p + n - 1]);
    if c01 != c12 {
      var c := Before(a[p], a[p + n - 1]);
      var z := if c == c12 then 0 else n - 1;
      Swap(a, p + z, p + m);
    }
    ghost var mid := a[..];
    Swap(a, p, p + m);
    PermutedTrans(was, mid, a[..]);
    l, h := m, n - 1;
    if !(a[p + m].y0 <= a[p].y0 <= a[p + n - 1].y0) { l, h := n - 1, m; }
  }

  /** The scans have passed only edges on the right side of the first one. */
  ghost predicate Scanned(s: seq<Edge>, p: nat, n: nat, i: nat, j: int) {
    && p + n <= |s| && i <= n && j < n
    && (forall k :: p <= k < p + i ==> s[k].y0 <= s[p].y0)
    && (forall k :: p <= k < p + n && p + j < k ==> s[p].y0 <= s[k].y0)
  }

  lemma NothingScanned(s: seq<Edge>, p: nat, n: nat)
    requires p + n <= |s| && n > 1
    ensures Scanned(s, p, n, 1, n - 1)
  {
  }

  lemma ScannedOn(s: seq<Edge>, p: nat, n: nat, i0: nat, j0: int, i: nat, j: nat)
    requires Scanned(s, p, n, i0, j0) && i0 <= i < n && j <= j0
    requires forall k :: p + i0 <= k < p + i ==> Before(s[k], s[p])
    requires forall k :: p + j < k <= p + j0 ==> Before(s[p], s[k])
    ensures Scanned(s, p, n, i, j)
    ensures 0 < i <= j0 + 1 ==> j >= i - 1
  {
    assert i > 0 ==> !Before(s[p], s[p + (i - 1)]);
  }

  lemma SwappedScanned(before: seq<Edge>, s: seq<Edge>, p: nat, n: nat, i: nat, j: nat)
    requires Scanned(before, p, n, i, j) && 1 <= i < j < n && |s| == |before|
    requires !Before(before[p + i], before[p]) && !Before(before[p], before[p + j])
    requires s[p + i] == before[p + j] && s[p + j] == before[p + i]
    requires forall k :: 0 <= k < |s| && k != p + i && k != p + j ==> s[k] == before[k]
    ensures Scanned(s, p, n, i + 1, j - 1)
  {
  }

  /** The scan from the left ends at or before a known edge that is not before the pivot. */
  method ScanUp(a: array<Edge>, p: nat, from: nat, ghost sentinel: nat) returns (i: nat)
    requires from <= sentinel && p + sentinel < a.Length && !Before(a[p + sentinel], a[p])
    ensures from <= i <= sentinel && !Before(a[p + i], a[p])
    ensures forall k :: p + from <= k < p + i ==> Before(a[k], a[p])
  {
    i := from;
    while Before(a[p + i], a[p])
      invariant from <= i <= sentinel
      invariant forall k :: p + from <= k < p + i ==> Before(a[k], a[p])
      decreases sentinel - i
    {
      i := i + 1;
    }
  }

  /** The scan from the right ends at the pivot at the latest. */
  method ScanDown(a: array<Edge>, p: nat, from: nat) returns (j: nat)
    requires p + from < a.Length
    ensures j <= from && !Before(a[p], a[p + j])
    ensures forall k :: p + j < k <= p + from ==> Before(a[p], a[k])
  {
    j := from;
    while Before(a[p], a[p + j])
      invariant j <= from
      invariant forall k :: p + j < k <= p + from ==> Before(a[p], a[k])
      decreases j
    {
      j := j - 1;
    }
  }

  /**
   The partition loop.  Neither scan tests the bounds: one stops at the edge h,
   the other at the first edge at the latest.
   */
  method Partition(a: array<Edge>, p: nat, n: nat) returns (i: nat, j: nat)
    requires p + n <= a.Length && n > 12
    modifies a
    ensures Shuffled(a, p, n) && Scanned(a[..], p, n, i, j)
    ensures 1 <= i < n && j < n && j <= i <= j + 1 && (i == j ==> a[p + i].y0 == a[p].y0)
  {
    hide Permuted, Scanned;
    ghost var was := a[..];
    ghost var l, h := MedianToFront(a, p, n);
    NothingScanned(a[..], p, n);
    i := 1;
    var down: int := n - 1;
    while true
      invariant 1 <= i <= h < n && i <= down + 1 && h <= down + 1 && down < n
      invariant Scanned(a[..], p, n, i, down) && a[p].y0 <= a[p + h].y0
      invariant Permuted(was, a[..])
      invariant forall k :: 0 <= k < a.Length && !(p <= k < p + n) ==> a[k] == was[k]
      decreases down - i
    {
      ghost var i0, down0 := i, down;
      i := ScanUp(a, p, i, h);
      down := ScanDown(a, p, down);
      ScannedOn(a[..], p, n, i0, down0, i, down);
      if i >= down { break; }
      ghost var before := a[..];
      Swap(a, p + i, p + down);
      PermutedTrans(was, before, a[..]);
      SwappedScanned(before, a[..], p, n, i, down);
      h := down;
      i := i + 1;
      down := down - 1;
    }
    j := down;
  }

  // ----- the edge between the parts

  ghost predicate Distinct(s: seq<Edge>) {
    forall k, l :: 0 <= k < l < |s| ==> s[k].y0 != s[l].y0
  }

  lemma TwoPlaces(s: seq<Edge>, k: nat, l: nat)
    requires k < l < |s| && s[k] == s[l]
    ensures multiset(s)[s[k]] >= 2
  {
    assert s == s[..l] + [s[l]] + s[l + 1..];
    assert s[k] in s[..l];
  }

  lemma {:induction false} TwiceThere(s: seq<Edge>, e: Edge)
    requires multiset(s)[e] >= 2
    ensures exists k, l :: 0 <= k < l < |s| && s[k] == s[l] == e
  {
    var front, last := s[..|s| - 1], s[|s| - 1];
    assert s == front + [last];
    if last == e {
      assert e in front;
    } else {
      TwiceThere(front, e);
    }
  }

  lemma DistinctKept(s: seq<Edge>, t: seq<Edge>)
    requires Permuted(s, t) && Distinct(s)
    ensures Distinct(t)
  {
    forall k, l | 0 <= k < l < |t|
      ensures t[k].y0 != t[l].y0
    {
      if t[k] == t[l] {
        TwoPlaces(t, k, l);
        TwiceThere(s, t[k]);
      } else {
        assert t[k] in multiset(t) && t[l] in multiset(t);
        assert t[k] in s && t[l] in s;
      }
    }
  }

  /** With different y0 everywhere, always one edge ends up in neither part. */
  method PartitionDistinct(a: array<Edge>) returns (i: nat, j: nat)
    requires a.Length > 12 && Distinct(a[..])
    modifies a
    ensures Shuffled(a, 0, a.Length) && Scanned(a[..], 0, a.Length, i, j) && i == j + 1 < a.Length
  {
    hide Permuted, Scanned, Distinct;
    i, j := Partition(a, 0, a.Length);
    DistinctKept(old(a[..]), a[..]);
    assert i == j ==> a[..][0].y0 == a[..][i].y0;
    NotEqual(a[..], i);
  }

  lemma NotEqual(s: seq<Edge>, i: nat)
    requires Distinct(s) && 0 < i < |s|
    ensures s[0].y0 != s[i].y0
  {
  }

  /** stbtt__sort_edges_quicksort: terminates within bounds and only rearranges. */
  method Quicksort(a: array<Edge>, start: nat, count: nat)
    requires start + count <= a.Length
    modifies a
    ensures Shuffled(a, start, count)
    decreases count
  {
    hide Permuted, Scanned;
    ghost var was := a[..];
    PermutedSelf(was);
    var p, n := start, count;
    while n > 12
      invariant start <= p && p + n <= start + count
      invariant Permuted(was, a[..]) && forall k :: 0 <= k < a.Length && !(start <= k < start + count) ==>
          a[k] == was[k]
      decreases n
    {
      ghost var s0 := a[..];
      var i, j := Partition(a, p, n);
      ghost var s1 := a[..];
      PermutedTrans(was, s0, s1);
      if j < n - i {
        Quicksort(a, p, j);
        p := p + i;
        n := n - i;
      } else {
        Quicksort(a, p + i, n - i);
        n := j;
      }
      PermutedTrans(was, s1, a[..]);
    }
  }

  /** stbtt__sort_edges: the same edges, in order of y0. */
  method SortEdges(a: array<Edge>, n: nat)
    requires n <= a.Length
    modifies a
    ensures Sorted(a[..n]) && Shuffled(a, 0, n)
  {
    hide Permuted;
    ghost var was := a[..];
    Quicksort(a, 0, n);
    ghost var mid := a[..];
    InsertionSort(a, n);
    PermutedTrans(was, mid, a[..]);
  }
}
