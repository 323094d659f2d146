/** The edge sort of the glyph rasteriser: a median-of-three quicksort whose inner scans have
    no bounds check, stopped at short segments and finished by one insertion sort. */
module EdgeSort {

  /** A polygon edge; only the upper end `y0` orders edges. */
  datatype Edge = Edge(x0: real, y0: real, x1: real, y1: real, invert: bool)

  const THRESHOLD: nat := 12

  predicate Less(a: Edge, b: Edge) {
    a.y0 < b.y0
  }

  ghost predicate Sorted(s: seq<Edge>) {
    forall i, j :: 0 <= i < j < |s| ==> !Less(s[j], s[i])
  }

  /** `t` is a permutation of `s` that moves nothing outside s[lo..hi]. */
  ghost predicate Rearranged(s: seq<Edge>, t: seq<Edge>, lo: nat, hi: nat) {
    && |s| == |t|
    && multiset(t) == multiset(s)
    && forall k :: 0 <= k < |s| && !(lo <= k < hi) ==> t[k] == s[k]
  }

  /** A rearrangement of a part extends one of the whole. */
  lemma {:induction false} Extend(s: seq<Edge>, t: seq<Edge>, u: seq<Edge>, lo: nat, hi: nat, lo': nat, hi': nat)
    requires Rearranged(s, t, lo', hi') && Rearranged(t, u, lo, hi) && lo' <= lo && hi <= hi'
    ensures Rearranged(s, u, lo', hi')
  {
  }

  method Swap(p: array<Edge>, i: nat, j: nat, ghost lo: nat, ghost hi: nat)
    requires lo <= i < hi <= p.Length && lo <= j < hi
    modifies p
    ensures p[i] == old(p[j]) && p[j] == old(p[i])
    ensures forall k :: 0 <= k < p.Length && k != i && k != j ==> p[k] == old(p[k])
    ensures Rearranged(old(p[..]), p[..], lo, hi)
  {
    var t := p[i];
    p[i] := p[j];
    p[j] := t;
  }

  /** Moves the median of the first, middle and last element of the segment to its front.
      Afterwards some later element is not below the pivot: the sentinel of the upward scan. */
  method MedianToFront(p: array<Edge>, lo: nat, n: nat)
    requires n > THRESHOLD && lo + n <= p.Length
    modifies p
    ensures Rearranged(old(p[..]), p[..], lo, lo + n)
    ensures !Less(p[lo + n / 2], p[lo]) || !Less(p[lo + n - 1], p[lo])
    ensures !Less(p[lo], p[lo + n / 2]) || !Less(p[lo], p[lo + n - 1])
  {
    var m := n / 2;
    var c01 := Less(p[lo], p[lo + m]);
    var c12 := Less(p[lo + m], p[lo + n - 1]);
    if c01 != c12 {
      var c := Less(p[lo], p[lo + n - 1]);
      var z := if c == c12 then 0 else n - 1;
      Swap(p, lo + z, lo + m, lo, lo + n);
    }
    Swap(p, lo, lo + m, lo, lo + n);
  }

  /** The two scans of one round, from (i0, j0) to where they stop. Neither scan tests its
      bound; `sentinel` is an element that stops the upward one, the pivot the other. */
  method ScanInward(p: array<Edge>, lo: nat, n: nat, i0: nat, j0: nat, ghost sentinel: nat)
    returns (i: nat, j: nat)
    requires 0 < n && lo + n <= p.Length && 1 <= i0 <= j0 + 1 <= n
    requires lo + i0 <= sentinel < lo + n && !Less(p[sentinel], p[lo])
    requires Low(p[..], lo, i0) && High(p[..], lo, n, j0)
    ensures i0 <= i <= j + 1 <= j0 + 1
    ensures lo + i <= sentinel
    ensures Low(p[..], lo, i) && High(p[..], lo, n, j)
    ensures !Less(p[lo + i], p[lo]) && !Less(p[lo], p[lo + j])
  {
    i, j := i0, j0;
    while Less(p[lo + i], p[lo])
      invariant i0 <= i && lo + i <= sentinel
      invariant i <= j + 1
      invariant Low(p[..], lo, i)
      decreases sentinel - i
    {
      i := i + 1;
    }
    while Less(p[lo], p[lo + j])
      invariant i <= j + 1 <= j0 + 1
      invariant High(p[..], lo, n, j)
      decreases j
    {
      j := j - 1;
    }
  }

  /** Nothing in the first `i` places of the segment is above the pivot s[lo]. */
  ghost predicate Low(s: seq<Edge>, lo: nat, i: nat)
    requires lo < |s|
  {
    lo + i <= |s| && forall k :: lo <= k < lo + i ==> !Less(s[lo], s[k])
  }

  /** Nothing behind place `j` of the segment of length `n` is below the pivot s[lo]. */
  ghost predicate High(s: seq<Edge>, lo: nat, n: nat, j: nat)
    requires lo < |s|
  {
    lo + n <= |s| && forall k :: lo + j < k < lo + n ==> !Less(s[k], s[lo])
  }

  /** Partitions a segment around its first element; (i, j) is where the scans crossed. */
  method Partition(p: array<Edge>, lo: nat, n: nat, ghost sentinel: nat) returns (i: nat, j: nat)
    requires n > THRESHOLD && lo + n <= p.Length
    requires lo < sentinel < lo + n && !Less(p[sentinel], p[lo])
    modifies p
    ensures Rearranged(old(p[..]), p[..], lo, lo + n)
    ensures p[lo] == old(p[lo])
    ensures 1 <= i < n && j <= i <= j + 1
    ensures Low(p[..], lo, i) && High(p[..], lo, n, j)
    ensures i == j ==> !Less(p[lo + j], p[lo])
  {
    ghost var s, up := p[..], sentinel;
    i, j := 1, n - 1;
    while true
      invariant 1 <= i <= j + 1 <= n
      invariant Rearranged(s, p[..], lo, lo + n)
      invariant p[lo] == s[lo]
      invariant Low(p[..], lo, i) && High(p[..], lo, n, j)
      invariant lo + i <= up < lo + n && !Less(p[up], p[lo])
      decreases n - i
    {
      i, j := ScanInward(p, lo, n, i, j, up);
      if i >= j {
        break;
      }
      Swap(p, lo + i, lo + j, lo, lo + n);
      up := lo + j;
      i := i + 1;
      j := j - 1;
    }
  }

  // ---- what the quicksort leaves to the insertion sort ----

  /** The segment is split around `y`: nothing in its first i places is above `y`, nothing from
      there on is below. The parts to sort on are its first j places and those from i on, so
      that place j is left out when i is j + 1. */
  ghost predicate Splits(s: seq<Edge>, lo: nat, n: nat, i: nat, j: nat, y: Edge) {
    && 1 <= i <= n && j < n && j <= i <= j + 1 && lo + n <= |s|
    && (forall k :: lo <= k < lo + i ==> !Less(y, s[k]))
    && (forall k :: lo + i <= k < lo + n ==> !Less(s[k], y))
  }

  /** The segment is short, or split into two parts that are coarse again. */
  ghost predicate Coarse(s: seq<Edge>, lo: nat, n: nat)
    decreases n
  {
    lo + n <= |s| && (n <= THRESHOLD ||
      exists i: nat, j: nat, y :: Splits(s, lo, n, i, j, y) && Coarse(s, lo, j) && Coarse(s, lo + i, n - i))
  }

  /** Places a < b are in the wrong order. */
  ghost predicate Inverted(s: seq<Edge>, a: nat, b: nat) {
    a < b < |s| && Less(s[b], s[a])
  }

  /** Place b is left out between the parts of a split segment that contains a. */
  ghost predicate LeftOut(s: seq<Edge>, l: nat, m: nat, a: nat, b: nat) {
    exists i: nat, j: nat, y :: Splits(s, l, m, i, j, y) && i == j + 1 && b == l + j && l <= a < b
  }

  /** What can still be in the wrong order after the quicksort: two places of one short segment,
      or a place that was left out between two parts, whose edge is too low for it. */
  lemma {:induction false} WrongOrderIsLocal(s: seq<Edge>, lo: nat, n: nat, a: nat, b: nat)
    returns (l: nat, m: nat)
    requires Coarse(s, lo, n) && lo <= a && b < lo + n && Inverted(s, a, b)
    ensures lo <= l <= a < b < l + m <= lo + n
    ensures m <= THRESHOLD || LeftOut(s, l, m, a, b)
    decreases n
  {
    l, m := lo, n;
    if n > THRESHOLD {
      var i: nat, j: nat, y :| Splits(s, lo, n, i, j, y) && Coarse(s, lo, j) && Coarse(s, lo + i, n - i);
      if b < lo + j {
        l, m := WrongOrderIsLocal(s, lo, j, a, b);
      } else if lo + i <= a {
        l, m := WrongOrderIsLocal(s, lo + i, n - i, a, b);
      }
    }
  }

  /** Coarseness looks at its own segment only. */
  lemma {:induction false} CoarseDepends(s: seq<Edge>, t: seq<Edge>, lo: nat, n: nat)
    requires Coarse(s, lo, n) && |t| == |s| && forall k :: lo <= k < lo + n ==> t[k] == s[k]
    ensures Coarse(t, lo, n)
    decreases n
  {
    if n > THRESHOLD {
      var i: nat, j: nat, y :| Splits(s, lo, n, i, j, y) && Coarse(s, lo, j) && Coarse(s, lo + i, n - i);
      CoarseDepends(s, t, lo, j);
      CoarseDepends(s, t, lo + i, n - i);
      assert Splits(t, lo, n, i, j, y);
    }
  }

  lemma {:induction false} Parts(s: seq<Edge>, lo: nat, hi: nat)
    requires lo <= hi <= |s|
    ensures multiset(s) == multiset(s[..lo]) + multiset(s[lo..hi]) + multiset(s[hi..])
  {
    assert s == s[..lo] + s[lo..hi] + s[hi..];
  }

  lemma {:induction false} Cancel(a: multiset<Edge>, b: multiset<Edge>, b': multiset<Edge>, c: multiset<Edge>)
    requires a + b + c == a + b' + c
    ensures b == b'
  {
    forall e: Edge ensures b[e] == b'[e] {
      assert (a + b + c)[e] == (a + b' + c)[e];
    }
  }

  /** A rearrangement of a segment keeps what is in it. */
  lemma {:induction false} FromSegment(s: seq<Edge>, t: seq<Edge>, lo: nat, hi: nat, k: nat) returns (m: nat)
    requires Rearranged(s, t, lo, hi) && lo <= k < hi <= |s|
    ensures lo <= m < hi && s[m] == t[k]
  {
    Parts(s, lo, hi);
    Parts(t, lo, hi);
    assert s[..lo] == t[..lo] && s[hi..] == t[hi..];
    Cancel(multiset(s[..lo]), multiset(s[lo..hi]), multiset(t[lo..hi]), multiset(s[hi..]));
    assert t[lo..hi][k - lo] in multiset(t[lo..hi]);
    var i :| 0 <= i < hi - lo && s[lo..hi][i] == t[k];
    m := lo + i;
  }

  /** Rearranging one part keeps the split. */
  lemma {:induction false} SplitStays(s: seq<Edge>, t: seq<Edge>, lo: nat, n: nat, i: nat, j: nat, y: Edge, from: nat, to: nat)
    requires Splits(s, lo, n, i, j, y) && Rearranged(s, t, from, to)
    requires (from == lo && to == lo + j) || (from == lo + i && to == lo + n)
    ensures Splits(t, lo, n, i, j, y)
  {
    forall k | lo <= k < lo + n && from <= k < to
      ensures (k < lo + i ==> !Less(y, t[k])) && (k >= lo + i ==> !Less(t[k], y))
    {
      var m := FromSegment(s, t, from, to, k);
    }
  }

  /** The rest of the work, done on segment (lo, n), makes the whole segment coarse. */
  ghost predicate Finishes(s: seq<Edge>, lo: nat, n: nat, lo0: nat, n0: nat) {
    forall t :: Rearranged(s, t, lo, lo + n) && Coarse(t, lo, n) ==> Coarse(t, lo0, n0)
  }

  /** With a split of (lo, n) and one part done, the other part is the rest of the work. */
  lemma {:induction false} OtherPartFinishes(u: seq<Edge>, v: seq<Edge>, lo: nat, n: nat, i: nat, j: nat, y: Edge,
                                             lo0: nat, n0: nat, left: bool)
    requires Finishes(u, lo, n, lo0, n0) && Splits(u, lo, n, i, j, y) && n > THRESHOLD
    requires if left then Rearranged(u, v, lo, lo + j) && Coarse(v, lo, j)
             else Rearranged(u, v, lo + i, lo + n) && Coarse(v, lo + i, n - i)
    ensures if left then Finishes(v, lo + i, n - i, lo0, n0) else Finishes(v, lo, j, lo0, n0)
  {
    var from, len := if left then lo + i else lo, if left then n - i else j;
    forall t | Rearranged(v, t, from, from + len) && Coarse(t, from, len) ensures Coarse(t, lo0, n0) {
      SplitStays(u, v, lo, n, i, j, y, if left then lo else lo + i, if left then lo + j else lo + n);
      SplitStays(v, t, lo, n, i, j, y, from, from + len);
      if left {
        CoarseDepends(v, t, lo, j);
      } else {
        CoarseDepends(v, t, lo + i, n - i);
      }
      assert Coarse(t, lo, n);
      assert Rearranged(u, t, lo, lo + n);
    }
  }

  /** Between two rounds of the loop on segment (lo0, n0), which held `s` at first: what is
      left to do is segment (lo, n). */
  ghost predicate Midway(s: seq<Edge>, u: seq<Edge>, lo: nat, n: nat, lo0: nat, n0: nat) {
    && lo0 <= lo && lo + n <= lo0 + n0 <= |s|
    && Rearranged(s, u, lo0, lo0 + n0)
    && Finishes(u, lo, n, lo0, n0)
  }

  lemma {:induction false} MidwaySplit(s: seq<Edge>, t: seq<Edge>, u: seq<Edge>, lo: nat, n: nat, lo0: nat, n0: nat)
    requires Midway(s, t, lo, n, lo0, n0) && Rearranged(t, u, lo, lo + n)
    ensures Midway(s, u, lo, n, lo0, n0)
  {
    Extend(s, t, u, lo, lo + n, lo0, lo0 + n0);
    forall v | Rearranged(u, v, lo, lo + n) && Coarse(v, lo, n) ensures Coarse(v, lo0, n0) {
      assert Rearranged(t, v, lo, lo + n);
    }
  }

  lemma {:induction false} MidwayPart(s: seq<Edge>, u: seq<Edge>, v: seq<Edge>, lo: nat, n: nat, i: nat, j: nat, y: Edge,
                                      lo0: nat, n0: nat, left: bool)
    requires Midway(s, u, lo, n, lo0, n0) && Splits(u, lo, n, i, j, y) && n > THRESHOLD
    requires if left then Rearranged(u, v, lo, lo + j) && Coarse(v, lo, j)
             else Rearranged(u, v, lo + i, lo + n) && Coarse(v, lo + i, n - i)
    ensures if left then Midway(s, v, lo + i, n - i, lo0, n0) else Midway(s, v, lo, j, lo0, n0)
  {
    OtherPartFinishes(u, v, lo, n, i, j, y, lo0, n0, left);
    if left {
      Extend(s, u, v, lo, lo + j, lo0, lo0 + n0);
    } else {
      Extend(s, u, v, lo + i, lo + n, lo0, lo0 + n0);
    }
  }

  /** The pivot is moved to the front and the segment is split around it. */
  method Split(p: array<Edge>, lo: nat, n: nat) returns (i: nat, j: nat)
    requires n > THRESHOLD && lo + n <= p.Length
    modifies p
    ensures Rearranged(old(p[..]), p[..], lo, lo + n)
    ensures 1 <= i < n && j <= i <= j + 1 && j < n && Splits(p[..], lo, n, i, j, p[lo])
  {
    ghost var t := p[..];
    MedianToFront(p, lo, n);
    ghost var u := p[..];
    i, j := Partition(p, lo, n, if !Less(p[lo + n / 2], p[lo]) then lo + n / 2 else lo + n - 1);
    Extend(t, u, p[..], lo, lo + n, lo, lo + n);
  }

  /** The recursive sort: it stays inside its segment, terminates, and leaves it coarse. The
      segments of at most THRESHOLD edges are left to the insertion sort. */
  method Quicksort(p: array<Edge>, lo0: nat, n0: nat)
    requires lo0 + n0 <= p.Length
    modifies p
    ensures Rearranged(old(p[..]), p[..], lo0, lo0 + n0)
    ensures Coarse(p[..], lo0, n0)
    decreases n0
  {
    var lo: nat, n: nat := lo0, n0;
    ghost var s := p[..];
    while n > THRESHOLD
      invariant Midway(s, p[..], lo, n, lo0, n0)
      decreases n
    {
      ghost var t := p[..];
      var i, j := Split(p, lo, n);
      ghost var u, y := p[..], p[lo];
      MidwaySplit(s, t, u, lo, n, lo0, n0);
      if j < n - i {
        Quicksort(p, lo, j);
        MidwayPart(s, u, p[..], lo, n, i, j, y, lo0, n0, true);
        lo, n := lo + i, n - i;
      } else {
        Quicksort(p, lo + i, n - i);
        MidwayPart(s, u, p[..], lo, n, i, j, y, lo0, n0, false);
        n := j;
      }
    }
    assert Coarse(p[..], lo, n);
  }

  method InsertionSort(p: array<Edge>)
    modifies p
    ensures Sorted(p[..])
    ensures multiset(p[..]) == multiset(old(p[..]))
  {
    ghost var s := p[..];
    var i := 1;
    while i < p.Length
      invariant 1 <= i
      invariant i <= p.Length || p.Length == 0
      invariant p.Length > 0 ==> Sorted(p[..i])
      invariant multiset(p[..]) == multiset(s)
    {
      Insert(p, i);
      i := i + 1;
    }
    assert p.Length > 0 ==> p[..i] == p[..];
  }

  /** `u` is `s` with s[i] moved down to place `j` and the elements between shifted up. */
  ghost predicate MovedDown(s: seq<Edge>, u: seq<Edge>, i: nat, j: nat) {
    && j <= i < |s| == |u|
    && multiset(u) == multiset(s)
    && u[j] == s[i]
    && (forall k :: 0 <= k < j ==> u[k] == s[k])
    && (forall k :: j < k <= i ==> u[k] == s[k - 1])
  }

  lemma {:induction false} MoveDownOne(s: seq<Edge>, u: seq<Edge>, i: nat, j: nat)
    requires 0 < j && MovedDown(s, u, i, j)
    ensures MovedDown(s, u[j := u[j - 1]][j - 1 := u[j]], i, j - 1)
  {
  }

  lemma {:induction false} MovedDownSorted(s: seq<Edge>, u: seq<Edge>, i: nat, j: nat)
    requires MovedDown(s, u, i, j) && Sorted(s[..i])
    requires j > 0 ==> !Less(s[i], s[j - 1])
    requires j < i ==> Less(s[i], s[j])
    ensures Sorted(u[..i + 1])
  {
    var v := u[..i + 1];
    assert forall k :: 0 <= k < i ==> s[..i][k] == s[k];
    forall a, b | 0 <= a < b < |v| ensures !Less(v[b], v[a]) {
      if a == j {
        assert v[b] == s[b - 1] && !Less(s[b - 1], s[j]);
      } else if b == j {
        assert !Less(s[j - 1], s[a]);
      }
    }
  }

  /** Moves the gap one place down. */
  method ShiftUp(p: array<Edge>, j: nat, t: Edge, ghost s: seq<Edge>, ghost i: nat)
    requires 0 < j < p.Length && MovedDown(s, p[..][j := t], i, j)
    modifies p
    ensures MovedDown(s, p[..][j - 1 := t], i, j - 1)
  {
    ghost var u := p[..][j := t];
    MoveDownOne(s, u, i, j);
    p[j] := p[j - 1];
    assert p[..][j - 1 := t] == u[j := u[j - 1]][j - 1 := u[j]];
  }

  /** Shifts larger edges up until the gap is where `t` belongs. */
  method MakeRoom(p: array<Edge>, i: nat, t: Edge) returns (j: nat)
    requires i < p.Length && t == p[i]
    modifies p
    ensures j <= i && MovedDown(old(p[..]), p[..][j := t], i, j) && (j == i ==> p[i] == t)
    ensures j > 0 ==> !Less(t, old(p[..])[j - 1])
    ensures j < i ==> Less(t, old(p[..])[j])
  {
    ghost var s := p[..];
    j := i;
    assert p[..][j := t] == s;
    while j > 0
      invariant j <= i && MovedDown(s, p[..][j := t], i, j)
      invariant j == i ==> p[i] == t
      invariant j < i ==> Less(t, s[j])
    {
      assert p[j - 1] == p[..][j := t][j - 1] == s[j - 1];
      if !Less(t, p[j - 1]) {
        break;
      }
      ShiftUp(p, j, t, s, i);
      j := j - 1;
    }
  }

  /** Drops p[i] into its place among the edges before it. */
  method Insert(p: array<Edge>, i: nat)
    requires 0 < i < p.Length && Sorted(p[..i])
    modifies p
    ensures Sorted(p[..i + 1])
    ensures multiset(p[..]) == multiset(old(p[..]))
  {
    ghost var s := p[..];
    var t := p[i];
    assert s[..i] == p[..i];
    var j := MakeRoom(p, i, t);
    ghost var u := p[..][j := t];
    MovedDownSorted(s, u, i, j);
    if i != j {
      p[j] := t;
    }
    assert p[..] == u;
  }

  /** The whole sort: a sorted permutation of the input, whatever the input. */
  method SortEdges(p: array<Edge>)
    modifies p
    ensures Sorted(p[..])
    ensures multiset(p[..]) == multiset(old(p[..]))
  {
    Quicksort(p, 0, p.Length);
    InsertionSort(p);
  }
}
