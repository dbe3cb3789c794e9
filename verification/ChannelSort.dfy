/**
 * Sorting of the channels by dirtiness: the in-place quicksort. The pivot is kept in a C `int`
 * while dirtiness is a 64-bit unsigned word, so only some pivots keep their value.
 */
module ChannelSort {
  import opened Multisets

  const UINT32 := 0x1_0000_0000
  const INT_MAX := 0x7fff_ffff
  const ULONG_SIZE := 0x1_0000_0000_0000_0000

  type ULong = n: int | 0 <= n < ULONG_SIZE

  datatype Entry = Entry(ch: nat, dirtyness: ULong, falseCCA: nat)

  /** What a dirtiness compares as after a trip through `int`: low half kept, sign extended. */
  function Pivot(d: ULong): ULong {
    var low := d % UINT32;
    if low <= INT_MAX then low else ULONG_SIZE - UINT32 + low
  }

  predicate Exact(d: ULong) {
    d <= INT_MAX || d >= ULONG_SIZE - INT_MAX - 1
  }

  lemma PivotIsExactIff(d: ULong)
    ensures Pivot(d) == d <==> Exact(d)
  {
  }

  predicate Sorted(s: seq<Entry>) {
    forall i, j :: 0 <= i < j < |s| ==> s[i].dirtyness <= s[j].dirtyness
  }

  predicate AtMost(s: seq<Entry>, p: ULong) {
    forall e :: e in s ==> e.dirtyness <= p
  }

  predicate AtLeast(s: seq<Entry>, p: ULong) {
    forall e :: e in s ==> e.dirtyness >= p
  }

  predicate AllExact(s: seq<Entry>) {
    forall e :: e in s ==> Exact(e.dirtyness)
  }

  /** `b` is `a` with the entries from `lo` up to `hi` in another order. */
  ghost predicate Rearranged(a: seq<Entry>, b: seq<Entry>, lo: nat, hi: nat) {
    && lo <= hi <= |a| == |b|
    && (forall k :: 0 <= k < |a| && !(lo <= k < hi) ==> a[k] == b[k])
    && multiset(a) == multiset(b)
  }

  lemma SegmentPermuted(a: seq<Entry>, b: seq<Entry>, lo: nat, hi: nat)
    requires Rearranged(a, b, lo, hi)
    ensures a[..lo] == b[..lo] && a[hi..] == b[hi..]
    ensures multiset(a[lo..hi]) == multiset(b[lo..hi])
  {
    ThreeParts(a, lo, hi);
    ThreeParts(b, lo, hi);
    assert a[..lo] == b[..lo] && a[hi..] == b[hi..];
    Cancel(multiset(a[..lo]), multiset(a[lo..hi]), multiset(b[lo..hi]), multiset(a[hi..]));
  }

  lemma ThreeParts(s: seq<Entry>, lo: nat, hi: nat)
    requires lo <= hi <= |s|
    ensures multiset(s) == multiset(s[..lo]) + multiset(s[lo..hi]) + multiset(s[hi..])
  {
    assert s == s[..lo] + s[lo..hi] + s[hi..];
  }

  lemma Cancel(m: multiset<Entry>, x: multiset<Entry>, y: multiset<Entry>, n: multiset<Entry>)
    requires m + x + n == m + y + n
    ensures x == y
  {
    forall e ensures x[e] == y[e] {
      assert (m + x + n)[e] == (m + y + n)[e];
    }
  }

  lemma Unmoved(s: seq<Entry>, lo: nat, hi: nat)
    requires lo <= hi <= |s|
    ensures Rearranged(s, s, lo, hi)
  {
  }

  lemma Then(a: seq<Entry>, b: seq<Entry>, c: seq<Entry>, lo: nat, hi: nat)
    requires Rearranged(a, b, lo, hi) && Rearranged(b, c, lo, hi)
    ensures Rearranged(a, c, lo, hi)
  {
  }

  /** The two entries at `i` and `j` exchanged. */
  function Exchanged(s: seq<Entry>, i: nat, j: nat): seq<Entry>
    requires i < |s| && j < |s|
  {
    s[i := s[j]][j := s[i]]
  }

  lemma SwapRearranges(s: seq<Entry>, i: nat, j: nat, lo: nat, hi: nat)
    requires lo <= i < hi <= |s| && lo <= j < hi
    ensures Rearranged(s, Exchanged(s, i, j), lo, hi)
  {
  }

  predicate Split(s: seq<Entry>, lo: nat, mid: nat, hi: nat, p: ULong) {
    && lo <= mid <= hi <= |s|
    && (forall k :: lo <= k < mid ==> s[k].dirtyness <= p)
    && (forall k :: mid <= k < hi ==> s[k].dirtyness >= p)
  }

  /** What two recursive calls on the halves around a pivot amount to. */
  lemma Join(s0: seq<Entry>, s1: seq<Entry>, s2: seq<Entry>, beg: nat, mid: nat, hi: nat, p: ULong)
    requires beg <= mid <= hi
    requires Rearranged(s0, s1, beg, mid) && Rearranged(s1, s2, mid, hi)
    ensures Rearranged(s0, s2, beg, hi)
    ensures (Split(s0, beg, mid, hi, p) && Sorted(s1[beg..mid]) && Sorted(s2[mid..hi])) ==>
              Sorted(s2[beg..hi])
  {
    assert s2[beg..mid] == s1[beg..mid];
    assert s1[mid..hi] == s0[mid..hi];
    SegmentPermuted(s0, s1, beg, mid);
    SegmentPermuted(s1, s2, mid, hi);
    SameMembers(s0[beg..mid], s1[beg..mid]);
    SameMembers(s1[mid..hi], s2[mid..hi]);
    if Split(s0, beg, mid, hi, p) && Sorted(s1[beg..mid]) && Sorted(s2[mid..hi]) {
      Concat(s2[beg..mid], s2[mid..hi], p);
      assert s2[beg..hi] == s2[beg..mid] + s2[mid..hi];
    }
  }

  lemma Concat(s: seq<Entry>, t: seq<Entry>, p: ULong)
    requires AtMost(s, p) && AtLeast(t, p) && Sorted(s) && Sorted(t)
    ensures Sorted(s + t)
  {
    forall i, j | 0 <= i < j < |s + t| ensures (s + t)[i].dirtyness <= (s + t)[j].dirtyness {
      if i < |s| <= j {
        assert s[i] in s && t[j - |s|] in t;
      }
    }
  }

  method Swap(list: array<Entry>, idx1: nat, idx2: nat)
    requires idx1 < list.Length && idx2 < list.Length
    modifies list
    ensures list[..] == Exchanged(old(list[..]), idx1, idx2)
  {
    var tmp := list[idx1];
    list[idx1] := list[idx2];
    list[idx2] := tmp;
  }

  /** One turn that exchanges; what it does to the order and to the two scanned ends. */
  lemma Exchange(start: seq<Entry>, s: seq<Entry>, t: seq<Entry>, beg: nat, l: nat, r: nat, end: nat)
    requires beg < l <= r <= end < |s| && Rearranged(start, s, beg, end + 1)
    requires t == Exchanged(s, l, r)
    ensures Rearranged(start, t, beg, end + 1)
    ensures t[l] == s[r] && t[r] == s[l] && forall k :: 0 <= k < |s| && k != l && k != r ==> t[k] == s[k]
  {
    SwapRearranges(s, l, r, beg, end + 1);
    Then(start, s, t, beg, end + 1);
  }

  /** Entries behind `l` are at most, entries past `r` at least, the pivot. */
  predicate Scanned(s: seq<Entry>, beg: nat, l: nat, r: nat, end: nat, p: ULong)
    requires l <= r + 1 && end < |s|
  {
    && (forall k :: beg < k < l && k < |s| ==> s[k].dirtyness <= p)
    && (forall k :: r < k <= end ==> s[k].dirtyness >= p)
  }

  /** The loop of one call. */
  method Scan(list: array<Entry>, beg: nat, end: nat) returns (l: nat)
    requires beg < end < list.Length
    modifies list
    ensures Rearranged(old(list[..]), list[..], beg, end + 1) && list[beg] == old(list[beg])
    ensures beg < l <= end
    ensures Scanned(list[..], beg, l, l, end, Pivot(list[beg].dirtyness))
    ensures end == beg + 1 ==> list[..] == old(list[..])
  {
    hide Rearranged, Pivot, Exchanged;
    ghost var start := list[..];
    Unmoved(start, beg, end + 1);
    l := beg + 1;
    var r, p := end, Pivot(list[beg].dirtyness);
    while l < r
      invariant beg < l <= r <= end && list[beg] == start[beg]
      invariant Rearranged(start, list[..], beg, end + 1)
      invariant Scanned(list[..], beg, l, r, end, p)
      invariant end == beg + 1 ==> list[..] == start
      decreases r - l, if list[l].dirtyness > p > list[r].dirtyness then 1 else 0
    {
      if list[l].dirtyness <= p {
        l := l + 1;
      } else if list[r].dirtyness >= p {
        r := r - 1;
      } else {
        ghost var before := list[..];
        Swap(list, l, r);
        Exchange(start, before, list[..], beg, l, r, end);
      }
    }
  }

  predicate ExactIn(s: seq<Entry>, lo: nat, hi: nat) {
    lo <= hi <= |s| && AllExact(s[lo..hi])
  }

  predicate SortedIn(s: seq<Entry>, lo: nat, hi: nat) {
    lo <= hi <= |s| && Sorted(s[lo..hi])
  }

  /** A segment of two entries: exchanged exactly when the second is below the first's pivot. */
  predicate PairOrdered(s: seq<Entry>, t: seq<Entry>, i: nat)
    requires i + 1 < |s| && i + 1 < |t|
  {
    var (x, y) := (s[i], s[i + 1]);
    if y.dirtyness < Pivot(x.dirtyness) then t[i] == y && t[i + 1] == x else t[i] == x && t[i + 1] == y
  }

  /** Exchanging the pivot at `beg` with the entry at `m`, the last not above it. */
  lemma PivotPlaced(s: seq<Entry>, beg: nat, m: nat, end: nat, p: ULong)
    requires beg <= m <= end < |s|
    requires s[beg].dirtyness == p && Scanned(s, beg, m + 1, m, end, p)
    ensures Split(Exchanged(s, m, beg), beg, m, end + 1, p)
    ensures Split(Exchanged(s, m, beg), beg, m + 1, end + 1, p)
  {
    var t := Exchanged(s, m, beg);
    assert forall k :: beg <= k <= m ==> t[k].dirtyness <= p;
    assert forall k :: m <= k <= end ==> t[k].dirtyness >= p;
  }

  lemma PlacedRearranges(start: seq<Entry>, s: seq<Entry>, beg: nat, m: nat, end: nat)
    requires beg <= m <= end < |s| && Rearranged(start, s, beg, end + 1)
    ensures Rearranged(start, Exchanged(s, m, beg), beg, end + 1)
  {
    SwapRearranges(s, m, beg, beg, end + 1);
    Then(start, s, Exchanged(s, m, beg), beg, end + 1);
  }

  /** What partitioning the entries from `beg` up to `hi` promises, with the right part from `mid`. */
  ghost predicate PartResult(before: seq<Entry>, after: seq<Entry>, beg: nat, mid: nat, hi: nat) {
    && beg < mid < hi && Rearranged(before, after, beg, hi)
    && (Exact(before[beg].dirtyness) ==> Split(after, beg, mid, hi, before[beg].dirtyness))
    && (hi == beg + 2 ==> PairOrdered(before, after, beg))
  }

  /** What sorting them promises. */
  ghost predicate SortResult(before: seq<Entry>, after: seq<Entry>, beg: nat, hi: nat) {
    && Rearranged(before, after, beg, hi)
    && (ExactIn(before, beg, hi) ==> SortedIn(after, beg, hi))
    && (hi == beg + 2 ==> PairOrdered(before, after, beg))
  }

  /** Where the pivot goes: to `m`, the last entry of the left part but for ties. */
  lemma Placed(start: seq<Entry>, s: seq<Entry>, beg: nat, l: nat, m: nat, end: nat)
    requires beg < l <= end < |s| && Rearranged(start, s, beg, end + 1) && s[beg] == start[beg]
    requires Scanned(s, beg, l, l, end, Pivot(s[beg].dirtyness)) && (end == beg + 1 ==> s == start)
    requires m == if s[l].dirtyness < Pivot(s[beg].dirtyness) then l else l - 1
    ensures PartResult(start, Exchanged(s, m, beg), beg, l, end + 1)
  {
    PlacedRearranges(start, s, beg, m, end);
    if Exact(s[beg].dirtyness) {
      PivotIsExactIff(s[beg].dirtyness);
      PlacedSplits(s, beg, l, m, end, s[beg].dirtyness);
    }
  }

  lemma PlacedSplits(s: seq<Entry>, beg: nat, l: nat, m: nat, end: nat, p: ULong)
    requires beg < l <= end < |s| && s[beg].dirtyness == p && Scanned(s, beg, l, l, end, p)
    requires m == if s[l].dirtyness < p then l else l - 1
    ensures Split(Exchanged(s, m, beg), beg, l, end + 1, p)
  {
    PivotPlaced(s, beg, m, end, p);
  }

  /** Puts the pivot between the two parts; `l` ends the left one. */
  method Partition(list: array<Entry>, beg: nat, end: nat) returns (l: nat)
    requires beg < end < list.Length
    modifies list
    ensures beg <= l < end && PartResult(old(list[..]), list[..], beg, l + 1, end + 1)
  {
    hide *;
    ghost var before := list[..];
    l := Scan(list, beg, end);
    ghost var s := list[..];
    ghost var m := if list[l].dirtyness < Pivot(list[beg].dirtyness) then l else l - 1;
    Placed(before, s, beg, l, m, end);
    if list[l].dirtyness < Pivot(list[beg].dirtyness) {
      Swap(list, l, beg);
      l := l - 1;
    } else {
      l := l - 1;
      Swap(list, l, beg);
    }
  }

  /** The quicksort on the entries from `beg` to `end`. */
  method Sort(list: array<Entry>, beg: nat, end: nat)
    requires beg <= end < list.Length
    modifies list
    ensures SortResult(old(list[..]), list[..], beg, end + 1)
    decreases end - beg
  {
    hide *;
    ghost var start := list[..];
    if beg < end {
      var l := Partition(list, beg, end);
      ghost var parted := list[..];
      Sort(list, beg, l);
      ghost var left := list[..];
      Sort(list, l + 1, end);
      Combine(start, parted, left, list[..], beg, l + 1, end + 1);
    } else {
      Single(start, beg);
    }
  }

  lemma Single(s: seq<Entry>, k: nat)
    requires k < |s|
    ensures SortResult(s, s, k, k + 1)
  {
  }

  lemma Trivial(s: seq<Entry>, t: seq<Entry>, k: nat)
    requires Rearranged(s, t, k, k + 1)
    ensures s == t
  {
    SegmentPermuted(s, t, k, k + 1);
    assert s[k..k + 1] == [s[k]] && t[k..k + 1] == [t[k]];
    SameMembers([s[k]], [t[k]]);
    assert t[k] in [t[k]];
  }

  /** A partition and the two recursive calls together. */
  lemma Combine(start: seq<Entry>, parted: seq<Entry>, left: seq<Entry>, done: seq<Entry>, beg: nat, mid: nat, hi: nat)
    requires PartResult(start, parted, beg, mid, hi)
    requires SortResult(parted, left, beg, mid) && SortResult(left, done, mid, hi)
    ensures SortResult(start, done, beg, hi)
  {
    Join(parted, left, done, beg, mid, hi, start[beg].dirtyness);
    Then(start, parted, done, beg, hi);
    if ExactIn(start, beg, hi) { Halves(start, parted, left, beg, mid, hi); }
    if hi == beg + 2 {
      Trivial(parted, left, beg);
      Trivial(left, done, mid);
    }
  }

  /** Exactness of all entries carries over to both halves. */
  lemma Halves(start: seq<Entry>, parted: seq<Entry>, left: seq<Entry>, beg: nat, mid: nat, hi: nat)
    requires beg < mid <= hi && Rearranged(start, parted, beg, hi) && Rearranged(parted, left, beg, mid)
    requires ExactIn(start, beg, hi)
    ensures Exact(start[beg].dirtyness) && ExactIn(parted, beg, mid) && ExactIn(left, mid, hi)
  {
    SegmentPermuted(start, parted, beg, hi);
    SameMembers(start[beg..hi], parted[beg..hi]);
    assert parted[beg..hi] == parted[beg..mid] + parted[mid..hi];
    assert left[mid..hi] == parted[mid..hi];
    assert start[beg] == start[beg..hi][0];
  }

  lemma PairSorted(a: Entry, b: Entry, t: seq<Entry>)
    requires Exact(a.dirtyness) && SortResult([a, b], t, 0, 2)
    ensures Sorted(t)
  {
    PivotIsExactIff(a.dirtyness);
    var p := Pivot(a.dirtyness);
    assert p == a.dirtyness;
    hide Pivot, Exact, ExactIn, SortedIn;
    assert PairOrdered([a, b], t, 0);
  }

  lemma PairUnsorted(a: Entry) returns (b: Entry, t: seq<Entry>)
    requires !Exact(a.dirtyness)
    ensures SortResult([a, b], t, 0, 2) && !Sorted(t)
  {
    var p := Pivot(a.dirtyness);
    PivotIsFar(a.dirtyness);
    hide Pivot, Exact;
    b := Entry(0, if p > a.dirtyness then a.dirtyness + 1 else p, 0);
    t := if b.dirtyness < p then [b, a] else [a, b];
    assert [a, b][0..2] == [a, b] && a in [a, b];
    assert t[0].dirtyness > t[1].dirtyness;
  }

  /** Sorting the two entries [a, b] puts every b right exactly when a's dirtiness survives `int`. */
  lemma PairSortedIff(a: Entry)
    ensures (forall b, t :: SortResult([a, b], t, 0, 2) ==> Sorted(t)) <==> Exact(a.dirtyness)
  {
    if Exact(a.dirtyness) {
      forall b, t | SortResult([a, b], t, 0, 2) ensures Sorted(t) {
        PairSorted(a, b, t);
      }
    } else {
      var b, t := PairUnsorted(a);
    }
  }

  lemma PivotIsFar(d: ULong)
    requires !Exact(d)
    ensures Pivot(d) > d + 1 || Pivot(d) < d
  {
  }
}
