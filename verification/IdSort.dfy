/**
mdb_midl_sort: quicksort with an explicit stack, and insertion sort for short segments, in place,
largest first.  The scans carry no bounds checks: they rely on entries left as sentinels by the
median of three and by earlier partitions.
*/
module IdSort {
  import opened IdList

  const MAX_SORT: nat := 0x4000_0003

  const SMALL: nat := 8
  /** Number of slots of istack: sizeof(int) * CHAR_BIT * 2. */
  const STACK: nat := 64
  const INT_MAX: nat := 0x7FFF_FFFF

  /** b is a with the entries at l..r rearranged. */
  ghost predicate Rearranged(a: seq<Id>, b: seq<Id>, l: nat, r: nat) {
    && |a| == |b| && l <= r + 1 <= |a|
    && a[..l] == b[..l] && a[r + 1..] == b[r + 1..]
    && multiset(a[l..r + 1]) == multiset(b[l..r + 1])
  }

  lemma RearrangedTrans(a: seq<Id>, b: seq<Id>, c: seq<Id>, l: nat, r: nat)
    requires Rearranged(a, b, l, r) && Rearranged(b, c, l, r)
    ensures Rearranged(a, c, l, r)
  {
  }

  /** Rearranging a part of a segment rearranges the segment. */
  lemma RearrangedWider(a: seq<Id>, b: seq<Id>, l: nat, r: nat, l': nat, r': nat)
    requires Rearranged(a, b, l, r) && l' <= l && r <= r' < |a|
    ensures Rearranged(a, b, l', r')
  {
    assert a[..l'] == a[..l][..l'] == b[..l][..l'] == b[..l'];
    assert a[r' + 1..] == a[r + 1..][r' - r..] == b[r + 1..][r' - r..] == b[r' + 1..];
    assert a[l'..l] == a[..l][l'..] == b[..l][l'..] == b[l'..l];
    assert a[r + 1..r' + 1] == a[r + 1..][..r' - r] == b[r + 1..][..r' - r] == b[r + 1..r' + 1];
    assert a[l'..r' + 1] == a[l'..l] + a[l..r + 1] + a[r + 1..r' + 1];
    assert b[l'..r' + 1] == b[l'..l] + b[l..r + 1] + b[r + 1..r' + 1];
  }

  /** Every entry of a rearranged segment was there before. */
  lemma RearrangedFrom(a: seq<Id>, b: seq<Id>, l: nat, r: nat, q: nat)
    requires Rearranged(a, b, l, r) && q < |b|
    ensures l <= q <= r ==> exists p :: l <= p <= r && a[p] == b[q]
    ensures !(l <= q <= r) ==> a[q] == b[q]
  {
    if l <= q <= r {
      assert b[q] == b[l..r + 1][q - l];
      assert b[q] in multiset(b[l..r + 1]);
      assert b[q] in a[l..r + 1];
      var t :| 0 <= t < |a[l..r + 1]| && a[l..r + 1][t] == b[q];
      assert a[l + t] == b[q];
    } else if q < l {
      assert a[q] == a[..l][q];
    } else {
      assert a[q] == a[r + 1..][q - r - 1];
    }
  }

  function Swapped(a: seq<Id>, p: nat, q: nat): seq<Id>
    requires p < |a| && q < |a|
  {
    a[p := a[q]][q := a[p]]
  }

  lemma SwapRearranges(a: seq<Id>, p: nat, q: nat, l: nat, r: nat)
    requires l <= p <= r < |a| && l <= q <= r
    ensures Rearranged(a, Swapped(a, p, q), l, r)
  {
    var b := Swapped(a, p, q);
    var s := a[l..r + 1];
    assert b[l..r + 1] == s[p - l := s[q - l]][q - l := s[p - l]];
  }

  // ---------------------------------------------------------------- insertion sort

  ghost predicate SortedSeg(a: seq<Id>, l: nat, r: nat) {
    r < |a| && forall p, q :: l <= p < q <= r ==> a[p] >= a[q]
  }

  /** No entry of l..r is larger than the entry just before the segment, if there is one. */
  ghost predicate Guarded(a: seq<Id>, l: nat, r: nat) {
    0 < l && r < |a| && (1 < l ==> forall q :: l <= q <= r ==> a[l - 1] >= a[q])
  }

  /** c is b with the entries i+1..j-1 moved up one place. */
  ghost predicate Shifted(b: seq<Id>, c: seq<Id>, i: nat, j: nat) {
    && |c| == |b| && i < j < |b|
    && (forall p :: 0 <= p < |b| && !(i + 2 <= p <= j) ==> c[p] == b[p])
    && (forall p :: i + 2 <= p <= j ==> c[p] == b[p - 1])
  }

  /** b with its entry j moved down to i+1. */
  function Inserted(b: seq<Id>, i: nat, j: nat): seq<Id>
    requires i < j < |b|
  {
    b[..i + 1] + [b[j]] + b[i + 1..j] + b[j + 1..]
  }

  lemma InsertRearranges(b: seq<Id>, i: nat, j: nat, l: nat)
    requires i < j < |b| && l <= i + 1
    ensures Rearranged(b, Inserted(b, i, j), l, j)
  {
    var c := Inserted(b, i, j);
    assert c[..l] == b[..l] && c[j + 1..] == b[j + 1..];
    assert b[l..j + 1] == b[l..i + 1] + b[i + 1..j] + [b[j]];
    assert c[l..j + 1] == b[l..i + 1] + [b[j]] + b[i + 1..j];
  }

  lemma InsertSorts(b: seq<Id>, i: nat, j: nat, l: nat)
    requires i < j < |b| && l <= i + 1 && SortedSeg(b, l, j - 1)
    requires (l <= i ==> b[i] >= b[j]) && forall p :: i < p < j ==> b[p] < b[j]
    ensures SortedSeg(Inserted(b, i, j), l, j)
  {
    var c := Inserted(b, i, j);
    assert forall p :: 0 <= p <= i ==> c[p] == b[p];
    assert c[i + 1] == b[j];
    assert forall p :: i + 2 <= p <= j ==> c[p] == b[p - 1];
  }

  lemma ShiftStep(b: seq<Id>, c: seq<Id>, i: nat, j: nat)
    requires Shifted(b, c, i, j)
    ensures c[i] == b[i] && (0 < i ==> Shifted(b, c[i + 1 := c[i]], i - 1, j))
    ensures c[i + 1 := b[j]] == Inserted(b, i, j)
  {
  }

  /** The shifting scan of the insertion sort: it has no lower bound but index 1 and the guard. */
  method ShiftUp(ids: array<Id>, l: nat, j: nat) returns (i: nat)
    requires l < j < ids.Length && Guarded(ids[..], l, j)
    modifies ids
    ensures l - 1 <= i < j && Shifted(old(ids[..]), ids[..], i, j)
    ensures l <= i ==> old(ids[i]) >= old(ids[j])
    ensures forall p :: i < p < j ==> old(ids[p]) < old(ids[j])
  {
    ghost var b := ids[..];
    var a := ids[j];
    i := j - 1;
    while i >= 1 && ids[i] < a
      invariant l - 1 <= i < j && Shifted(b, ids[..], i, j)
      invariant forall p :: i < p < j ==> b[p] < a
    {
      ghost var c := ids[..];
      ShiftStep(b, c, i, j);
      ids[i + 1] := ids[i];
      assert ids[..] == c[i + 1 := c[i]];
      i := i - 1;
    }
    ShiftStep(b, ids[..], i, j);
  }

  /** Moves entry j down to its place among the sorted entries l..j-1. */
  method Insert(ids: array<Id>, l: nat, j: nat)
    requires l < j < ids.Length && Guarded(ids[..], l, j) && SortedSeg(ids[..], l, j - 1)
    modifies ids
    ensures Rearranged(old(ids[..]), ids[..], l, j) && SortedSeg(ids[..], l, j)
  {
    ghost var b := ids[..];
    var a := ids[j];
    var i := ShiftUp(ids, l, j);
    ghost var c := ids[..];
    ids[i + 1] := a;
    assert ids[..] == c[i + 1 := a];
    ShiftStep(b, c, i, j);
    InsertRearranges(b, i, j, l);
    InsertSorts(b, i, j, l);
  }

  lemma GuardKept(a: seq<Id>, b: seq<Id>, l: nat, r: nat)
    requires Guarded(a, l, r) && Rearranged(a, b, l, r)
    ensures Guarded(b, l, r)
  {
    forall q | l <= q <= r && 1 < l ensures b[l - 1] >= b[q] {
      RearrangedFrom(a, b, l, r, q);
      RearrangedFrom(a, b, l, r, l - 1);
    }
  }

  method InsertionSort(ids: array<Id>, l: nat, ir: nat)
    requires l <= ir + 1 && Guarded(ids[..], l, ir)
    modifies ids
    ensures Rearranged(old(ids[..]), ids[..], l, ir) && SortedSeg(ids[..], l, ir)
  {
    ghost var b := ids[..];
    var j := l + 1;
    while j <= ir
      invariant l < j <= ir + 1 || ir < l < j
      invariant Rearranged(b, ids[..], l, ir) && Guarded(ids[..], l, ir)
      invariant l <= ir ==> SortedSeg(ids[..], l, j - 1)
    {
      ghost var c := ids[..];
      Insert(ids, l, j);
      RearrangedWider(c, ids[..], l, j, l, ir);
      RearrangedTrans(b, c, ids[..], l, ir);
      GuardKept(c, ids[..], l, ir);
      j := j + 1;
    }
  }

  // ---------------------------------------------------------------- partition

  method Swap(ids: array<Id>, p: nat, q: nat, ghost l: nat, ghost r: nat)
    requires l <= p <= r < ids.Length && l <= q <= r
    modifies ids
    ensures ids[..] == Swapped(old(ids[..]), p, q)
    ensures Rearranged(old(ids[..]), ids[..], l, r)
  {
    SwapRearranges(ids[..], p, q, l, r);
    ids[p], ids[q] := ids[q], ids[p];
  }

  function Median(x: Id, y: Id, z: Id): Id {
    if x <= y <= z || z <= y <= x then y else if y <= x <= z || z <= x <= y then x else z
  }

  /** The median of the first, middle and last entry. */
  function Pivot(a: seq<Id>, l: nat, ir: nat): Id
    requires l <= ir < |a|
  {
    Median(a[l], a[(l + ir) / 2], a[ir])
  }

  /** Swaps two entries that are in the wrong order. */
  method OrderTwo(ids: array<Id>, p: nat, q: nat, ghost l: nat, ghost r: nat)
    requires l <= p < q <= r < ids.Length
    modifies ids
    ensures Rearranged(old(ids[..]), ids[..], l, r)
    ensures if old(ids[p]) < old(ids[q]) then ids[p] == old(ids[q]) && ids[q] == old(ids[p])
            else ids[p] == old(ids[p]) && ids[q] == old(ids[q])
    ensures forall k :: 0 <= k < ids.Length && k != p && k != q ==> ids[k] == old(ids[k])
  {
    if ids[p] < ids[q] { Swap(ids, p, q, l, r); }
  }

  /** Sorts the entries at l, l+1 and ir. */
  method OrderThree(ids: array<Id>, l: nat, ir: nat)
    requires l + 1 < ir < ids.Length
    modifies ids
    ensures Rearranged(old(ids[..]), ids[..], l, ir)
    ensures ids[l] >= ids[l + 1] >= ids[ir] && ids[l + 1] == Median(old(ids[l]), old(ids[l + 1]), old(ids[ir]))
  {
    ghost var a := ids[..];
    OrderTwo(ids, l, ir, l, ir);
    ghost var c := ids[..];
    OrderTwo(ids, l + 1, ir, l, ir);
    ghost var d := ids[..];
    RearrangedTrans(a, c, d, l, ir);
    OrderTwo(ids, l, l + 1, l, ir);
    RearrangedTrans(a, d, ids[..], l, ir);
  }

  /** Brings the median of the first, middle and last entry to l+1, between sentinels at both ends. */
  method MedianOfThree(ids: array<Id>, l: nat, ir: nat)
    requires l + SMALL <= ir < ids.Length && l + ir <= INT_MAX
    modifies ids
    ensures Rearranged(old(ids[..]), ids[..], l, ir)
    ensures ids[l] >= ids[l + 1] >= ids[ir] && ids[l + 1] == old(Pivot(ids[..], l, ir))
  {
    ghost var a := ids[..];
    var k := (l + ir) / 2;
    Swap(ids, k, l + 1, l, ir);
    ghost var b := ids[..];
    OrderThree(ids, l, ir);
    RearrangedTrans(a, b, ids[..], l, ir);
  }

  /** Scans right for an entry not above v; the entry at `stop` is one. */
  method ScanRight(ids: array<Id>, from: nat, v: Id, ghost stop: nat) returns (i: nat)
    requires from < stop < ids.Length && ids[stop] <= v
    ensures from < i <= stop && ids[i] <= v
    ensures forall p :: from < p < i ==> ids[p] > v
  {
    i := from + 1;
    while ids[i] > v
      invariant from < i <= stop
      invariant forall p :: from < p < i ==> ids[p] > v
      decreases stop - i
    {
      i := i + 1;
    }
  }

  /** Scans left for an entry not below v; the entry at `stop` is one. */
  method ScanLeft(ids: array<Id>, from: nat, v: Id, ghost stop: nat) returns (j: nat)
    requires stop < from <= ids.Length && ids[stop] >= v
    ensures stop <= j < from && ids[j] >= v
    ensures forall p :: j < p < from ==> ids[p] < v
  {
    j := from - 1;
    while ids[j] < v
      invariant stop <= j < from
      invariant forall p :: j < p < from ==> ids[p] < v
      decreases j
    {
      j := j - 1;
    }
  }

  /** Everything up to i is at least v, everything from j on at most v, and each scan still has a
      sentinel in front of it. */
  ghost predicate Closing(a: seq<Id>, l: nat, i: nat, j: nat, ir: nat, v: Id) {
    && l + 1 <= i <= j <= ir < |a| && a[l + 1] == v && (i == j ==> l + 1 < i && j < ir)
    && (forall p :: l <= p <= i ==> a[p] >= v)
    && (forall p :: j <= p <= ir ==> a[p] <= v)
  }

  /** The entries l..j-1 are at least v, those from j to i-1 equal v, those from i on at most v. */
  ghost predicate Parted(a: seq<Id>, l: nat, j: nat, i: nat, ir: nat, v: Id) {
    && l < j < i <= ir < |a|
    && (forall p :: l <= p < j ==> a[p] >= v)
    && (forall p :: j <= p < i ==> a[p] == v)
    && (forall p :: i <= p <= ir ==> a[p] <= v)
  }

  lemma CloseIn(a: seq<Id>, l: nat, i: nat, j: nat, ir: nat, v: Id, i': nat, j': nat)
    requires Closing(a, l, i, j, ir, v) && i < i' <= ir && l < j' < j && i' <= j'
    requires a[i'] <= v <= a[j']
    requires forall p :: i < p < i' ==> a[p] > v
    requires forall p :: j' < p < j ==> a[p] < v
    ensures Closing(Swapped(a, i', j'), l, i', j', ir, v)
  {
  }

  lemma PartDone(a: seq<Id>, l: nat, i: nat, j: nat, ir: nat, v: Id, i': nat, j': nat)
    requires Closing(a, l, i, j, ir, v) && i < i' <= ir && l < j' < j && j' < i'
    requires a[i'] <= v <= a[j']
    requires forall p :: i < p < i' ==> a[p] > v
    requires forall p :: j' < p < j ==> a[p] < v
    ensures Parted(Swapped(a, l + 1, j'), l, j', i', ir, v)
  {
  }

  /** The two scans and the swaps between them, until they have passed each other. */
  method Close(ids: array<Id>, l: nat, ir: nat, a: Id) returns (i: nat, j: nat)
    requires Closing(ids[..], l, l + 1, ir, ir, a)
    modifies ids
    ensures Rearranged(old(ids[..]), ids[..], l, ir) && l < j < i <= ir
    ensures Parted(Swapped(ids[..], l + 1, j), l, j, i, ir, a)
  {
    ghost var b := ids[..];
    i, j := l + 1, ir;
    while true
      invariant Closing(ids[..], l, i, j, ir, a) && Rearranged(b, ids[..], l, ir)
      decreases j - i
    {
      ghost var c, i0, j0 := ids[..], i, j;
      assert forall p :: 0 <= p < |c| ==> c[p] == ids[p];
      i := ScanRight(ids, i, a, if i < j then j else j + 1);
      j := ScanLeft(ids, j, a, if i0 < j then i0 else i0 - 1);
      if j < i {
        PartDone(c, l, i0, j0, ir, a, i, j);
        break;
      }
      CloseIn(c, l, i0, j0, ir, a, i, j);
      Swap(ids, i, j, l, ir);
      RearrangedTrans(b, c, ids[..], l, ir);
    }
  }

  /** One partitioning pass around the median. */
  method Partition(ids: array<Id>, l: nat, ir: nat) returns (i: nat, j: nat, ghost v: Id)
    requires l + SMALL <= ir < ids.Length && l + ir <= INT_MAX
    modifies ids
    ensures Rearranged(old(ids[..]), ids[..], l, ir)
    ensures v == old(Pivot(ids[..], l, ir)) && Parted(ids[..], l, j, i, ir, v)
  {
    ghost var b := ids[..];
    MedianOfThree(ids, l, ir);
    ghost var c := ids[..];
    var a := ids[l + 1];
    v := a;
    i, j := Close(ids, l, ir, a);
    ghost var d := ids[..];
    RearrangedTrans(b, c, d, l, ir);
    Swap(ids, l + 1, j, l, ir);
    RearrangedTrans(b, d, ids[..], l, ir);
  }

  // ---------------------------------------------------------------- the whole sort

  /** A pending segment l..r, possibly empty. */
  datatype Seg = Seg(l: nat, r: nat) {
    ghost predicate Ok(n: nat) { 1 <= l <= r + 1 && r <= n }
    function Size(): nat { if l <= r + 1 then r + 1 - l else 0 }
  }

  ghost predicate Together(segs: seq<Seg>, p: nat, q: nat) {
    exists t :: 0 <= t < |segs| && segs[t].l <= p && q <= segs[t].r
  }

  ghost predicate Disjoint(segs: seq<Seg>) {
    forall s, t :: 0 <= s < t < |segs| ==> segs[s].r < segs[t].l || segs[t].r < segs[s].l
  }

  /** Any two entries not in one pending segment are already in order. */
  ghost predicate Sorting(a: seq<Id>, n: nat, segs: seq<Seg>) {
    && n < |a| && Disjoint(segs) && (forall t :: 0 <= t < |segs| ==> segs[t].Ok(n))
    && forall p, q :: 1 <= p < q <= n ==> a[p] >= a[q] || Together(segs, p, q)
  }

  /** Entries inside the last segment against entries outside it. */
  lemma CrossOrder(a: seq<Id>, n: nat, segs: seq<Seg>, p: nat, q: nat)
    requires Sorting(a, n, segs) && |segs| > 0 && 1 <= p < q <= n
    requires var s := segs[|segs| - 1]; (s.l <= p <= s.r) != (s.l <= q <= s.r)
    ensures a[p] >= a[q]
  {
  }

  lemma CrossKept(a: seq<Id>, b: seq<Id>, n: nat, segs: seq<Seg>, p: nat, q: nat)
    requires Sorting(a, n, segs) && |segs| > 0 && 1 <= p < q <= n
    requires var s := segs[|segs| - 1];
      (s.l <= p <= s.r) != (s.l <= q <= s.r) && Rearranged(a, b, s.l, s.r)
    ensures b[p] >= b[q]
  {
    var s := segs[|segs| - 1];
    RearrangedFrom(a, b, s.l, s.r, p);
    RearrangedFrom(a, b, s.l, s.r, q);
    if s.l <= p <= s.r {
      var p' :| s.l <= p' <= s.r && a[p'] == b[p];
      CrossOrder(a, n, segs, p', q);
    } else {
      var q' :| s.l <= q' <= s.r && a[q'] == b[q];
      CrossOrder(a, n, segs, p, q');
    }
  }

  lemma Elsewhere(a: seq<Id>, n: nat, segs: seq<Seg>, p: nat, q: nat)
    requires Sorting(a, n, segs) && |segs| > 0 && 1 <= p < q <= n
    requires var s := segs[|segs| - 1]; !(s.l <= p <= s.r) && !(s.l <= q <= s.r)
    ensures a[p] >= a[q] || Together(segs[..|segs| - 1], p, q)
  {
    if a[p] < a[q] {
      var t :| 0 <= t < |segs| && segs[t].l <= p && q <= segs[t].r;
      assert segs[..|segs| - 1][t] == segs[t];
    }
  }

  lemma OutsideKept(a: seq<Id>, b: seq<Id>, n: nat, segs: seq<Seg>, p: nat, q: nat)
    requires Sorting(a, n, segs) && |segs| > 0 && 1 <= p < q <= n
    requires var s := segs[|segs| - 1];
      !(s.l <= p <= s.r) && !(s.l <= q <= s.r) && Rearranged(a, b, s.l, s.r)
    ensures b[p] >= b[q] || Together(segs[..|segs| - 1], p, q)
  {
    var s := segs[|segs| - 1];
    Elsewhere(a, n, segs, p, q);
    RearrangedFrom(a, b, s.l, s.r, p);
    RearrangedFrom(a, b, s.l, s.r, q);
  }

  /** The last segment is sorted and retired. */
  lemma Retire(a: seq<Id>, b: seq<Id>, n: nat, segs: seq<Seg>)
    requires Sorting(a, n, segs) && |segs| > 0
    requires var s := segs[|segs| - 1]; Rearranged(a, b, s.l, s.r) && SortedSeg(b, s.l, s.r)
    ensures Sorting(b, n, segs[..|segs| - 1])
  {
    var s := segs[|segs| - 1];
    forall p, q | 1 <= p < q <= n ensures b[p] >= b[q] || Together(segs[..|segs| - 1], p, q) {
      if (s.l <= p <= s.r) != (s.l <= q <= s.r) {
        CrossKept(a, b, n, segs, p, q);
      } else if !(s.l <= p <= s.r) {
        OutsideKept(a, b, n, segs, p, q);
      }
    }
  }

  lemma TogetherMore(segs: seq<Seg>, more: seq<Seg>, p: nat, q: nat)
    requires Together(segs, p, q)
    ensures Together(segs + more, p, q)
  {
    var t :| 0 <= t < |segs| && segs[t].l <= p && q <= segs[t].r;
    assert (segs + more)[t] == segs[t];
  }

  lemma DisjointSplit(segs: seq<Seg>, s: Seg, x: Seg, y: Seg)
    requires Disjoint(segs + [s]) && s.l <= x.l && x.r <= s.r && s.l <= y.l && y.r <= s.r
    requires x.r < y.l || y.r < x.l
    ensures Disjoint(segs + [x, y])
  {
    var all := segs + [s];
    var two := segs + [x, y];
    forall i, j | 0 <= i < j < |two| ensures two[i].r < two[j].l || two[j].r < two[i].l {
      if i < |segs| <= j { assert all[i] == segs[i] && all[|segs|] == s; }
      if j < |segs| { assert all[i] == segs[i] && all[j] == segs[j]; }
    }
  }

  /** The last segment is split in two, the second of which is processed next. */
  lemma Divide(a: seq<Id>, b: seq<Id>, n: nat, segs: seq<Seg>, s: Seg, x: Seg, y: Seg,
               j: nat, i: nat, v: Id)
    requires Sorting(a, n, segs + [s])
    requires Rearranged(a, b, s.l, s.r) && Parted(b, s.l, j, i, s.r, v)
    requires (x == Seg(s.l, j - 1) && y == Seg(i, s.r)) || (y == Seg(s.l, j - 1) && x == Seg(i, s.r))
    ensures Sorting(b, n, segs + [x, y])
  {
    var all, two := segs + [s], segs + [x, y];
    assert all[|segs|] == s && all[..|all| - 1] == segs;
    assert two[|segs|] == x && two[|segs| + 1] == y;
    DisjointSplit(segs, s, x, y);
    forall p, q | 1 <= p < q <= n ensures b[p] >= b[q] || Together(two, p, q) {
      if (s.l <= p <= s.r) != (s.l <= q <= s.r) {
        CrossKept(a, b, n, all, p, q);
      } else if !(s.l <= p <= s.r) {
        OutsideKept(a, b, n, all, p, q);
        if b[p] < b[q] { TogetherMore(segs, [x, y], p, q); }
      } else if b[p] < b[q] {
        assert q < j || i <= p;
      }
    }
    forall t | 0 <= t < |two| ensures two[t].Ok(n) {
      assert s.Ok(n);
      if t < |segs| { assert all[t] == segs[t]; }
    }
  }

  function Pow2(k: nat): (r: nat)
    ensures r > 0
  {
    if k == 0 then 1 else 2 * Pow2(k - 1)
  }

  lemma {:induction false} Pow2Grows(j: nat, k: nat)
    requires j <= k
    ensures Pow2(j) <= Pow2(k)
  {
    if j < k { Pow2Grows(j, k - 1); }
  }

  lemma MulMono(p: nat, x: int, y: int)
    requires x <= y
    ensures p * x <= p * y
  {
  }

  lemma MulDouble(p: nat, x: int)
    ensures (2 * p) * x == p * (2 * x)
  {
  }

  /** The segment at depth t of the stack has at most n / 2^t entries. */
  ghost predicate Halving(segs: seq<Seg>, n: nat) {
    forall t :: 0 <= t < |segs| ==> Pow2(t) * segs[t].Size() <= n
  }

  lemma HalvingSplit(segs: seq<Seg>, s: Seg, x: Seg, y: Seg, n: nat)
    requires Halving(segs + [s], n)
    requires y.Size() <= x.Size() && x.Size() + y.Size() <= s.Size()
    ensures Halving(segs + [x, y], n)
  {
    var all, two, d := segs + [s], segs + [x, y], |segs|;
    assert all[d] == s;
    forall t | 0 <= t < |two| ensures Pow2(t) * two[t].Size() <= n {
      if t < d {
        assert all[t] == two[t];
      } else if t == d {
        MulMono(Pow2(d), x.Size(), s.Size());
      } else {
        MulDouble(Pow2(d), y.Size());
        MulMono(Pow2(d), 2 * y.Size(), s.Size());
      }
    }
  }

  lemma {:induction false} Pow2Add(j: nat, k: nat)
    ensures Pow2(j + k) == Pow2(j) * Pow2(k)
  {
    if k > 0 { Pow2Add(j, k - 1); }
  }

  lemma Pow2Of28()
    ensures Pow2(28) == 0x1000_0000
  {
    assert Pow2(3) == 8;
    Pow2Add(3, 4);
    Pow2Add(7, 7);
    Pow2Add(14, 14);
  }

  /** A segment long enough to be partitioned sits at depth 27 or less. */
  lemma DepthBound(d: nat, size: nat, n: nat)
    requires Pow2(d) * size <= n <= INT_MAX && size > SMALL
    ensures d < 28
  {
    if d >= 28 {
      Pow2Grows(28, d);
      Pow2Of28();
      MulMono(Pow2(d), 9, size);
    }
  }

  /** istack[1..2|segs|] holds the left and right ends of the segments, in order. */
  ghost predicate OnStack(st: seq<nat>, segs: seq<Seg>) {
    && |st| == STACK && 2 * |segs| < STACK
    && (forall t :: 0 <= t < |segs| ==> st[2 * t + 1] == segs[t].l && st[2 * t + 2] == segs[t].r)
  }

  ghost function Pending(segs: seq<Seg>): nat {
    if segs == [] then 0
    else Pending(segs[..|segs| - 1]) + 2 * segs[|segs| - 1].Size() + 1
  }

  lemma PendingMore(segs: seq<Seg>, s: Seg)
    ensures Pending(segs + [s]) == Pending(segs) + 2 * s.Size() + 1
  {
    assert (segs + [s])[..|segs|] == segs;
  }

  lemma PushOk(st: seq<nat>, segs: seq<Seg>, x: Seg)
    requires OnStack(st, segs) && |segs| < 28
    ensures OnStack(st[2 * |segs| + 2 := x.r][2 * |segs| + 1 := x.l], segs + [x])
  {
  }

  /** The state of the sort between two rounds: segment l..ir is next, the others wait on the
      stack, and the entries outside 1..n are untouched. */
  ghost predicate Round(b: seq<Id>, a: seq<Id>, n: nat, segs: seq<Seg>, st: seq<nat>, l: nat, ir: nat) {
    && Rearranged(b, a, 1, n) && Sorting(a, n, segs + [Seg(l, ir)]) && Halving(segs + [Seg(l, ir)], n)
    && OnStack(st, segs)
  }

  lemma RoundSegs(b: seq<Id>, a: seq<Id>, n: nat, segs: seq<Seg>, st: seq<nat>, l: nat, ir: nat)
    requires Round(b, a, n, segs, st, l, ir)
    ensures 1 <= l <= ir + 1 && ir <= n < |a| && Guarded(a, l, ir)
    ensures forall t :: 0 <= t < |segs| ==> segs[t].Ok(n)
    ensures ir - l >= SMALL && n <= INT_MAX ==> |segs| < 28
  {
    var all := segs + [Seg(l, ir)];
    assert all[|segs|] == Seg(l, ir);
    assert forall t :: 0 <= t < |segs| ==> all[t] == segs[t];
    forall q | l <= q <= ir && 1 < l ensures a[l - 1] >= a[q] { CrossOrder(a, n, all, l - 1, q); }
    if ir - l >= SMALL && n <= INT_MAX { DepthBound(|segs|, ir - l + 1, n); }
  }

  /** The state when the current segment is done: the rest waits on the stack. */
  ghost predicate Idle(b: seq<Id>, a: seq<Id>, n: nat, segs: seq<Seg>, st: seq<nat>) {
    Rearranged(b, a, 1, n) && Sorting(a, n, segs) && Halving(segs, n) && OnStack(st, segs)
  }

  lemma RoundRetire(b: seq<Id>, a: seq<Id>, a': seq<Id>, n: nat, segs: seq<Seg>, st: seq<nat>, l: nat, ir: nat)
    requires Round(b, a, n, segs, st, l, ir)
    requires Rearranged(a, a', l, ir) && SortedSeg(a', l, ir)
    ensures Idle(b, a', n, segs, st)
  {
    var all := segs + [Seg(l, ir)];
    assert all[|segs|] == Seg(l, ir);
    assert all[|all| - 1] == Seg(l, ir) && all[..|all| - 1] == segs;
    Retire(a, a', n, all);
    RearrangedWider(a, a', l, ir, 1, n);
    RearrangedTrans(b, a, a', 1, n);
    forall t | 0 <= t < |segs| ensures Pow2(t) * segs[t].Size() <= n { assert all[t] == segs[t]; }
  }

  lemma StackPop(st: seq<nat>, segs: seq<Seg>)
    requires OnStack(st, segs) && |segs| > 0
    ensures var s := segs[|segs| - 1]; st[2 * |segs|] == s.r && st[2 * |segs| - 1] == s.l
    ensures OnStack(st, segs[..|segs| - 1])
  {
    var s := segs[|segs| - 1];
    assert st[2 * (|segs| - 1) + 1] == s.l;
    forall t | 0 <= t < |segs| - 1
      ensures st[2 * t + 1] == segs[..|segs| - 1][t].l && st[2 * t + 2] == segs[..|segs| - 1][t].r
    {
      assert segs[..|segs| - 1][t] == segs[t];
    }
  }

  lemma RoundPop(b: seq<Id>, a: seq<Id>, n: nat, segs: seq<Seg>, st: seq<nat>)
    requires Idle(b, a, n, segs, st) && |segs| > 0
    ensures 2 * |segs| < |st|
    ensures var s := segs[|segs| - 1]; st[2 * |segs|] == s.r && st[2 * |segs| - 1] == s.l
    ensures var s := segs[|segs| - 1]; Round(b, a, n, segs[..|segs| - 1], st, s.l, s.r)
  {
    var s := segs[|segs| - 1];
    StackPop(st, segs);
    assert Seg(s.l, s.r) == s && segs[..|segs| - 1] + [s] == segs;
  }

  lemma RoundDivide(b: seq<Id>, a: seq<Id>, a': seq<Id>, n: nat, segs: seq<Seg>, st: seq<nat>, l: nat, ir: nat,
                    x: Seg, y: Seg, j: nat, i: nat, v: Id)
    requires Round(b, a, n, segs, st, l, ir) && n <= INT_MAX && ir - l >= SMALL
    requires Rearranged(a, a', l, ir) && Parted(a', l, j, i, ir, v)
    requires (x == Seg(l, j - 1) && y == Seg(i, ir)) || (y == Seg(l, j - 1) && x == Seg(i, ir))
    requires y.Size() <= x.Size()
    ensures 2 * |segs| + 2 < STACK
    ensures Round(b, a', n, segs + [x], st[2 * |segs| + 2 := x.r][2 * |segs| + 1 := x.l], y.l, y.r)
  {
    RoundSegs(b, a, n, segs, st, l, ir);
    Divide(a, a', n, segs, Seg(l, ir), x, y, j, i, v);
    HalvingSplit(segs, Seg(l, ir), x, y, n);
    assert segs + [x] + [Seg(y.l, y.r)] == segs + [x, y];
    RearrangedWider(a, a', l, ir, 1, n);
    RearrangedTrans(b, a, a', 1, n);
    PushOk(st, segs, x);
  }

  lemma SortDone(b: seq<Id>, a: seq<Id>, n: nat)
    requires Rearranged(b, a, 1, n) && Sorting(a, n, [])
    ensures Descending(a[1..n + 1]) && multiset(a[1..n + 1]) == multiset(b[1..n + 1])
    ensures a[0] == b[0] && a[n + 1..] == b[n + 1..]
  {
    var s := a[1..n + 1];
    forall p, q | 0 <= p < q < |s| ensures s[p] >= s[q] {
      assert s[p] == a[p + 1] && s[q] == a[q + 1];
    }
    assert a[0] == a[..1][0] == b[..1][0];
  }

  lemma RoundStart(b: seq<Id>, n: nat, st: seq<nat>)
    requires n < |b| && |st| == STACK
    ensures Round(b, b, n, [], st, 1, n)
  {
    var all := [] + [Seg(1, n)];
    assert all == [Seg(1, n)] && all[0] == Seg(1, n) && Pow2(0) == 1;
    forall p, q | 1 <= p < q <= n ensures Together(all, p, q) { assert all[0].l <= p; }
  }

  /** Sorts a short segment; the next one comes off the stack. */
  method ShortRound(ids: array<Id>, l: nat, ir: nat, ghost b: seq<Id>, ghost n: nat, ghost segs: seq<Seg>,
                    ghost st: seq<nat>)
    requires Round(b, ids[..], n, segs, st, l, ir)
    modifies ids
    ensures Idle(b, ids[..], n, segs, st)
  {
    ghost var a := ids[..];
    RoundSegs(b, a, n, segs, st, l, ir);
    InsertionSort(ids, l, ir);
    RoundRetire(b, a, ids[..], n, segs, st, l, ir);
  }

  /** A segment was partitioned around its pivot, and l'..ir' is the part to go on with. */
  ghost predicate Follows(a: seq<Id>, b: seq<Id>, l: nat, ir: nat, l': nat, ir': nat)
    requires l <= ir < |a|
  {
    && Rearranged(a, b, l, ir)
    && exists i: nat, j: nat :: Parted(b, l, j, i, ir, Pivot(a, l, ir))
         && if ir - i + 1 >= j - l then l' == l && ir' + 1 == j else l' == i && ir' == ir
  }

  /** Partitions a long segment, pushes the larger part and goes on with the smaller one. */
  method LongRound(ids: array<Id>, istack: array<nat>, l: nat, ir: nat, jstack: nat,
                   ghost b: seq<Id>, ghost n: nat, ghost segs: seq<Seg>)
    returns (l': nat, ir': nat, ghost pushed: Seg)
    requires ids != istack && n <= INT_MAX && l + SMALL <= ir < ids.Length && l + ir <= INT_MAX
    requires jstack == 2 * |segs| && Round(b, ids[..], n, segs, istack[..], l, ir)
    modifies ids, istack
    ensures Round(b, ids[..], n, segs + [pushed], istack[..], l', ir')
    ensures pushed.Size() + Seg(l', ir').Size() < Seg(l, ir).Size()
    ensures Follows(old(ids[..]), ids[..], l, ir, l', ir')
  {
    ghost var a: seq<Id>, st: seq<nat> := ids[..], istack[..];
    RoundSegs(b, a, n, segs, st, l, ir);
    var i, j, v := Partition(ids, l, ir);
    var pl: nat, pr: nat := i, ir;
    if ir - i + 1 >= j - l {
      l', ir' := l, j - 1;
    } else {
      pl, pr := l, j - 1;
      l', ir' := i, ir;
    }
    pushed := Seg(pl, pr);
    RoundDivide(b, a, ids[..], n, segs, st, l, ir, pushed, Seg(l', ir'), j, i, v);
    istack[jstack + 2] := pr;
    istack[jstack + 1] := pl;
    assert istack[..] == st[jstack + 2 := pr][jstack + 1 := pl];
  }

  /** One turn of the main loop.  The stack index moves by two slots per segment. */
  method Turn(ids: array<Id>, istack: array<nat>, l: nat, ir: nat, jstack: nat,
              ghost b: seq<Id>, ghost n: nat, ghost segs: seq<Seg>)
    returns (done: bool, l': nat, ir': nat, jstack': nat, ghost segs': seq<Seg>)
    requires ids != istack && n <= INT_MAX && ir < ids.Length && (ir >= l + SMALL ==> l + ir <= INT_MAX)
    requires jstack == 2 * |segs| && Round(b, ids[..], n, segs, istack[..], l, ir)
    modifies ids, istack
    ensures ir >= l + SMALL ==> !done && Follows(old(ids[..]), ids[..], l, ir, l', ir')
    ensures done ==> Idle(b, ids[..], n, [], istack[..])
    ensures !done ==> jstack' == 2 * |segs'| && Round(b, ids[..], n, segs', istack[..], l', ir')
    ensures !done ==> Pending(segs' + [Seg(l', ir')]) < Pending(segs + [Seg(l, ir)])
  {
    done, l', ir', jstack', segs' := false, l, ir, jstack, segs;
    PendingMore(segs, Seg(l, ir));
    if ir < l + SMALL {
      ShortRound(ids, l, ir, b, n, segs, istack[..]);
      if jstack == 0 {
        done := true;
        return;
      }
      RoundPop(b, ids[..], n, segs, istack[..]);
      ir' := istack[jstack];
      l' := istack[jstack - 1];
      jstack' := jstack - 2;
      segs' := segs[..|segs| - 1];
      assert segs' + [Seg(l', ir')] == segs;
    } else {
      ghost var pushed;
      l', ir', pushed := LongRound(ids, istack, l, ir, jstack, b, n, segs);
      jstack' := jstack + 2;
      segs' := segs + [pushed];
      PendingMore(segs, pushed);
      PendingMore(segs', Seg(l', ir'));
    }
  }

  // ---------------------------------------------------------------- lists that are too long

  /** How many entries are below v. */
  function Below(s: seq<Id>, v: Id): nat {
    if s == [] then 0 else Below(s[..|s| - 1], v) + if s[|s| - 1] < v then 1 else 0
  }

  lemma {:induction false} BelowConcat(s: seq<Id>, t: seq<Id>, v: Id)
    ensures Below(s + t, v) == Below(s, v) + Below(t, v)
  {
    if t == [] {
      assert s + t == s;
    } else {
      BelowConcat(s, t[..|t| - 1], v);
      assert (s + t)[..|s + t| - 1] == s + t[..|t| - 1];
    }
  }

  lemma {:induction false} BelowNone(s: seq<Id>, v: Id)
    requires forall i :: 0 <= i < |s| ==> s[i] >= v
    ensures Below(s, v) == 0
  {
    if s != [] { BelowNone(s[..|s| - 1], v); }
  }

  lemma {:induction false} BelowAll(s: seq<Id>, v: Id)
    ensures Below(s, v) <= |s| && ((forall i :: 0 <= i < |s| ==> s[i] < v) ==> Below(s, v) == |s|)
  {
    if s != [] { BelowAll(s[..|s| - 1], v); }
  }

  lemma BelowWithout(t: seq<Id>, k: nat, v: Id)
    requires k < |t|
    ensures Below(t, v) == Below(t[..k] + t[k + 1..], v) + if t[k] < v then 1 else 0
    ensures multiset(t) == multiset(t[..k] + t[k + 1..]) + multiset{t[k]}
  {
    assert t == t[..k] + ([t[k]] + t[k + 1..]);
    BelowConcat(t[..k], [t[k]] + t[k + 1..], v);
    BelowConcat([t[k]], t[k + 1..], v);
    BelowConcat(t[..k], t[k + 1..], v);
    assert [t[k]][..0] == [];
  }

  /** Rearranging does not change it. */
  lemma {:induction false} BelowSame(s: seq<Id>, t: seq<Id>, v: Id)
    requires multiset(s) == multiset(t)
    ensures Below(s, v) == Below(t, v)
    decreases |s|
  {
    assert |s| == |multiset(s)| == |multiset(t)| == |t|;
    if s != [] {
      var r, x := s[..|s| - 1], s[|s| - 1];
      assert s == r + [x];
      assert x in multiset(t);
      var k :| 0 <= k < |t| && t[k] == x;
      BelowWithout(t, k, v);
      assert multiset(r) == multiset(s) - multiset{x};
      BelowSame(r, t[..k] + t[k + 1..], v);
    }
  }

  /** The tenth smallest entry is in the middle, the nine smaller ones are at the end. */
  ghost predicate Awkward(a: seq<Id>, n: nat) {
    && 20 <= n < |a|
    && (forall p :: n - 9 < p <= n ==> a[p] < a[(1 + n) / 2])
    && (forall p :: 1 <= p <= n - 9 && p != (1 + n) / 2 ==> a[p] > a[(1 + n) / 2])
  }

  lemma BelowEnd(s: seq<Id>, m: nat, v: Id)
    requires m <= |s| && forall i :: m <= i < |s| ==> s[i] < v
    ensures |s| - m <= Below(s, v) == Below(s[..m], v) + |s| - m
  {
    assert s == s[..m] + s[m..];
    BelowConcat(s[..m], s[m..], v);
    BelowAll(s[m..], v);
  }

  /** Only entry k is below v. */
  lemma BelowOne(s: seq<Id>, k: nat, v: Id)
    requires k < |s| && forall i :: 0 <= i < |s| && i != k ==> s[i] >= v
    ensures Below(s, v) <= 1
  {
    var rest := s[..k] + s[k + 1..];
    forall i | 0 <= i < |rest| ensures rest[i] >= v {
      assert rest[i] == if i < k then s[i] else s[i + 1];
    }
    BelowWithout(s, k, v);
    BelowNone(rest, v);
  }

  lemma AwkwardCounts(a: seq<Id>, n: nat, v: Id)
    requires Awkward(a, n) && v == a[(1 + n) / 2]
    ensures Below(a[1..n + 1], v) >= 9 && Below(a[1..n + 1], v + 1) <= 10
  {
    var s, k := a[1..n + 1], (1 + n) / 2;
    assert forall i :: 0 <= i < n ==> s[i] == a[i + 1];
    BelowEnd(s, n - 9, v);
    BelowEnd(s, n - 9, v + 1);
    BelowOne(s[..n - 9], k - 1, v + 1);
  }

  lemma BelowStart(s: seq<Id>, m: nat, v: Id)
    requires m <= |s| && forall i :: 0 <= i < m ==> s[i] >= v
    ensures Below(s, v) <= |s| - m
  {
    assert s == s[..m] + s[m..];
    BelowConcat(s[..m], s[m..], v);
    BelowNone(s[..m], v);
    BelowAll(s[m..], v);
  }

  lemma PartedCounts(b: seq<Id>, n: nat, j: nat, i: nat, v: Id)
    requires Parted(b, 1, j, i, n, v)
    ensures Below(b[1..n + 1], v) <= n - i + 1 && Below(b[1..n + 1], v + 1) >= n - j + 1
  {
    var s := b[1..n + 1];
    assert forall p :: 0 <= p < n ==> s[p] == b[p + 1];
    BelowStart(s, i - 1, v);
    BelowEnd(s, j - 1, v + 1);
  }

  /** After the first round the sort goes on with the last nine entries. */
  lemma AwkwardFollows(a: seq<Id>, b: seq<Id>, n: nat, l': nat, ir': nat)
    requires Awkward(a, n) && Follows(a, b, 1, n, l', ir')
    ensures l' == n - 8 && ir' == n
  {
    var v := Pivot(a, 1, n);
    assert v == a[(1 + n) / 2];
    var i: nat, j: nat :| Parted(b, 1, j, i, n, v)
      && if n - i + 1 >= j - 1 then l' == 1 && ir' + 1 == j else l' == i && ir' == n;
    AwkwardCounts(a, n, v);
    PartedCounts(b, n, j, i, v);
    BelowSame(a[1..n + 1], b[1..n + 1], v);
    BelowSame(a[1..n + 1], b[1..n + 1], v + 1);
  }

  /** The state of the sort before each turn.  An awkward list that is too long has had one turn at most,
      and is at its last nine entries then. */
  ghost predicate Running(b: seq<Id>, a: seq<Id>, n: nat, segs: seq<Seg>, st: seq<nat>, l: nat, ir: nat, first: bool) {
    && n <= INT_MAX && Round(b, a, n, segs, st, l, ir)
    && (n > MAX_SORT && Awkward(b, n) ==> if first then l == 1 && ir == n && a == b else l == n - 8 && ir == n)
  }

  /** The turns of the sort. */
  method Turns(ids: array<Id>, istack: array<nat>, ghost b: seq<Id>, n: nat) returns (ok: bool)
    requires ids != istack && ids[..] == b && n <= INT_MAX && Round(b, b, n, [], istack[..], 1, n)
    modifies ids, istack
    ensures Rearranged(b, ids[..], 1, n) && (ok ==> Sorting(ids[..], n, []))
    ensures n <= MAX_SORT ==> ok
    ensures n > MAX_SORT && Awkward(b, n) ==> !ok
  {
    ghost var segs: seq<Seg>, first := [], true;
    var l: nat, ir: nat, jstack: nat := 1, n, 0;
    var done := false;
    while !done
      invariant !done ==> jstack == 2 * |segs| && Running(b, ids[..], n, segs, istack[..], l, ir, first)
      invariant done ==> Idle(b, ids[..], n, [], istack[..]) && !(n > MAX_SORT && Awkward(b, n))
      decreases !done, Pending(segs + [Seg(l, ir)])
    {
      RoundSegs(b, ids[..], n, segs, istack[..], l, ir);
      if ir >= l + SMALL && l + ir > INT_MAX { return false; }
      ghost var a := ids[..];
      done, l, ir, jstack, segs := Turn(ids, istack, l, ir, jstack, b, n, segs);
      if n > MAX_SORT && Awkward(b, n) { AwkwardFollows(a, ids[..], n, l, ir); }
      first := false;
    }
    ok := true;
  }

  /** mdb_midl_sort.  The result is false if the code would leave the range of int: the length itself, or
      the sum of the ends of a segment it partitions.  No list of up to 2^30+3 entries does that, and for
      every greater length there is one that does. */
  method Sort(ids: array<Id>) returns (ok: bool)
    requires Valid(ids)
    modifies ids
    ensures Valid(ids) && ids[0] == old(ids[0]) && multiset(Ids(ids)) == multiset(old(Ids(ids)))
    ensures ids[ids[0] + 1..] == old(ids[ids[0] + 1..])
    ensures ok ==> Descending(Ids(ids))
    ensures ids[0] <= MAX_SORT ==> ok
    ensures ids[0] > MAX_SORT && Awkward(old(ids[..]), ids[0]) ==> !ok
  {
    var n: nat := ids[0];
    if n > INT_MAX { return false; }
    ghost var b := ids[..];
    var istack := new nat[STACK];
    RoundStart(b, n, istack[..]);
    ok := Turns(ids, istack, b, n);
    RearrangedEnds(b, ids[..], n);
    if ok { SortDone(b, ids[..], n); }
  }

  lemma RearrangedEnds(b: seq<Id>, a: seq<Id>, n: nat)
    requires Rearranged(b, a, 1, n)
    ensures a[0] == b[0] && a[n + 1..] == b[n + 1..] && multiset(a[1..n + 1]) == multiset(b[1..n + 1])
  {
    assert a[0] == a[..1][0] == b[..1][0];
  }

  /** For every length there is an awkward list. */
  method SortAwkward(n: nat) returns (ok: bool)
    requires n >= 20
    ensures ok <==> n <= MAX_SORT
  {
    var ids := new Id[n + 1](i =>
      if i == 0 then n else if i > n - 9 then n - i else if i == (1 + n) / 2 then 9 else 9 + i);
    ok := Sort(ids);
  }
}
