/**
Dirty lists (MDB_ID2L): page numbers with their pages, ascending, the count in slot 0; and the merge of
a child transaction's list into its parent's (mdb_txn_commit).
*/
module DirtyList {
  import opened Common

  /** A page number and the page in memory. */
  datatype Id2 = Id2(mid: nat, page: int)

  ghost predicate Asc(s: seq<Id2>) {
    forall i, j :: 0 <= i < j < |s| ==> s[i].mid < s[j].mid
  }

  ghost predicate Valid(ids: array<Id2>)
    reads ids
  {
    0 < ids.Length && ids[0].mid < ids.Length
  }

  ghost function Entries(ids: array<Id2>): seq<Id2>
    requires Valid(ids)
    reads ids
  {
    ids[1..ids[0].mid + 1]
  }

  /** Binary search: the position of `id`, or of the first larger entry. */
  method Search(ids: array<Id2>, id: nat) returns (cursor: nat)
    requires Valid(ids) && Asc(Entries(ids))
    ensures 1 <= cursor <= ids[0].mid + 1
    ensures forall i :: 1 <= i < cursor ==> ids[i].mid < id
    ensures forall i :: cursor <= i <= ids[0].mid ==> ids[i].mid >= id
  {
    ghost var s := Entries(ids);
    assert forall i :: 1 <= i <= ids[0].mid ==> ids[i] == s[i - 1];
    var base: nat, n: nat := 0, ids[0].mid;
    cursor := 1;
    var val: int := 0;
    while 0 < n
      invariant base + n <= ids[0].mid && 1 <= cursor <= ids[0].mid + 1
      invariant forall i :: 1 <= i <= base ==> ids[i].mid < id
      invariant forall i :: base + n < i <= ids[0].mid ==> ids[i].mid > id
      invariant val < 0 ==> cursor == base + n + 1
      invariant val > 0 ==> cursor == base
      invariant val == 0 ==> cursor == 1 && base == 0 && n == ids[0].mid
    {
      var pivot := n / 2;
      cursor := base + pivot + 1;
      val := if id < ids[cursor].mid then -1 else if id > ids[cursor].mid then 1 else 0;
      if val < 0 {
        n := pivot;
      } else if val > 0 {
        base := cursor;
        n := n - (pivot + 1);
      } else {
        return;
      }
    }
    if val > 0 {
      cursor := cursor + 1;
    }
  }

  // ---------------------------------------------------------------- the union of two lists

  /** The pages of d and s in order; where both have a page, the one of s. */
  function Override(d: seq<Id2>, s: seq<Id2>): seq<Id2>
    decreases |d| + |s|
  {
    if s == [] then d
    else if d == [] then s
    else
      var a, b := d[|d| - 1], s[|s| - 1];
      if b.mid < a.mid then Override(d[..|d| - 1], s) + [a]
      else if b.mid == a.mid then Override(d[..|d| - 1], s[..|s| - 1]) + [b]
      else Override(d, s[..|s| - 1]) + [b]
  }

  /** How many page numbers the lists have in common. */
  function Shared(d: seq<Id2>, s: seq<Id2>): nat
    decreases |d| + |s|
  {
    if s == [] || d == [] then 0
    else
      var a, b := d[|d| - 1], s[|s| - 1];
      if b.mid < a.mid then Shared(d[..|d| - 1], s)
      else if b.mid == a.mid then 1 + Shared(d[..|d| - 1], s[..|s| - 1])
      else Shared(d, s[..|s| - 1])
  }

  lemma {:induction false} OverrideLength(d: seq<Id2>, s: seq<Id2>)
    ensures |Override(d, s)| == |d| + |s| - Shared(d, s) && |Override(d, s)| >= |d|
    decreases |d| + |s|
  {
    if s != [] && d != [] {
      var a, b := d[|d| - 1], s[|s| - 1];
      if b.mid < a.mid { OverrideLength(d[..|d| - 1], s); }
      else if b.mid == a.mid { OverrideLength(d[..|d| - 1], s[..|s| - 1]); }
      else { OverrideLength(d, s[..|s| - 1]); }
    }
  }

  /** The page a list has for a page number. */
  function Find(s: seq<Id2>, p: nat): Option<int> {
    if s == [] then None
    else if s[|s| - 1].mid == p then Some(s[|s| - 1].page)
    else Find(s[..|s| - 1], p)
  }

  lemma {:induction false} FindIn(s: seq<Id2>, p: nat)
    ensures Find(s, p).Some? <==> exists i :: 0 <= i < |s| && s[i].mid == p
  {
    if s != [] {
      FindIn(s[..|s| - 1], p);
      var t := s[..|s| - 1];
      if Find(t, p).Some? {
        var i :| 0 <= i < |t| && t[i].mid == p;
        assert s[i].mid == p;
      }
      if i :| 0 <= i < |s| && s[i].mid == p {
        if i < |t| { assert t[i].mid == p; }
      }
    }
  }

  lemma {:induction false} FindAbove(s: seq<Id2>, p: nat)
    requires Asc(s) && (s == [] || s[|s| - 1].mid < p)
    ensures Find(s, p) == None
  {
    if s != [] { FindAbove(s[..|s| - 1], p); }
  }

  /** The union looks a page up in s first. */
  lemma {:induction false} OverrideFind(d: seq<Id2>, s: seq<Id2>, p: nat)
    requires Asc(d) && Asc(s)
    ensures Find(Override(d, s), p) == if Find(s, p).Some? then Find(s, p) else Find(d, p)
    decreases |d| + |s|
  {
    if s != [] && d != [] {
      var a, b := d[|d| - 1], s[|s| - 1];
      var d', s' := d[..|d| - 1], s[..|s| - 1];
      if b.mid < a.mid {
        OverrideFind(d', s, p);
        if p == a.mid { FindAbove(s, p); }
      } else if b.mid == a.mid {
        OverrideFind(d', s', p);
      } else {
        OverrideFind(d, s', p);
      }
    }
  }

  lemma {:induction false} OverrideBelow(d: seq<Id2>, s: seq<Id2>, m: nat)
    requires (forall i :: 0 <= i < |d| ==> d[i].mid < m) && forall i :: 0 <= i < |s| ==> s[i].mid < m
    ensures forall i :: 0 <= i < |Override(d, s)| ==> Override(d, s)[i].mid < m
    decreases |d| + |s|
  {
    if s != [] && d != [] {
      var a, b := d[|d| - 1], s[|s| - 1];
      if b.mid < a.mid { OverrideBelow(d[..|d| - 1], s, m); }
      else if b.mid == a.mid { OverrideBelow(d[..|d| - 1], s[..|s| - 1], m); }
      else { OverrideBelow(d, s[..|s| - 1], m); }
    }
  }

  lemma {:induction false} OverrideAsc(d: seq<Id2>, s: seq<Id2>)
    requires Asc(d) && Asc(s)
    ensures Asc(Override(d, s))
    decreases |d| + |s|
  {
    if s != [] && d != [] {
      var a, b := d[|d| - 1], s[|s| - 1];
      var d', s' := d[..|d| - 1], s[..|s| - 1];
      if b.mid < a.mid {
        OverrideAsc(d', s);
        OverrideBelow(d', s, a.mid);
      } else if b.mid == a.mid {
        OverrideAsc(d', s');
        OverrideBelow(d', s', b.mid);
      } else {
        OverrideAsc(d, s');
        OverrideBelow(d, s', b.mid);
      }
    }
  }

  ghost function Mids(s: seq<Id2>): set<nat> { set e | e in s :: e.mid }

  lemma {:induction false} MidsCount(s: seq<Id2>)
    requires Asc(s)
    ensures |Mids(s)| == |s|
  {
    if s != [] {
      var t, b := s[..|s| - 1], s[|s| - 1];
      MidsCount(t);
      assert s == t + [b];
      assert Mids(s) == Mids(t) + {b.mid};
      assert b.mid !in Mids(t);
    }
  }

  lemma MidsSnoc(s: seq<Id2>, b: Id2)
    ensures Mids(s + [b]) == Mids(s) + {b.mid}
  {
    assert forall e :: e in s + [b] <==> e in s || e == b;
  }

  lemma {:induction false} OverrideMids(d: seq<Id2>, s: seq<Id2>)
    ensures Mids(Override(d, s)) == Mids(d) + Mids(s)
    decreases |d| + |s|
  {
    if s != [] && d != [] {
      var a, b := d[|d| - 1], s[|s| - 1];
      var d', s' := d[..|d| - 1], s[..|s| - 1];
      assert d == d' + [a] && s == s' + [b];
      MidsSnoc(d', a);
      MidsSnoc(s', b);
      if b.mid < a.mid {
        OverrideMids(d', s);
        MidsSnoc(Override(d', s), a);
      } else if b.mid == a.mid {
        OverrideMids(d', s');
        MidsSnoc(Override(d', s'), b);
      } else {
        OverrideMids(d, s');
        MidsSnoc(Override(d, s'), b);
      }
    } else if s == [] {
      assert Mids(s) == {};
    } else {
      assert Mids(d) == {};
    }
  }

  /** The merged list has one entry for each page of the union. */
  lemma UnionSize(d: seq<Id2>, s: seq<Id2>)
    requires Asc(d) && Asc(s)
    ensures |Override(d, s)| == |Mids(d) + Mids(s)|
  {
    OverrideAsc(d, s);
    MidsCount(Override(d, s));
    OverrideMids(d, s);
  }

  // ---------------------------------------------------------------- counting the union

  lemma {:induction false} CommonAbove(d: seq<Id2>, s: seq<Id2>, y: nat)
    requires y <= |s| && forall i, j :: 0 <= i < |d| && y <= j < |s| ==> d[i].mid < s[j].mid
    ensures Shared(d, s) == Shared(d, s[..y])
    decreases |s|
  {
    if y < |s| && d != [] {
      assert d[|d| - 1].mid < s[|s| - 1].mid;
      CommonAbove(d, s[..|s| - 1], y);
      assert s[..|s| - 1][..y] == s[..y];
    } else {
      assert d == [] || s[..y] == s;
    }
  }

  /** `len` is right but for what is still to be compared. */
  ghost predicate Counting(d: seq<Id2>, s: seq<Id2>, i: nat, y: nat, len: int) {
    i <= |d| && y <= |s| && len == |d| + |s| - Shared(d, s) + Shared(d[..i], s[..y])
  }

  lemma CountSkip(d: seq<Id2>, s: seq<Id2>, i: nat, y: nat, len: int)
    requires Counting(d, s, i, y, len) && 0 < i && 0 < y && s[y - 1].mid < d[i - 1].mid
    ensures Counting(d, s, i - 1, y, len)
  {
    assert d[..i][..i - 1] == d[..i - 1];
  }

  lemma CountSame(d: seq<Id2>, s: seq<Id2>, i: nat, y: nat, len: int)
    requires Counting(d, s, i, y, len) && 0 < i && 0 < y && s[y - 1].mid == d[i - 1].mid
    ensures Counting(d, s, i - 1, y - 1, len - 1)
  {
    assert d[..i][..i - 1] == d[..i - 1] && s[..y][..y - 1] == s[..y - 1];
  }

  lemma CountNext(d: seq<Id2>, s: seq<Id2>, i: nat, y: nat, len: int)
    requires Counting(d, s, i, y, len) && 0 < y && (0 < i ==> d[i - 1].mid < s[y - 1].mid)
    ensures Counting(d, s, i, y - 1, len)
  {
    assert s[..y][..y - 1] == s[..y - 1];
  }

  lemma CountStart(d: seq<Id2>, s: seq<Id2>, y: nat)
    requires Asc(d) && y <= |s|
    requires forall j :: y <= j < |s| ==> s[j].mid > (if d == [] then 0 else d[|d| - 1].mid)
    ensures Counting(d, s, |d|, y, |d| + |s|)
  {
    CommonAbove(d, s, y);
    assert d[..|d|] == d;
  }

  lemma CountDone(d: seq<Id2>, s: seq<Id2>, i: nat, y: nat, len: int)
    requires Counting(d, s, i, y, len) && (i == 0 || y == 0)
    ensures len == |Override(d, s)|
  {
    OverrideLength(d, s);
  }

  ghost predicate Positive(s: seq<Id2>) { forall i :: 0 <= i < |s| ==> s[i].mid > 0 }

  /** The parent's entries, with a zero in slot 0 while the lists are compared. */
  ghost predicate Opened(dst: seq<Id2>, d: seq<Id2>) {
    && |d| < |dst| && dst[0].mid == 0 && Asc(d) && Positive(d)
    && forall i :: 0 <= i < |d| ==> dst[i + 1] == d[i]
  }

  /** The inner loop: skip what is larger than src[y]. */
  method SkipLarger(dst: array<Id2>, ghost d: seq<Id2>, src: array<Id2>, ghost s: seq<Id2>, i0: nat, y: nat,
                    ghost len: int)
    returns (i: nat)
    requires Opened(dst[..], d) && Valid(src) && s == Entries(src) && 0 < y && Counting(d, s, i0, y, len)
    ensures i <= i0 && Counting(d, s, i, y, len) && (0 < i ==> d[i - 1].mid <= s[y - 1].mid)
  {
    i := i0;
    while src[y].mid < dst[i].mid
      invariant i <= i0 && Counting(d, s, i, y, len)
    {
      CountSkip(d, s, i, y, len);
      i := i - 1;
    }
  }

  /** The outer loop. */
  method CountDown(dst: array<Id2>, ghost d: seq<Id2>, src: array<Id2>, ghost s: seq<Id2>, x: nat, y0: nat, len0: int)
    returns (len: int)
    requires Opened(dst[..], d) && Valid(src) && s == Entries(src) && Positive(s) && Counting(d, s, x, y0, len0)
    ensures len == |Override(d, s)|
  {
    len := len0;
    var i: nat, y: nat := x, y0;
    while y > 0 && i > 0
      invariant y <= |s| && Counting(d, s, i, y, len)
      decreases y
    {
      i := SkipLarger(dst, d, src, s, i, y, len);
      if src[y].mid == dst[i].mid {
        CountSame(d, s, i, y, len);
        i := i - 1;
        len := len - 1;
      } else {
        CountNext(d, s, i, y, len);
      }
      y := y - 1;
    }
    CountDone(d, s, i, y, len);
  }

  /** The number of entries of the merged list, for a parent that has a parent itself. */
  method CountUnion(dst: array<Id2>, x: nat, src: array<Id2>) returns (len: int)
    requires x < dst.Length && Opened(dst[..], dst[1..x + 1])
    requires Valid(src) && Asc(Entries(src)) && Positive(Entries(src))
    ensures len == |Override(dst[1..x + 1], Entries(src))|
  {
    ghost var d, s := dst[1..x + 1], Entries(src);
    len := x + src[0].mid;
    var y := Search(src, dst[x].mid + 1);
    y := y - 1;
    assert forall j :: y <= j < |s| ==> s[j] == src[j + 1];
    assert x > 0 ==> dst[x] == d[x - 1];
    CountStart(d, s, y);
    len := CountDown(dst, d, src, s, x, y, len);
  }

  // ---------------------------------------------------------------- merging in place

  /** The merge has placed the end of the union above i; x and y entries are still to be read, and the
      place it writes to is `gap` above where a list of just the union would have it. */
  ghost predicate Merging(d: seq<Id2>, s: seq<Id2>, gap: nat, a: seq<Id2>, x: nat, y: nat, i: nat) {
    && x <= |d| && y <= |s| && x < |a| && gap + |Override(d, s)| < |a|
    && a[0].mid == 0 && (forall k :: 0 <= k < x ==> a[k + 1] == d[k])
    && i == gap + |Override(d[..x], s[..y])|
    && i <= gap + |Override(d, s)|
    && Override(d, s) == Override(d[..x], s[..y]) + a[i + 1..gap + |Override(d, s)| + 1]
  }

  lemma MergeStart(d: seq<Id2>, s: seq<Id2>, gap: nat, a: seq<Id2>)
    requires Opened(a, d) && gap + |Override(d, s)| < |a|
    ensures Merging(d, s, gap, a, |d|, |s|, gap + |Override(d, s)|)
  {
    assert d[..|d|] == d && s[..|s|] == s;
  }

  lemma MergeRoom(d: seq<Id2>, s: seq<Id2>, gap: nat, a: seq<Id2>, x: nat, y: nat, i: nat)
    requires Merging(d, s, gap, a, x, y, i)
    ensures x + gap <= i < |a|
  {
    OverrideLength(d[..x], s[..y]);
  }

  /** Taking an entry of the parent. */
  lemma MergeOld(d: seq<Id2>, s: seq<Id2>, gap: nat, a: seq<Id2>, x: nat, y: nat, i: nat)
    requires Merging(d, s, gap, a, x, y, i) && 0 < x <= i < |a| && 0 < y && s[y - 1].mid < d[x - 1].mid
    ensures Merging(d, s, gap, a[i := a[x]], x - 1, y, i - 1)
  {
    var n := gap + |Override(d, s)|;
    assert d[..x][..x - 1] == d[..x - 1];
    assert a[i := a[x]][i..n + 1] == [d[x - 1]] + a[i + 1..n + 1];
  }

  /** An entry of the parent that the child replaces is left out. */
  lemma MergeFree(d: seq<Id2>, s: seq<Id2>, gap: nat, a: seq<Id2>, x: nat, y: nat, i: nat)
    requires Merging(d, s, gap, a, x, y, i) && Asc(d) && 0 < x && 0 < y && s[y - 1].mid == d[x - 1].mid
    ensures Merging(d, s, gap, a, x - 1, y, i)
  {
    assert d[..x][..x - 1] == d[..x - 1] && s[..y][..y - 1] == s[..y - 1];
    assert x > 1 ==> d[x - 2].mid < s[y - 1].mid;
    assert Override(d[..x - 1], s[..y]) == Override(d[..x - 1], s[..y - 1]) + [s[y - 1]];
  }

  /** Taking an entry of the child. */
  lemma MergeNew(d: seq<Id2>, s: seq<Id2>, gap: nat, a: seq<Id2>, x: nat, y: nat, i: nat)
    requires Merging(d, s, gap, a, x, y, i) && 0 < i < |a| && 0 < y && (0 < x ==> d[x - 1].mid < s[y - 1].mid)
    ensures x < i && Merging(d, s, gap, a[i := s[y - 1]], x, y - 1, i - 1)
  {
    var n := gap + |Override(d, s)|;
    assert s[..y][..y - 1] == s[..y - 1];
    OverrideLength(d[..x], s[..y - 1]);
    assert Override(d[..x], s[..y]) == Override(d[..x], s[..y - 1]) + [s[y - 1]];
    assert a[i := s[y - 1]][i..n + 1] == [s[y - 1]] + a[i + 1..n + 1];
  }

  lemma MergeDone(d: seq<Id2>, s: seq<Id2>, gap: nat, a: seq<Id2>, x: nat, i: nat)
    requires Merging(d, s, gap, a, x, 0, i)
    ensures i == x + gap
    ensures gap == 0 ==> a[1..|Override(d, s)| + 1] == Override(d, s)
  {
    assert s[..0] == [];
    if gap == 0 {
      var n := |Override(d, s)|;
      assert a[1..n + 1] == a[1..x + 1] + a[x + 1..n + 1];
      assert a[1..x + 1] == d[..x];
    }
  }

  /** The merge under way: the list, the entries still to be read of the parent's and the child's, and the
      place to write to.  An index of -1 has left the list. */
  datatype Merger = Merger(a: seq<Id2>, x: int, y: nat, i: int)

  predicate Indexed(m: Merger, s: seq<Id2>) { m.y <= |s| && -1 <= m.x < |m.a| && -1 <= m.i < |m.a| }

  /** The next entry: the parent's last one if it is larger than the child's, else the child's last one,
      which may replace one of the parent's.  There is none if an index has left the list. */
  function Step(m: Merger, s: seq<Id2>): (out: Option<Merger>)
    requires Indexed(m, s) && m.y > 0
    ensures out.Some? ==> Indexed(out.value, s) && out.value.y <= m.y && (out.value.y < m.y || out.value.x < m.x)
  {
    var e := s[m.y - 1];
    if m.x < 0 || m.i < 0 then None
    else if e.mid < m.a[m.x].mid then Some(Merger(m.a[m.i := m.a[m.x]], m.x - 1, m.y, m.i - 1))
    else Some(Merger(m.a[m.i := e], if e.mid == m.a[m.x].mid then m.x - 1 else m.x, m.y - 1, m.i - 1))
  }

  /** How the merge ends. */
  function End(m: Merger, s: seq<Id2>): Option<Merger>
    requires Indexed(m, s)
    decreases m.y, m.x + 1
  {
    if m.y == 0 then Some(m)
    else
      var next := Step(m, s);
      if next.None? then None else End(next.value, s)
  }

  // ---------------------------------------------------------------- a length that is enough

  lemma StepOld(m: Merger, s: seq<Id2>)
    requires Indexed(m, s) && m.x >= 0 && m.i >= 0 && m.y > 0 && s[m.y - 1].mid < m.a[m.x].mid
    ensures Step(m, s) == Some(Merger(m.a[m.i := m.a[m.x]], m.x - 1, m.y, m.i - 1))
    ensures End(m, s) == End(Merger(m.a[m.i := m.a[m.x]], m.x - 1, m.y, m.i - 1), s)
  {
  }

  lemma StepNew(m: Merger, s: seq<Id2>, x: int)
    requires Indexed(m, s) && m.x >= 0 && m.i >= 0 && m.y > 0 && s[m.y - 1].mid >= m.a[m.x].mid
    requires x == if s[m.y - 1].mid == m.a[m.x].mid then m.x - 1 else m.x
    ensures Step(m, s) == Some(Merger(m.a[m.i := s[m.y - 1]], x, m.y - 1, m.i - 1))
    ensures End(m, s) == End(Merger(m.a[m.i := s[m.y - 1]], x, m.y - 1, m.i - 1), s)
  {
  }

  /** An entry of the parent that the child replaces is passed over. */
  lemma MergeSame(d: seq<Id2>, s: seq<Id2>, gap: nat, a: seq<Id2>, x: nat, y: nat, i: nat, x': int)
    requires Merging(d, s, gap, a, x, y, i) && y > 0 && s[y - 1].mid >= a[x].mid && Asc(d) && Positive(s)
    requires x' == if s[y - 1].mid == a[x].mid then x - 1 else x
    ensures 0 <= x' && Merging(d, s, gap, a, x', y, i) && (x' > 0 ==> d[x' - 1].mid < s[y - 1].mid)
  {
    if x' < x { MergeFree(d, s, gap, a, x, y, i); }
  }

  lemma MergeTake(d: seq<Id2>, s: seq<Id2>, gap: nat, a: seq<Id2>, x: nat, y: nat, i: nat)
    requires Merging(d, s, gap, a, x, y, i) && y > 0 && (x > 0 ==> d[x - 1].mid < s[y - 1].mid)
    ensures 0 < i < |a| && Merging(d, s, gap, a[i := s[y - 1]], x, y - 1, i - 1)
  {
    OverrideLength(d[..x], s[..y]);
    MergeRoom(d, s, gap, a, x, y, i);
    MergeNew(d, s, gap, a, x, y, i);
  }

  lemma NextOld(d: seq<Id2>, s: seq<Id2>, gap: nat, a: seq<Id2>, x: nat, y: nat, i: nat)
    requires Merging(d, s, gap, a, x, y, i) && i < |a| && y > 0 && s[y - 1].mid < a[x].mid
    ensures 0 < x <= i && Merging(d, s, gap, a[i := a[x]], x - 1, y, i - 1)
    ensures End(Merger(a, x, y, i), s) == End(Merger(a[i := a[x]], x - 1, y, i - 1), s)
  {
    MergeRoom(d, s, gap, a, x, y, i);
    MergeOld(d, s, gap, a, x, y, i);
    StepOld(Merger(a, x, y, i), s);
  }

  lemma NextNew(d: seq<Id2>, s: seq<Id2>, gap: nat, a: seq<Id2>, x: nat, y: nat, i: nat, x': int)
    requires Merging(d, s, gap, a, x, y, i) && i < |a| && y > 0 && s[y - 1].mid >= a[x].mid && Asc(d) && Positive(s)
    requires x' == if s[y - 1].mid == a[x].mid then x - 1 else x
    ensures 0 <= x' && 0 < i && Merging(d, s, gap, a[i := s[y - 1]], x', y - 1, i - 1)
    ensures End(Merger(a, x, y, i), s) == End(Merger(a[i := s[y - 1]], x', y - 1, i - 1), s)
  {
    MergeSame(d, s, gap, a, x, y, i, x');
    MergeTake(d, s, gap, a, x', y, i);
    StepNew(Merger(a, x, y, i), s, x');
  }

  /** The merge ended in the list, as far above x as the length is too large. */
  ghost predicate Ended(u: seq<Id2>, gap: nat, n: nat, out: Option<Merger>) {
    && out.Some? && out.value.i == out.value.x + gap && |out.value.a| == n > |u|
    && (gap == 0 ==> out.value.a[1..|u| + 1] == u)
  }

  lemma EndsThere(d: seq<Id2>, s: seq<Id2>, gap: nat, a: seq<Id2>, x: nat, i: nat)
    requires Merging(d, s, gap, a, x, 0, i) && i < |a|
    ensures Ended(Override(d, s), gap, |a|, End(Merger(a, x, 0, i), s))
  {
    MergeDone(d, s, gap, a, x, i);
  }

  /** So it does if the length is that of the union or more. */
  lemma {:induction false} EndsMerged(d: seq<Id2>, s: seq<Id2>, gap: nat, a: seq<Id2>, x: nat, y: nat, i: nat,
                                      out: Option<Merger>)
    requires Merging(d, s, gap, a, x, y, i) && i < |a| && Asc(d) && Positive(s)
    requires out == End(Merger(a, x, y, i), s)
    ensures Ended(Override(d, s), gap, |a|, out)
    decreases y, x, 1
  {
    if y == 0 {
      EndsThere(d, s, gap, a, x, i);
    } else if s[y - 1].mid < a[x].mid {
      EndsOld(d, s, gap, a, x, y, i, out);
    } else {
      EndsNew(d, s, gap, a, x, y, i, if s[y - 1].mid == a[x].mid then x - 1 else x, out);
    }
  }

  lemma {:induction false} EndsOld(d: seq<Id2>, s: seq<Id2>, gap: nat, a: seq<Id2>, x: nat, y: nat, i: nat,
                                   out: Option<Merger>)
    requires Merging(d, s, gap, a, x, y, i) && i < |a| && Asc(d) && Positive(s)
    requires y > 0 && s[y - 1].mid < a[x].mid && out == End(Merger(a, x, y, i), s)
    ensures Ended(Override(d, s), gap, |a|, out)
    decreases y, x, 0
  {
    NextOld(d, s, gap, a, x, y, i);
    EndsMerged(d, s, gap, a[i := a[x]], x - 1, y, i - 1, out);
  }

  lemma {:induction false} EndsNew(d: seq<Id2>, s: seq<Id2>, gap: nat, a: seq<Id2>, x: nat, y: nat, i: nat,
                                   x': int, out: Option<Merger>)
    requires Merging(d, s, gap, a, x, y, i) && i < |a| && Asc(d) && Positive(s)
    requires y > 0 && s[y - 1].mid >= a[x].mid && out == End(Merger(a, x, y, i), s)
    requires x' == if s[y - 1].mid == a[x].mid then x - 1 else x
    ensures Ended(Override(d, s), gap, |a|, out)
    decreases y, x, 0
  {
    NextNew(d, s, gap, a, x, y, i, x');
    EndsMerged(d, s, gap, a[i := s[y - 1]], x', y - 1, i - 1, out);
  }

  // ---------------------------------------------------------------- any length

  /** The entry is larger than those of the child that are still to come. */
  ghost predicate Above(e: Id2, s: seq<Id2>, y: nat)
    requires y <= |s|
  {
    y > 0 ==> e.mid > s[y - 1].mid
  }

  /** An entry of the parent that was not read yet is as it was, or was overwritten with one that is larger
      than those still to come. */
  ghost predicate Unread(d: seq<Id2>, s: seq<Id2>, a: seq<Id2>, x: int, y: nat) {
    && -1 <= x <= |d| && |d| < |a| && y <= |s|
    && forall p :: 0 <= p <= x ==> (if p == 0 then a[0].mid == 0 else a[p] == d[p - 1]) || Above(a[p], s, y)
  }

  /** The pages passed over so far are in both lists, above what is still to come. */
  ghost predicate Passed(d: seq<Id2>, s: seq<Id2>, y: nat, gone: set<nat>) {
    y <= |s| && gone <= Mids(d) * Mids(s) && forall m :: m in gone && y > 0 ==> m > s[y - 1].mid
  }

  lemma UnreadWrite(d: seq<Id2>, s: seq<Id2>, a: seq<Id2>, x: int, y: nat, i: nat, e: Id2)
    requires Unread(d, s, a, x, y) && i < |a| && Above(e, s, y)
    ensures Unread(d, s, a[i := e], x, y)
  {
  }

  lemma UnreadNext(d: seq<Id2>, s: seq<Id2>, a: seq<Id2>, x: int, y: nat)
    requires Unread(d, s, a, x, y) && Asc(s) && 0 < y
    ensures Unread(d, s, a, x, y - 1)
  {
    assert y > 1 ==> s[y - 2].mid < s[y - 1].mid;
  }

  lemma UnreadSame(d: seq<Id2>, s: seq<Id2>, a: seq<Id2>, x: nat, y: nat)
    requires Unread(d, s, a, x, y) && 0 < y && Positive(s) && s[y - 1].mid == a[x].mid
    ensures x > 0 && s[y - 1].mid in Mids(d)
  {
    assert a[x] == d[x - 1] && d[x - 1] in d;
  }

  lemma PassOne(d: seq<Id2>, s: seq<Id2>, y: nat, gone: set<nat>, same: bool)
    requires Passed(d, s, y, gone) && 0 < y && Asc(s) && (same ==> s[y - 1].mid in Mids(d))
    ensures var next := if same then gone + {s[y - 1].mid} else gone;
      Passed(d, s, y - 1, next) && |next| == |gone| + if same then 1 else 0
  {
    assert s[y - 1] in s && s[y - 1].mid !in gone;
    assert y > 1 ==> s[y - 2].mid < s[y - 1].mid;
  }

  lemma FewPassed(d: seq<Id2>, s: seq<Id2>, gone: set<nat>)
    requires Asc(d) && Asc(s) && gone <= Mids(d) * Mids(s)
    ensures |gone| <= |d| + |s| - |Override(d, s)|
  {
    UnionSize(d, s);
    MidsCount(d);
    MidsCount(s);
    Subset(gone, Mids(d) * Mids(s));
  }

  lemma Subset(a: set<nat>, b: set<nat>)
    requires a <= b
    ensures |a| <= |b|
  {
    assert b == a + (b - a);
  }

  /** The merge goes down by one entry of the child for each that is placed, and back up by one for each of
      the parent's that is passed over; no more of those are passed over than the lists share. */
  lemma {:induction false} EndsAbove(d: seq<Id2>, s: seq<Id2>, m: Merger, gone: set<nat>)
    requires Indexed(m, s) && Unread(d, s, m.a, m.x, m.y) && Passed(d, s, m.y, gone)
    requires Asc(d) && Asc(s) && Positive(s)
    ensures var out := End(m, s);
      out.Some? ==> out.value.i - out.value.x <= m.i - m.x - m.y + (|d| + |s| - |Override(d, s)|) - |gone|
    decreases m.y, m.x + 1
  {
    if m.y == 0 {
      FewPassed(d, s, gone);
    } else if m.x >= 0 && m.i >= 0 {
      var e, next := s[m.y - 1], Step(m, s).value;
      if e.mid < m.a[m.x].mid {
        UnreadWrite(d, s, m.a, m.x, m.y, m.i, m.a[m.x]);
        EndsAbove(d, s, next, gone);
      } else {
        var same := e.mid == m.a[m.x].mid;
        if same { UnreadSame(d, s, m.a, m.x, m.y); }
        UnreadNext(d, s, m.a, m.x, m.y);
        UnreadWrite(d, s, m.a, m.x, m.y - 1, m.i, e);
        PassOne(d, s, m.y, gone, same);
        EndsAbove(d, s, next, if same then gone + {e.mid} else gone);
      }
    }
  }

  // ---------------------------------------------------------------- the loops

  /** The inner loop: the parent's entries that are larger than src[y] move up. */
  method MoveLarger(dst: array<Id2>, src: array<Id2>, ghost s: seq<Id2>, x0: int, y: nat, i0: int)
    returns (x: int, i: int, inside: bool)
    requires Valid(src) && src != dst && s == Entries(src) && 0 < y && Indexed(Merger(dst[..], x0, y, i0), s)
    modifies dst
    ensures var out := End(Merger(old(dst[..]), x0, y, i0), s);
      if inside
      then 0 <= x < dst.Length && -1 <= i < dst.Length && dst[x].mid <= s[y - 1].mid
           && End(Merger(dst[..], x, y, i), s) == out
      else out == None
  {
    x, i, inside := x0, i0, true;
    ghost var out := End(Merger(dst[..], x, y, i), s);
    while inside && 0 <= x && src[y].mid < dst[x].mid
      invariant -1 <= x < dst.Length && -1 <= i < dst.Length
      invariant if inside then End(Merger(dst[..], x, y, i), s) == out else out == None
      decreases if inside then x + 2 else 0
    {
      inside := 0 <= i;
      if inside {
        dst[i] := dst[x];
        i, x := i - 1, x - 1;
      }
    }
    inside := inside && 0 <= x;
  }

  /** One round: everything above src[y] is in place, and it comes, perhaps instead of an entry. */
  method MergeRound(dst: array<Id2>, src: array<Id2>, ghost s: seq<Id2>, x0: int, y: nat, i0: int)
    returns (x: int, i: int, inside: bool)
    requires Valid(src) && src != dst && s == Entries(src) && 0 < y && Indexed(Merger(dst[..], x0, y, i0), s)
    modifies dst
    ensures var out := End(Merger(old(dst[..]), x0, y, i0), s);
      if inside
      then -1 <= x < dst.Length && -1 <= i < dst.Length && End(Merger(dst[..], x, y - 1, i), s) == out
      else out == None
  {
    x, i, inside := MoveLarger(dst, src, s, x0, y, i0);
    if inside {
      inside := 0 <= i;
      if inside {
        if src[y].mid == dst[x].mid { x := x - 1; }
        dst[i] := src[y];
        i := i - 1;
      }
    }
  }

  /** The outer loop. */
  method MergeLoop(dst: array<Id2>, src: array<Id2>, ghost s: seq<Id2>, x0: int, i0: int)
    returns (i: int, x: int, inside: bool)
    requires Valid(src) && src != dst && s == Entries(src) && Indexed(Merger(dst[..], x0, |s|, i0), s)
    modifies dst
    ensures End(Merger(old(dst[..]), x0, |s|, i0), s) == if inside then Some(Merger(dst[..], x, 0, i)) else None
  {
    ghost var out := End(Merger(dst[..], x0, |s|, i0), s);
    var y: nat := src[0].mid;
    i, x, inside := i0, x0, true;
    while inside && y > 0
      invariant Entries(src) == s && y <= |s|
      invariant if inside
        then -1 <= x < dst.Length && -1 <= i < dst.Length && End(Merger(dst[..], x, y, i), s) == out
        else out == None
      decreases y, inside
    {
      x, i, inside := MergeRound(dst, src, s, x, y, i);
      if inside { y := y - 1; }
    }
  }

  /** Merges the child's list into the parent's, backwards and in place, for any length.  If that is the size
      of the union or more, the loop stays in the list.  It ends with i == x exactly when the length is the
      size of the union, and then the list is the union; if it is less, the loop leaves the list at the
      lower end or stops with i < x. */
  method Merge(dst: array<Id2>, x0: nat, src: array<Id2>, len: nat) returns (i: int, x: int, inside: bool)
    requires x0 < dst.Length && Opened(dst[..], dst[1..x0 + 1]) && src != dst
    requires Valid(src) && Positive(Entries(src)) && Asc(Entries(src))
    requires |Override(dst[1..x0 + 1], Entries(src))| < dst.Length && len < dst.Length
    modifies dst
    ensures var u := old(Override(dst[1..x0 + 1], Entries(src)));
      && (if len >= |u| then inside && i - x == len - |u| else inside ==> i - x <= len - |u|)
      && (inside && i == x ==> len == |u| && dst[0].mid == len && dst[1..len + 1] == u)
  {
    ghost var d, s := dst[1..x0 + 1], Entries(src);
    Ends(d, s, Merger(dst[..], x0, |s|, len));
    i, x, inside := MergeLoop(dst, src, s, x0, len);
    if inside && i == x { dst[0] := dst[0].(mid := len); }
  }

  lemma Ends(d: seq<Id2>, s: seq<Id2>, m: Merger)
    requires Opened(m.a, d) && Asc(s) && Positive(s) && m.x == |d| && m.y == |s| && 0 <= m.i < |m.a|
    requires |Override(d, s)| < |m.a|
    ensures Indexed(m, s)
    ensures var out, gap := End(m, s), m.i - |Override(d, s)|;
      && (gap >= 0 ==> out.Some? && out.value.i - out.value.x == gap)
      && (out.Some? ==> out.value.i - out.value.x <= gap && |out.value.a| == |m.a|)
      && (gap == 0 && out.Some? ==> out.value.a[1..|Override(d, s)| + 1] == Override(d, s))
  {
    var gap := m.i - |Override(d, s)|;
    if gap >= 0 {
      MergeStart(d, s, gap, m.a);
      EndsMerged(d, s, gap, m.a, m.x, m.y, m.i, End(m, s));
    } else {
      EndsAbove(d, s, m, {});
    }
    EndLength(m, s);
  }

  lemma {:induction false} EndLength(m: Merger, s: seq<Id2>)
    requires Indexed(m, s)
    ensures End(m, s).Some? ==> |End(m, s).value.a| == |m.a| && End(m, s).value.y == 0
    decreases m.y, m.x + 1
  {
    if m.y > 0 && Step(m, s).Some? { EndLength(Step(m, s).value, s); }
  }

  // ---------------------------------------------------------------- inserting

  /** MDB_IDL_UM_MAX. */
  const UM_MAX: nat := 0x1_FFFF

  /** The entries from x on move up by one. */
  ghost predicate Shifting(a: seq<Id2>, s: seq<Id2>, x: nat, i: nat) {
    && |s| + 1 < |a| && 1 <= x <= i <= |s| + 1
    && (forall k :: 1 <= k < i && k <= |s| ==> a[k] == s[k - 1])
    && (forall k :: i < k <= |s| + 1 ==> a[k] == s[k - 2])
  }

  method ShiftUp(ids: array<Id2>, ghost s: seq<Id2>, n: nat, x: nat)
    requires n == |s| + 1 && Shifting(ids[..], s, x, n)
    modifies ids
    ensures Shifting(ids[..], s, x, x) && ids[0] == old(ids[0])
  {
    var i: nat := n;
    while i > x
      invariant Shifting(ids[..], s, x, i) && ids[0] == old(ids[0])
    {
      ids[i] := ids[i - 1];
      i := i - 1;
    }
  }

  /** mdb_mid2l_insert: a new page goes to its place; a page that is there already, or a full list,
      is refused and nothing changes. */
  method Insert(ids: array<Id2>, id: Id2) returns (rc: int)
    requires ids.Length == UM_MAX + 1 && Valid(ids) && Asc(Entries(ids))
    modifies ids
    ensures Valid(ids) && Asc(Entries(ids))
    ensures rc == if id.mid in Mids(old(Entries(ids))) then -1 else if |old(Entries(ids))| == UM_MAX then -2 else 0
    ensures rc != 0 ==> ids[..] == old(ids[..])
    ensures rc == 0 ==> Entries(ids) == Override(old(Entries(ids)), [id])
  {
    ghost var s := Entries(ids);
    var x := Search(ids, id.mid);
    Position(s, id.mid, ids[..], x);
    if x <= ids[0].mid && ids[x].mid == id.mid { return -1; }
    if ids[0].mid >= UM_MAX { return -2; }
    Placed(s, id, x - 1);
    Place(ids, s, x, id);
    return 0;
  }

  method Place(ids: array<Id2>, ghost s: seq<Id2>, x: nat, id: Id2)
    requires Valid(ids) && ids[0].mid + 1 < ids.Length && s == Entries(ids) && 1 <= x <= |s| + 1
    modifies ids
    ensures Valid(ids) && Entries(ids) == s[..x - 1] + [id] + s[x - 1..]
  {
    ids[0] := ids[0].(mid := ids[0].mid + 1);
    assert ids[..][1..|s| + 1] == s;
    ShiftUp(ids, s, ids[0].mid, x);
    ids[x] := id;
    assert ids[1..|s| + 2] == s[..x - 1] + [id] + s[x - 1..];
  }

  lemma Position(s: seq<Id2>, p: nat, a: seq<Id2>, x: nat)
    requires |s| < |a| && 1 <= x <= |s| + 1 && s == a[1..|s| + 1]
    requires (forall i :: 1 <= i < x ==> a[i].mid < p) && forall i :: x <= i <= |s| ==> a[i].mid >= p
    requires Asc(s)
    ensures (forall i :: 0 <= i < x - 1 ==> s[i].mid < p) && forall i :: x - 1 <= i < |s| ==> s[i].mid >= p
    ensures p in Mids(s) <==> x <= |s| && s[x - 1].mid == p
  {
    assert forall i :: 0 <= i < |s| ==> s[i] == a[i + 1];
    if p in Mids(s) {
      var e :| e in s && e.mid == p;
      var i :| 0 <= i < |s| && s[i] == e;
      assert i >= x - 1;
    }
  }

  lemma {:induction false} Placed(s: seq<Id2>, id: Id2, n: nat)
    requires Asc(s) && n <= |s|
    requires (forall i :: 0 <= i < n ==> s[i].mid < id.mid) && forall i :: n <= i < |s| ==> s[i].mid > id.mid
    ensures Override(s, [id]) == s[..n] + [id] + s[n..] && Asc(Override(s, [id]))
  {
    OverrideAsc(s, [id]);
    if s != [] && n < |s| {
      Placed(s[..|s| - 1], id, n);
      assert s[..|s| - 1][..n] == s[..n] && s[n..] == s[..|s| - 1][n..] + [s[|s| - 1]];
    } else if s != [] {
      assert [id][..0] == [] && s[..n] == s;
    }
  }
}
