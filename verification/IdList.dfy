/**
ID lists (midl.c): arrays of page numbers, largest first, with the number of entries in slot 0.
The array's length is one more than the list's capacity.
*/
module IdList {

  /** The largest value of an ID, used as a sentinel. */
  const ID_MAX: nat := 0xFFFF_FFFF_FFFF_FFFF

  type Id = nat

  /** MDB_IDL_UM_MAX: the default capacity of a list in memory. */
  const UM_MAX: nat := 0x1_FFFF

  ghost predicate Valid(ids: array<Id>)
    reads ids
  {
    0 < ids.Length && ids[0] < ids.Length
  }

  /** The entries of the list. */
  ghost function Ids(ids: array<Id>): seq<Id>
    requires Valid(ids)
    reads ids
  {
    ids[1..ids[0] + 1]
  }

  ghost predicate Descending(s: seq<Id>) {
    forall i, j :: 0 <= i < j < |s| ==> s[i] >= s[j]
  }

  ghost predicate Strict(s: seq<Id>) {
    forall i, j :: 0 <= i < j < |s| ==> s[i] > s[j]
  }

  /** Binary search: the position of `id`, or of the first smaller entry. */
  method Search(ids: array<Id>, id: Id) returns (cursor: nat)
    requires Valid(ids) && Strict(Ids(ids))
    ensures 1 <= cursor <= ids[0] + 1
    ensures forall i :: 1 <= i < cursor ==> ids[i] > id
    ensures forall i :: cursor <= i <= ids[0] ==> ids[i] <= id
    ensures cursor <= ids[0] && ids[cursor] == id <==> id in Ids(ids)
  {
    ghost var s := Ids(ids);
    assert forall i :: 1 <= i <= ids[0] ==> ids[i] == s[i - 1];
    var base: nat, n: nat := 0, ids[0];
    cursor := 1;
    var val: int := 0;
    while 0 < n
      invariant base + n <= ids[0] && 1 <= cursor <= ids[0] + 1
      invariant forall i :: 1 <= i <= base ==> ids[i] > id
      invariant forall i :: base + n < i <= ids[0] ==> ids[i] < id
      invariant val < 0 ==> cursor == base + n + 1
      invariant val > 0 ==> cursor == base
      invariant val == 0 ==> cursor == 1 && base == 0 && n == ids[0]
    {
      var pivot := n / 2;
      cursor := base + pivot + 1;
      val := if ids[cursor] < id then -1 else if ids[cursor] > id then 1 else 0;
      if val < 0 {
        n := pivot;
      } else if val > 0 {
        base := cursor;
        n := n - (pivot + 1);
      } else {
        return;
      }
    }
    if val > 0 {
      cursor := cursor + 1;
    }
  }

  /** `placed` holds the entries of x[j..] and y[i..]. */
  ghost predicate Gathered(x: seq<Id>, j: nat, y: seq<Id>, i: nat, placed: seq<Id>) {
    j <= |x| && i <= |y| && multiset(placed) == multiset(x[j..]) + multiset(y[i..])
  }

  /** `placed` is in order, smallest first, and nothing left in x or y is smaller than its end. */
  ghost predicate Ordered(x: seq<Id>, j: nat, y: seq<Id>, i: nat, placed: seq<Id>) {
    && j <= |x| && i <= |y| && Descending(x) && Descending(y)
    && (forall p, q :: 0 <= p < q < |placed| ==> placed[p] <= placed[q])
    && (placed != [] ==> var last := placed[|placed| - 1];
          (0 < j ==> last <= x[j - 1]) && (0 < i ==> last <= y[i - 1]))
  }

  lemma TakeLeft(x: seq<Id>, j: nat, y: seq<Id>, i: nat, placed: seq<Id>)
    requires Gathered(x, j, y, i, placed) && 0 < j
    ensures Gathered(x, j - 1, y, i, placed + [x[j - 1]])
  {
    assert x[j - 1..] == [x[j - 1]] + x[j..];
  }

  lemma TakeRight(x: seq<Id>, j: nat, y: seq<Id>, i: nat, placed: seq<Id>)
    requires Gathered(x, j, y, i, placed) && 0 < i
    ensures Gathered(x, j, y, i - 1, placed + [y[i - 1]])
  {
    assert y[i - 1..] == [y[i - 1]] + y[i..];
  }

  lemma TakeInOrder(x: seq<Id>, j: nat, y: seq<Id>, i: nat, placed: seq<Id>)
    requires Ordered(x, j, y, i, placed)
    ensures 0 < j && (0 < i ==> x[j - 1] <= y[i - 1]) ==> Ordered(x, j - 1, y, i, placed + [x[j - 1]])
    ensures 0 < i && (0 < j ==> y[i - 1] <= x[j - 1]) ==> Ordered(x, j, y, i - 1, placed + [y[i - 1]])
  {
  }

  /** A list that ends with `placed` backwards has the same entries as the two parts. */
  lemma {:induction false} Backwards(s: seq<Id>, j: nat, placed: seq<Id>)
    requires |s| == j + |placed|
    requires forall q :: 0 <= q < |placed| ==> s[|s| - 1 - q] == placed[q]
    ensures multiset(s) == multiset(s[..j]) + multiset(placed)
  {
    if placed == [] {
      assert s[..j] == s;
    } else {
      var s', n := s[..|s| - 1], placed[1..];
      assert s == s' + [placed[0]] && placed == [placed[0]] + n && s'[..j] == s[..j];
      Backwards(s', j, n);
    }
  }

  lemma MergeDone(s: seq<Id>, x: seq<Id>, j: nat, y: seq<Id>, placed: seq<Id>)
    requires Gathered(x, j, y, 0, placed) && |s| == j + |placed| && s[..j] == x[..j]
    requires forall q :: 0 <= q < |placed| ==> s[|s| - 1 - q] == placed[q]
    ensures multiset(s) == multiset(x) + multiset(y)
  {
    Backwards(s, j, placed);
    assert x == x[..j] + x[j..] && y[0..] == y;
  }

  lemma MergeSorted(s: seq<Id>, x: seq<Id>, j: nat, y: seq<Id>, placed: seq<Id>)
    requires Ordered(x, j, y, 0, placed) && |s| == j + |placed| && s[..j] == x[..j]
    requires forall q :: 0 <= q < |placed| ==> s[|s| - 1 - q] == placed[q]
    ensures Descending(s)
  {
    forall p, q | 0 <= p < q < |s| ensures s[p] >= s[q] {
      if p < j { assert s[p] == s[..j][p] == x[p]; } else { assert s[p] == placed[|s| - 1 - p]; }
      if q < j { assert s[q] == s[..j][q] == x[q]; } else { assert s[q] == placed[|s| - 1 - q]; }
    }
  }

  /** The state of mdb_midl_xmerge: entries not yet moved are still in front, the placed ones at
      the back, and slot 0 holds the delimiter. */
  ghost predicate Merging(a: seq<Id>, x: seq<Id>, j: nat, y: seq<Id>, i: nat, placed: seq<Id>) {
    && |x| + |y| < |a| && |placed| == |x| + |y| - i - j
    && Gathered(x, j, y, i, placed) && Ordered(x, j, y, i, placed)
    && a[0] == ID_MAX && (forall p :: 0 < p <= j ==> a[p] == x[p - 1])
    && (forall q :: i + j < q <= |x| + |y| ==> a[q] == placed[|x| + |y| - q])
  }

  lemma MergingLeft(a: seq<Id>, x: seq<Id>, j: nat, y: seq<Id>, i: nat, placed: seq<Id>)
    requires Merging(a, x, j, y, i, placed) && 0 < i && (forall m :: m in y ==> m <= ID_MAX)
    requires a[j] < y[i - 1]
    ensures 0 < j && Merging(a[i + j := a[j]], x, j - 1, y, i, placed + [a[j]])
  {
    assert y[i - 1] in y;
    TakeInOrder(x, j, y, i, placed);
    TakeLeft(x, j, y, i, placed);
  }

  lemma MergingRight(a: seq<Id>, x: seq<Id>, j: nat, y: seq<Id>, i: nat, placed: seq<Id>)
    requires Merging(a, x, j, y, i, placed) && 0 < i
    requires a[j] >= y[i - 1]
    ensures Merging(a[i + j := y[i - 1]], x, j, y, i - 1, placed + [y[i - 1]])
  {
    TakeInOrder(x, j, y, i, placed);
    TakeRight(x, j, y, i, placed);
  }

  lemma MergingStep(a: seq<Id>, x: seq<Id>, j: nat, y: seq<Id>, i: nat, placed: seq<Id>)
    requires Merging(a, x, j, y, i, placed) && 0 < i && (forall m :: m in y ==> m <= ID_MAX)
    ensures a[j] < y[i - 1] ==>
      0 < j && Merging(a[i + j := a[j]], x, j - 1, y, i, placed + [a[j]])
    ensures a[j] >= y[i - 1] ==>
      Merging(a[i + j := y[i - 1]], x, j, y, i - 1, placed + [y[i - 1]])
  {
    if a[j] < y[i - 1] {
      MergingLeft(a, x, j, y, i, placed);
    } else {
      MergingRight(a, x, j, y, i, placed);
    }
  }

  lemma MergingDone(a: seq<Id>, x: seq<Id>, j: nat, y: seq<Id>, placed: seq<Id>)
    requires Merging(a, x, j, y, 0, placed)
    ensures Descending(a[1..|x| + |y| + 1])
    ensures multiset(a[1..|x| + |y| + 1]) == multiset(x) + multiset(y)
  {
    var s := a[1..|x| + |y| + 1];
    assert s[..j] == x[..j];
    forall q | 0 <= q < |placed| ensures s[|s| - 1 - q] == placed[q] {
      assert s[|s| - 1 - q] == a[|x| + |y| - q];
    }
    MergeDone(s, x, j, y, placed);
    MergeSorted(s, x, j, y, placed);
  }

  /** The loop of mdb_midl_xmerge, from the back, with the delimiter in slot 0. */
  method MergeBack(idl: array<Id>, merge: array<Id>, len: nat, ghost x: seq<Id>, ghost y: seq<Id>)
    returns (ghost rest: nat, ghost placed: seq<Id>)
    requires idl != merge && Valid(merge) && len + merge[0] < idl.Length
    requires |x| == len && y == Ids(merge) && forall m :: m in y ==> m <= ID_MAX
    requires Merging(idl[..], x, len, y, |y|, [])
    modifies idl
    ensures Merging(idl[..], x, rest, y, 0, placed)
  {
    placed := [];
    var i: nat, j: nat := merge[0], len;
    var oldId := idl[j];
    while i > 0
      invariant j <= |x| && i <= |y| && oldId == idl[j]
      invariant Merging(idl[..], x, j, y, i, placed)
      decreases i + j
    {
      ghost var a := idl[..];
      MergingStep(a, x, j, y, i, placed);
      var v := if oldId < merge[i] then oldId else merge[i];
      idl[i + j] := v;
      placed := placed + [v];
      assert idl[..] == a[i + j := v];
      if oldId < merge[i] {
        j := j - 1;
      } else {
        i := i - 1;
      }
      oldId := idl[j];
    }
    rest := j;
  }

  /** mdb_midl_xmerge: merges `merge` into `idl` in place. */
  method XMerge(idl: array<Id>, merge: array<Id>)
    requires idl != merge && Valid(idl) && Valid(merge) && idl[0] + merge[0] < idl.Length
    requires forall m :: m in Ids(merge) ==> m <= ID_MAX
    requires Descending(Ids(idl)) && Descending(Ids(merge))
    modifies idl
    ensures Valid(idl) && idl[0] == old(idl[0]) + merge[0] && Descending(Ids(idl))
    ensures multiset(Ids(idl)) == multiset(old(Ids(idl))) + multiset(Ids(merge))
  {
    ghost var x, y := Ids(idl), Ids(merge);
    var len, total := idl[0], idl[0] + merge[0];
    idl[0] := ID_MAX;
    assert Merging(idl[..], x, len, y, |y|, []);
    ghost var j, placed := MergeBack(idl, merge, len, x, y);
    MergingDone(idl[..], x, j, y, placed);
    ghost var s := idl[..][1..total + 1];
    idl[0] := total;
    assert Ids(idl) == s;
  }

  // ---------------------------------------------------------------- appending a range

  /** n consecutive IDs from `id`, largest first. */
  function RangeDown(id: Id, n: nat): (s: seq<Id>)
    ensures |s| == n && forall i :: 0 <= i < n ==> s[i] == id + n - 1 - i
  {
    seq(n, i requires 0 <= i < n => id + n - 1 - i)
  }

  /** n | MDB_IDL_UM_MAX, whose bits are the lowest seventeen. */
  function WithMax(n: nat): (m: nat)
    ensures n <= m && UM_MAX <= m
  {
    n / (UM_MAX + 1) * (UM_MAX + 1) + UM_MAX
  }

  /** mdb_midl_grow: a larger list with the same entries. */
  method Grow(ids: array<Id>, num: nat) returns (larger: array<Id>)
    requires Valid(ids)
    ensures fresh(larger) && Valid(larger) && larger.Length == ids.Length + num && Ids(larger) == Ids(ids)
  {
    larger := new Id[ids.Length + num](i => 0);
    for i := 0 to ids.Length
      invariant larger[..i] == ids[..i]
    {
      larger[i] := ids[i];
    }
    assert larger[..ids.Length] == ids[..];
    assert forall i :: 0 <= i < ids.Length ==> larger[i] == larger[..ids.Length][i];
  }

  /** The entries the list had, then `left` slots, then the last IDs of the range. */
  ghost predicate Ranging(a: seq<Id>, s: seq<Id>, id: Id, n: nat, left: nat) {
    && left <= n && |s| + n < |a|
    && (forall i :: 0 <= i < |s| ==> a[i + 1] == s[i])
    && (forall i :: left <= i < n ==> a[|s| + 1 + i] == RangeDown(id, n)[i])
  }

  method FillRange(ids: array<Id>, ghost s: seq<Id>, len: nat, id: Id, n: nat)
    requires len == |s| && Ranging(ids[..], s, id, n, n)
    modifies ids
    ensures Ranging(ids[..], s, id, n, 0) && ids[0] == old(ids[0])
  {
    var left, next := n, id;
    while left > 0
      invariant 0 <= left <= n && next == id + n - left && Ranging(ids[..], s, id, n, left) && ids[0] == old(ids[0])
    {
      ids[len + left] := next;
      left, next := left - 1, next + 1;
    }
  }

  /** mdb_midl_append_range: the range goes behind the entries of the list, which grows if it must. */
  method AppendRange(ids: array<Id>, id: Id, n: nat) returns (out: array<Id>)
    requires Valid(ids)
    modifies ids
    ensures Valid(out) && (out == ids || fresh(out)) && Ids(out) == old(Ids(ids)) + RangeDown(id, n)
  {
    ghost var s := Ids(ids);
    var len := ids[0];
    out := ids;
    if len + n > ids.Length - 1 { out := Grow(ids, WithMax(n)); }
    out[0] := len + n;
    assert forall i :: 0 <= i < |s| ==> out[i + 1] == s[i];
    FillRange(out, s, len, id, n);
    assert out[1..len + n + 1] == s + RangeDown(id, n);
  }

  /** Copies the entries of the other list behind the first len ones. */
  method CopyBehind(out: array<Id>, len: nat, app: array<Id>)
    requires out != app && Valid(app) && len + app[0] < out.Length
    modifies out
    ensures forall k :: 0 <= k <= len ==> out[k] == old(out[k])
    ensures forall k :: len < k <= len + app[0] ==> out[k] == app[k - len]
  {
    for i := 0 to app[0]
      invariant forall k :: 0 <= k <= len ==> out[k] == old(out[k])
      invariant forall k :: len < k <= len + i ==> out[k] == app[k - len]
    {
      out[len + i + 1] := app[i + 1];
    }
  }

  /** mdb_midl_append_list: the entries of the other list go behind those of the list, which grows if it must. */
  method AppendList(ids: array<Id>, app: array<Id>) returns (out: array<Id>)
    requires ids != app && Valid(ids) && Valid(app)
    modifies ids
    ensures Valid(out) && (out == ids || fresh(out)) && Ids(out) == old(Ids(ids)) + old(Ids(app))
  {
    ghost var s, t := Ids(ids), Ids(app);
    var len, n := ids[0], app[0];
    out := ids;
    if len + n >= ids.Length - 1 { out := Grow(ids, n); }
    assert forall i :: 0 <= i < |s| ==> out[i + 1] == s[i];
    CopyBehind(out, len, app);
    out[0] := len + n;
    ghost var both := out[1..len + n + 1];
    forall k | 0 <= k < len + n ensures both[k] == (s + t)[k] {
      assert both[k] == out[k + 1];
      if k >= len { assert app[k + 1 - len] == t[k - len]; }
    }
    assert both == s + t;
  }
}
