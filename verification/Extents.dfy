/**
Where the nodes of a page lie: stretches of bytes that fill the page from `upper` to its end, without
gap or overlap, however nodes come, go, or change their size.
*/
module Extents {

  /** A stretch of bytes. */
  datatype Ext = Ext(at: nat, len: nat)

  ghost predicate Covers(xs: seq<Ext>, i: nat, o: nat) { i < |xs| && xs[i].at <= o < xs[i].at + xs[i].len }

  ghost predicate Covered(xs: seq<Ext>, o: nat) { exists i :: Covers(xs, i, o) }

  predicate Apart(a: Ext, b: Ext) { a.at + a.len <= b.at || b.at + b.len <= a.at }

  /** Even, not empty and between upper and the end. */
  predicate Proper(e: Ext, upper: nat, end: nat) {
    e.at % 2 == 0 && e.len % 2 == 0 && e.len > 0 && upper <= e.at && e.at + e.len <= end
  }

  ghost predicate Inside(xs: seq<Ext>, upper: nat, end: nat) {
    forall i :: 0 <= i < |xs| ==> Proper(xs[i], upper, end)
  }

  ghost predicate Disjoint(xs: seq<Ext>) {
    forall i, j :: 0 <= i < j < |xs| ==> Apart(xs[i], xs[j])
  }

  ghost predicate Full(xs: seq<Ext>, upper: nat, end: nat) {
    forall o :: upper <= o < end ==> Covered(xs, o)
  }

  /** The stretches tile the bytes from upper to the end. */
  ghost predicate Tiling(xs: seq<Ext>, upper: nat, end: nat) {
    && upper % 2 == 0 && end % 2 == 0 && upper <= end
    && Inside(xs, upper, end) && Disjoint(xs) && Full(xs, upper, end)
  }

  // ---------------------------------------------------------------- a new stretch below

  function Insert(xs: seq<Ext>, n: nat, e: Ext): (ys: seq<Ext>)
    requires n <= |xs|
    ensures |ys| == |xs| + 1 && ys[n] == e
    ensures (forall i :: 0 <= i < n ==> ys[i] == xs[i]) && forall i :: n < i < |ys| ==> ys[i] == xs[i - 1]
  {
    xs[..n] + [e] + xs[n..]
  }

  lemma InsertCovers(xs: seq<Ext>, n: nat, e: Ext, o: nat)
    requires n <= |xs|
    ensures Covered(xs, o) ==> Covered(Insert(xs, n, e), o)
    ensures e.at <= o < e.at + e.len ==> Covered(Insert(xs, n, e), o)
  {
    var ys := Insert(xs, n, e);
    if i: nat :| Covers(xs, i, o) { assert Covers(ys, if i < n then i else i + 1, o); }
    if e.at <= o < e.at + e.len { assert Covers(ys, n, o); }
  }

  lemma InsertTiles(xs: seq<Ext>, upper: nat, end: nat, n: nat, len: nat)
    requires Tiling(xs, upper, end) && n <= |xs| && 0 < len <= upper && len % 2 == 0
    ensures Tiling(Insert(xs, n, Ext(upper - len, len)), upper - len, end)
  {
    var e := Ext(upper - len, len);
    forall o | upper - len <= o < end ensures Covered(Insert(xs, n, e), o) { InsertCovers(xs, n, e, o); }
    InsertDisjoint(xs, upper, end, n, e);
  }

  lemma InsertDisjoint(xs: seq<Ext>, upper: nat, end: nat, n: nat, e: Ext)
    requires Inside(xs, upper, end) && Disjoint(xs) && n <= |xs| && e.at + e.len <= upper
    ensures Disjoint(Insert(xs, n, e))
  {
    var ys := Insert(xs, n, e);
    forall i, j | 0 <= i < j < |ys| ensures Apart(ys[i], ys[j]) {
      if i != n && j != n {
        assert ys[i] == xs[if i < n then i else i - 1] && ys[j] == xs[if j < n then j else j - 1];
      } else if i == n {
        assert Proper(xs[j - 1], upper, end);
      } else {
        assert Proper(xs[i], upper, end);
      }
    }
  }

  // ---------------------------------------------------------------- what lies below a point moves

  /** Stretches that begin below `at` move up by `d` (down if it is negative). */
  function Shifted(e: Ext, at: nat, d: int): Ext
    requires e.at + d >= 0
  {
    if e.at < at then Ext(e.at + d, e.len) else e
  }

  function ShiftAll(xs: seq<Ext>, at: nat, d: int): (ys: seq<Ext>)
    requires forall i :: 0 <= i < |xs| ==> xs[i].at + d >= 0
    ensures |ys| == |xs| && forall i :: 0 <= i < |xs| ==> ys[i] == Shifted(xs[i], at, d)
  {
    seq(|xs|, i requires 0 <= i < |xs| => Shifted(xs[i], at, d))
  }

  function Remove(xs: seq<Ext>, n: nat): (ys: seq<Ext>)
    requires n < |xs|
    ensures |ys| == |xs| - 1
    ensures (forall i :: 0 <= i < n ==> ys[i] == xs[i]) && forall i :: n <= i < |ys| ==> ys[i] == xs[i + 1]
  {
    xs[..n] + xs[n + 1..]
  }

  /** Another stretch lies wholly below or wholly above. */
  lemma BelowOrAbove(xs: seq<Ext>, n: nat, i: nat)
    requires Disjoint(xs) && n < |xs| && i < |xs| && i != n && xs[n].len > 0 && xs[i].len > 0
    ensures if xs[i].at < xs[n].at then xs[i].at + xs[i].len <= xs[n].at else xs[n].at + xs[n].len <= xs[i].at
  {
    assert i < n ==> Apart(xs[i], xs[n]);
    assert n < i ==> Apart(xs[n], xs[i]);
  }

  /** A stretch goes and what lies below it moves up to close the gap. */
  function Closed(xs: seq<Ext>, n: nat): seq<Ext>
    requires n < |xs|
  {
    Remove(ShiftAll(xs, xs[n].at, xs[n].len), n)
  }

  lemma ClosedInside(xs: seq<Ext>, upper: nat, end: nat, n: nat)
    requires Inside(xs, upper, end) && Disjoint(xs) && n < |xs|
    ensures Inside(Closed(xs, n), upper + xs[n].len, end)
  {
    var ys := Closed(xs, n);
    forall i | 0 <= i < |ys| ensures Proper(ys[i], upper + xs[n].len, end) {
      var j := if i < n then i else i + 1;
      assert ys[i] == Shifted(xs[j], xs[n].at, xs[n].len);
      assert Proper(xs[j], upper, end) && Proper(xs[n], upper, end);
      BelowOrAbove(xs, n, j);
    }
  }

  lemma ClosedDisjoint(xs: seq<Ext>, upper: nat, end: nat, n: nat)
    requires Inside(xs, upper, end) && Disjoint(xs) && n < |xs|
    ensures Disjoint(Closed(xs, n))
  {
    var ys := Closed(xs, n);
    forall i, j | 0 <= i < j < |ys| ensures Apart(ys[i], ys[j]) {
      var a, b := if i < n then i else i + 1, if j < n then j else j + 1;
      assert ys[i] == Shifted(xs[a], xs[n].at, xs[n].len) && ys[j] == Shifted(xs[b], xs[n].at, xs[n].len);
      assert Apart(xs[a], xs[b]) && Proper(xs[a], upper, end) && Proper(xs[b], upper, end) && Proper(xs[n], upper, end);
      BelowOrAbove(xs, n, a);
      BelowOrAbove(xs, n, b);
    }
  }

  lemma ClosedFull(xs: seq<Ext>, upper: nat, end: nat, n: nat)
    requires Tiling(xs, upper, end) && n < |xs|
    ensures Full(Closed(xs, n), upper + xs[n].len, end)
  {
    var ys, at, len := Closed(xs, n), xs[n].at, xs[n].len;
    assert Proper(xs[n], upper, end);
    forall o | upper + len <= o < end ensures Covered(ys, o) {
      var o' := if o < at + len then o - len else o;
      assert Covered(xs, o');
      var i: nat :| Covers(xs, i, o');
      assert Proper(xs[i], upper, end);
      if i != n {
        BelowOrAbove(xs, n, i);
        var j := if i < n then i else i - 1;
        assert ys[j] == Shifted(xs[i], at, len);
        assert Covers(ys, j, o);
      }
    }
  }

  lemma ClosedTiles(xs: seq<Ext>, upper: nat, end: nat, n: nat)
    requires Tiling(xs, upper, end) && n < |xs|
    ensures Proper(xs[n], upper, end) && Tiling(Closed(xs, n), upper + xs[n].len, end)
  {
    assert Proper(xs[n], upper, end);
    ClosedInside(xs, upper, end, n);
    ClosedDisjoint(xs, upper, end, n);
    ClosedFull(xs, upper, end, n);
  }

  // ---------------------------------------------------------------- one stretch grows or shrinks

  /** The end of stretch n stays; its start, and all below it, moves down by `d` (up if negative). */
  function Resized(xs: seq<Ext>, n: nat, d: int): (ys: seq<Ext>)
    requires n < |xs| && xs[n].len + d >= 0 && forall i :: 0 <= i < |xs| ==> xs[i].at >= d
    ensures |ys| == |xs|
    ensures forall i :: 0 <= i < |xs| && i != n ==> ys[i] == Shifted(xs[i], xs[n].at, -d)
    ensures ys[n] == Ext(xs[n].at - d, xs[n].len + d)
  {
    ShiftAll(xs, xs[n].at, -d)[n := Ext(xs[n].at - d, xs[n].len + d)]
  }

  ghost predicate CanResize(xs: seq<Ext>, upper: nat, end: nat, n: nat, d: int) {
    && n < |xs| && d % 2 == 0 && d <= upper && xs[n].len + d > 0
    && Inside(xs, upper, end) && Disjoint(xs)
  }

  lemma ResizedInside(xs: seq<Ext>, upper: nat, end: nat, n: nat, d: int)
    requires CanResize(xs, upper, end, n, d) && upper % 2 == 0
    ensures (forall i :: 0 <= i < |xs| ==> xs[i].at >= d) && Inside(Resized(xs, n, d), upper - d, end)
  {
    forall i | 0 <= i < |xs| ensures xs[i].at >= d { assert Proper(xs[i], upper, end); }
    var ys := Resized(xs, n, d);
    forall i | 0 <= i < |ys| ensures Proper(ys[i], upper - d, end) {
      assert Proper(xs[i], upper, end) && Proper(xs[n], upper, end);
      if i != n { BelowOrAbove(xs, n, i); }
    }
  }

  lemma ResizedDisjoint(xs: seq<Ext>, upper: nat, end: nat, n: nat, d: int)
    requires CanResize(xs, upper, end, n, d) && forall i :: 0 <= i < |xs| ==> xs[i].at >= d
    ensures Disjoint(Resized(xs, n, d))
  {
    var ys := Resized(xs, n, d);
    forall i, j | 0 <= i < j < |ys| ensures Apart(ys[i], ys[j]) {
      assert Apart(xs[i], xs[j]) && Proper(xs[i], upper, end) && Proper(xs[j], upper, end) && Proper(xs[n], upper, end);
      if i != n { BelowOrAbove(xs, n, i); }
      if j != n { BelowOrAbove(xs, n, j); }
    }
  }

  lemma ResizedFull(xs: seq<Ext>, upper: nat, end: nat, n: nat, d: int)
    requires Tiling(xs, upper, end) && CanResize(xs, upper, end, n, d) && forall i :: 0 <= i < |xs| ==> xs[i].at >= d
    ensures Full(Resized(xs, n, d), upper - d, end)
  {
    var ys, at := Resized(xs, n, d), xs[n].at;
    assert Proper(xs[n], upper, end);
    forall o | upper - d <= o < end ensures Covered(ys, o) {
      if at - d <= o < at + xs[n].len {
        assert Covers(ys, n, o);
      } else {
        var o' := if o < at - d then o + d else o;
        assert Covered(xs, o');
        var i: nat :| Covers(xs, i, o');
        assert Proper(xs[i], upper, end);
        if i != n {
          BelowOrAbove(xs, n, i);
          assert Covers(ys, i, o);
        }
      }
    }
  }

  lemma ResizedTiles(xs: seq<Ext>, upper: nat, end: nat, n: nat, d: int)
    requires Tiling(xs, upper, end) && CanResize(xs, upper, end, n, d)
    ensures (forall i :: 0 <= i < |xs| ==> xs[i].at >= d) && Tiling(Resized(xs, n, d), upper - d, end)
  {
    ResizedInside(xs, upper, end, n, d);
    ResizedDisjoint(xs, upper, end, n, d);
    ResizedFull(xs, upper, end, n, d);
    assert Proper(xs[n], upper, end);
  }
}
