/**
Spill lists: descending lists of page numbers shifted left by one; an odd entry is deleted.  A child
transaction's dirty pages are taken off its parent's spill list (mdb_txn_commit).
*/
module SpillList {
  import opened IdList
  import IdSort

  /** An entry may stand before another: it is larger, or both are the same deleted entry. */
  predicate Precedes(p: Id, q: Id) { p > q || (p == q && p % 2 == 1) }

  ghost predicate SpillOrder(s: seq<Id>) {
    forall i, j :: 0 <= i < j < |s| ==> Precedes(s[i], s[j])
  }

  /** The entries that are not deleted. */
  ghost function Live(s: seq<Id>): set<Id> { set v | v in s && v % 2 == 0 }

  ghost predicate Doubles(m: seq<Id>) {
    && (forall j :: 0 <= j < |m| ==> m[j] % 2 == 0 && m[j] < ID_MAX)
    && forall i, j :: 0 <= i < j < |m| ==> m[i] < m[j]
  }

  // ---------------------------------------------------------------- marking

  /** Entries above x are compared with the pages before i; y is below everything marked. */
  ghost predicate Marking(s: seq<Id>, m: seq<Id>, a: seq<Id>, i: nat, x: nat, y: nat) {
    && |s| < |a| && i <= |m| && x <= y <= |s| && a[0] == ID_MAX
    && (forall k :: 0 <= k < x ==> a[k + 1] == s[k])
    && (forall k :: x <= k < |s| ==> a[k + 1] == if s[k] in m[..i] then 1 else s[k])
    && (forall k :: x <= k < y ==> s[k] !in m[..i])
    && (forall k, j :: x <= k < |s| && i <= j < |m| ==> s[k] < m[j])
    && (forall k, j :: 0 <= k < x && 0 <= j < i ==> s[k] > m[j])
  }

  lemma MarkSkip(s: seq<Id>, m: seq<Id>, a: seq<Id>, i: nat, x: nat, y: nat)
    requires Marking(s, m, a, i, x, y) && Doubles(m) && i < |m| && 0 < x && m[i] > a[x]
    ensures Marking(s, m, a, i, x - 1, y)
  {
    assert a[x] == s[x - 1];
    assert s[x - 1] !in m[..i];
  }

  lemma MarkHit(s: seq<Id>, m: seq<Id>, a: seq<Id>, i: nat, x: nat, y: nat)
    requires Marking(s, m, a, i, x, y) && Doubles(m) && SpillOrder(s) && i < |m| && 0 < x && m[i] == a[x]
    ensures Marking(s, m, a[x := 1], i + 1, x - 1, x - 1)
  {
    var b := a[x := 1];
    assert m[..i + 1] == m[..i] + [m[i]] && s[x - 1] == m[i];
    forall k | x <= k < |s| ensures b[k + 1] == if s[k] in m[..i + 1] then 1 else s[k] {
      assert b[k + 1] == a[k + 1];
    }
    forall k | 0 <= k < x - 1 ensures s[k] > m[i] { assert Precedes(s[k], s[x - 1]); }
  }

  lemma MarkMiss(s: seq<Id>, m: seq<Id>, a: seq<Id>, i: nat, x: nat, y: nat)
    requires Marking(s, m, a, i, x, y) && Doubles(m) && SpillOrder(s) && i < |m| && (0 < x ==> a[x] > m[i])
    ensures Marking(s, m, a, i + 1, x, y)
  {
    assert m[..i + 1] == m[..i] + [m[i]];
    forall k | 0 <= k < x ensures s[k] > m[i] { if k < x - 1 { assert Precedes(s[k], s[x - 1]); } }
  }

  /** The list with the given pages deleted. */
  function Marked(s: seq<Id>, m: seq<Id>): (b: seq<Id>)
    ensures |b| == |s| && forall k :: 0 <= k < |b| ==> b[k] == if s[k] in m then 1 else s[k]
  {
    seq(|s|, k requires 0 <= k < |s| => if s[k] in m then 1 else s[k])
  }

  lemma MarkDone(s: seq<Id>, m: seq<Id>, a: seq<Id>, x: nat, y: nat)
    requires Marking(s, m, a, |m|, x, y)
    ensures forall k :: 0 <= k < |s| ==> a[k + 1] == Marked(s, m)[k]
    ensures Marked(s, m)[..y] == s[..y]
  {
    assert m[..|m|] == m;
  }

  // ---------------------------------------------------------------- squashing

  function Evens(s: seq<Id>): seq<Id> {
    if s == [] then []
    else if s[|s| - 1] % 2 == 0 then Evens(s[..|s| - 1]) + [s[|s| - 1]]
    else Evens(s[..|s| - 1])
  }

  /** The first y entries, and of the next ones up to x those that are not deleted. */
  function Kept(b: seq<Id>, y: nat, x: nat): seq<Id>
    requires y <= x <= |b|
  {
    b[..y] + Evens(b[y..x])
  }

  lemma {:induction false} EvensIn(s: seq<Id>, v: Id)
    ensures v in Evens(s) <==> v in s && v % 2 == 0
  {
    if s != [] {
      EvensIn(s[..|s| - 1], v);
      assert s == s[..|s| - 1] + [s[|s| - 1]];
    }
  }

  lemma KeptStep(b: seq<Id>, y: nat, x: nat)
    requires y <= x < |b|
    ensures Kept(b, y, x + 1) == if b[x] % 2 == 0 then Kept(b, y, x) + [b[x]] else Kept(b, y, x)
  {
    assert b[y..x + 1][..x - y] == b[y..x];
  }

  lemma {:induction false} KeptShort(b: seq<Id>, y: nat, x: nat)
    requires y <= x <= |b|
    ensures |Kept(b, y, x)| <= x
  {
    if y < x {
      KeptShort(b, y, x - 1);
      KeptStep(b, y, x - 1);
    } else {
      assert b[y..x] == [];
    }
  }

  /** Appending a later entry keeps the order. */
  lemma OrderSnoc(kept: seq<Id>, s: seq<Id>, x: nat)
    requires SpillOrder(s) && SpillOrder(kept) && x < |s| && forall v :: v in kept ==> v in s[..x]
    ensures SpillOrder(kept + [s[x]])
  {
    forall i | 0 <= i < |kept| ensures Precedes(kept[i], s[x]) {
      assert kept[i] in s[..x];
    }
  }

  lemma KeptNone(b: seq<Id>, y: nat)
    requires y <= |b|
    ensures Kept(b, y, y) == b[..y]
  {
    assert b[y..y] == [];
  }

  lemma OrderPrefix(s: seq<Id>, y: nat)
    requires SpillOrder(s) && y <= |s|
    ensures SpillOrder(s[..y])
  {
  }

  lemma {:induction false} KeptIn(s: seq<Id>, m: seq<Id>, y: nat, x: nat)
    requires y <= x <= |s| && Marked(s, m)[..y] == s[..y]
    ensures forall v :: v in Kept(Marked(s, m), y, x) ==> v in s[..x]
  {
    if y < x {
      KeptIn(s, m, y, x - 1);
      KeptStep(Marked(s, m), y, x - 1);
      assert s[..x] == s[..x - 1] + [s[x - 1]];
    } else {
      KeptNone(Marked(s, m), y);
    }
  }

  lemma KeptGrows(s: seq<Id>, m: seq<Id>, y: nat, x: nat)
    requires SpillOrder(s) && y <= x < |s| && Marked(s, m)[..y] == s[..y] && SpillOrder(Kept(Marked(s, m), y, x))
    ensures SpillOrder(Kept(Marked(s, m), y, x + 1))
  {
    KeptIn(s, m, y, x);
    KeptStep(Marked(s, m), y, x);
    OrderSnoc(Kept(Marked(s, m), y, x), s, x);
  }

  /** What is kept is in the order of the old list. */
  lemma {:induction false} KeptOrder(s: seq<Id>, m: seq<Id>, y: nat, x: nat)
    requires SpillOrder(s) && y <= x <= |s| && Marked(s, m)[..y] == s[..y]
    ensures SpillOrder(Kept(Marked(s, m), y, x))
  {
    if y < x {
      KeptOrder(s, m, y, x - 1);
      KeptGrows(s, m, y, x - 1);
    } else {
      KeptNone(Marked(s, m), y);
      OrderPrefix(s, y);
    }
  }

  /** What is kept lives as before, but for the given pages. */
  lemma KeptLive(s: seq<Id>, m: seq<Id>, y: nat)
    requires y <= |s| && Doubles(m)
    ensures Live(Kept(Marked(s, m), y, |s|)) == Live(s) - (set v | v in m)
  {
    var b := Marked(s, m);
    forall v ensures v in Live(Kept(b, y, |s|)) <==> v in Live(s) && v !in m {
      EvensIn(b[y..|s|], v);
      assert b == b[..y] + b[y..|s|];
      assert v in b && v % 2 == 0 <==> v in Live(s) && v !in m by { MarkedIn(s, m, v); }
    }
  }

  lemma MarkedIn(s: seq<Id>, m: seq<Id>, v: Id)
    ensures v in Marked(s, m) && v % 2 == 0 <==> v in s && v % 2 == 0 && v !in m
  {
    var b := Marked(s, m);
    if v in s && v !in m {
      var k :| 0 <= k < |s| && s[k] == v;
      assert b[k] == v;
    }
  }

  ghost predicate Squashing(b: seq<Id>, a: seq<Id>, y0: nat, x: nat, y: nat) {
    && |b| < |a| && y0 <= x <= |b| && y <= x
    && a[1..y + 1] == Kept(b, y0, x)
    && forall k :: x <= k < |b| ==> a[k + 1] == b[k]
  }

  lemma SquashStart(b: seq<Id>, a: seq<Id>, y: nat)
    requires |b| < |a| && y <= |b| && forall k :: 0 <= k < |b| ==> a[k + 1] == b[k]
    ensures Squashing(b, a, y, y, y)
  {
    assert b[y..y] == [];
    assert a[1..y + 1] == b[..y];
  }

  lemma SquashKeep(b: seq<Id>, a: seq<Id>, y0: nat, x: nat, y: nat)
    requires Squashing(b, a, y0, x, y) && x < |b| && a[x + 1] % 2 == 0
    ensures Squashing(b, a[y + 1 := a[x + 1]], y0, x + 1, y + 1)
  {
    KeptStep(b, y0, x);
    assert a[y + 1 := a[x + 1]][1..y + 2] == a[1..y + 1] + [b[x]];
  }

  lemma SquashDrop(b: seq<Id>, a: seq<Id>, y0: nat, x: nat, y: nat)
    requires Squashing(b, a, y0, x, y) && x < |b| && a[x + 1] % 2 == 1
    ensures Squashing(b, a, y0, x + 1, y)
  {
    KeptStep(b, y0, x);
  }

  // ---------------------------------------------------------------- the loops

  method SkipSmaller(a: array<Id>, ghost s: seq<Id>, ghost m: seq<Id>, ghost i: nat, pn: Id, x0: nat, ghost y: nat)
    returns (x: nat)
    requires Marking(s, m, a[..], i, x0, y) && Doubles(m) && i < |m| && m[i] == pn
    ensures x <= x0 && Marking(s, m, a[..], i, x, y) && (0 < x ==> a[x] >= pn)
  {
    x := x0;
    while pn > a[x]
      invariant x <= x0 && Marking(s, m, a[..], i, x, y)
      decreases x
    {
      MarkSkip(s, m, a[..], i, x, y);
      x := x - 1;
    }
  }

  /** Marks the given pages as deleted, walking both lists once. */
  method Mark(a: array<Id>, n: nat, ghost s: seq<Id>, m: seq<Id>) returns (y: nat, ghost x': nat)
    requires n == |s| && Doubles(m) && SpillOrder(s) && Marking(s, m, a[..], 0, n, n)
    modifies a
    ensures Marking(s, m, a[..], |m|, x', y)
  {
    var i: nat, x: nat := 0, n;
    y := n;
    while i < |m|
      invariant Marking(s, m, a[..], i, x, y)
    {
      x := SkipSmaller(a, s, m, i, m[i], x, y);
      if m[i] == a[x] {
        MarkHit(s, m, a[..], i, x, y);
        a[x] := 1;
        x := x - 1;
        y := x;
      } else {
        MarkMiss(s, m, a[..], i, x, y);
      }
      i := i + 1;
    }
    x' := x;
  }

  /** Closes the gaps. */
  method Squash(a: array<Id>, n: nat, ghost b: seq<Id>, y0: nat) returns (y: nat)
    requires n == |b| && Squashing(b, a[..], y0, y0, y0)
    modifies a
    ensures Squashing(b, a[..], y0, n, y)
  {
    var x: nat := y0;
    y := y0;
    while x < n
      invariant Squashing(b, a[..], y0, x, y)
    {
      if a[x + 1] % 2 == 0 {
        SquashKeep(b, a[..], y0, x, y);
        y := y + 1;
        a[y] := a[x + 1];
      } else {
        SquashDrop(b, a[..], y0, x, y);
      }
      x := x + 1;
    }
  }

  lemma MarkStart(s: seq<Id>, m: seq<Id>, a: seq<Id>)
    requires |s| < |a| && a[0] == ID_MAX && a[1..|s| + 1] == s
    ensures Marking(s, m, a, 0, |s|, |s|)
  {
    forall k | 0 <= k < |s| ensures a[k + 1] == s[k] { assert a[1..|s| + 1][k] == a[k + 1]; }
  }

  /** Takes pages off a spill list: they are gone, every other page stays, and the order is kept. */
  method Unlist(spill: array<Id>, m: seq<Id>)
    requires Valid(spill) && SpillOrder(Ids(spill)) && Doubles(m)
    modifies spill
    ensures Valid(spill) && SpillOrder(Ids(spill)) && spill[0] <= old(spill[0])
    ensures Live(Ids(spill)) == Live(old(Ids(spill))) - (set v | v in m)
  {
    ghost var s := Ids(spill);
    var n := spill[0];
    spill[0] := ID_MAX;
    MarkStart(s, m, spill[..]);
    var y, x' := Mark(spill, n, s, m);
    MarkDone(s, m, spill[..], x', y);
    ghost var y0, b := y, Marked(s, m);
    SquashStart(b, spill[..], y);
    y := Squash(spill, n, b, y);
    KeptOrder(s, m, y0, n);
    KeptLive(s, m, y0);
    ghost var kept := Kept(b, y0, n);
    assert spill[1..y + 1] == spill[..][1..y + 1] == kept;
    spill[0] := y;
    assert spill[1..y + 1] == kept;
  }

  // ---------------------------------------------------------------- joining

  lemma JoinedOnce(x: seq<Id>, v: Id)
    requires SpillOrder(x) && v % 2 == 0
    ensures multiset(x)[v] <= 1 && (multiset(x)[v] == 1 <==> v in Live(x))
    decreases |x|
  {
    if x != [] {
      var r, y := x[..|x| - 1], x[|x| - 1];
      assert x == r + [y];
      JoinedOnce(r, v);
      if y == v {
        forall e | e in r ensures e != v {
          var i :| 0 <= i < |r| && r[i] == e;
          assert Precedes(x[i], x[|x| - 1]);
        }
      }
    }
  }

  /** Two spill lists that share no page, sorted into one. */
  lemma JoinedOrder(h: seq<Id>, x: seq<Id>, y: seq<Id>)
    requires Descending(h) && multiset(h) == multiset(x) + multiset(y)
    requires SpillOrder(x) && SpillOrder(y) && Live(x) !! Live(y)
    ensures SpillOrder(h) && Live(h) == Live(x) + Live(y)
  {
    assert forall v :: v in h <==> v in multiset(h);
    assert forall v :: v in x <==> v in multiset(x);
    assert forall v :: v in y <==> v in multiset(y);
    forall i, j | 0 <= i < j < |h| ensures Precedes(h[i], h[j]) {
      var v := h[i];
      if v == h[j] && v % 2 == 0 {
        TwiceThere(h, i, j);
        JoinedOnce(x, v);
        JoinedOnce(y, v);
      }
    }
  }

  lemma TwiceThere(h: seq<Id>, i: nat, j: nat)
    requires i < j < |h| && h[i] == h[j]
    ensures multiset(h)[h[i]] >= 2
  {
    assert h == h[..i + 1] + h[i + 1..];
    assert h[i] in h[..i + 1] && h[..i + 1][i] == h[i];
    assert h[i + 1..][j - i - 1] == h[j];
  }

  /** The spill list of a child that commits joins its parent's.  The result is false where the sort fails. */
  method Join(spill: array<Id>, own: array<Id>) returns (ok: bool, out: array<Id>)
    requires spill != own && Valid(spill) && Valid(own) && SpillOrder(Ids(spill)) && SpillOrder(Ids(own))
    requires Live(Ids(spill)) !! Live(Ids(own))
    modifies spill
    ensures old(spill[0] + own[0]) <= IdSort.MAX_SORT ==> ok
    ensures ok ==> Valid(out) && SpillOrder(Ids(out)) && Live(Ids(out)) == old(Live(Ids(spill))) + old(Live(Ids(own)))
  {
    ghost var x, y := Ids(spill), Ids(own);
    out := AppendList(spill, own);
    ghost var both := Ids(out);
    assert |both| == out[0] == |x| + |y|;
    ok := IdSort.Sort(out);
    if ok { JoinedOrder(Ids(out), x, y); }
  }
}
