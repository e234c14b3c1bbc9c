/**
Reading with a cursor (mdb_cursor_first, _last, _next, _prev and _set): wherever the pages lie, the
cursor moves through the entries of the database in order, one by one.
*/
module Cursor {
  import opened Common
  import opened BTree
  import opened CursorPath
  import NodeSearch
  import Database

  // ---------------------------------------------------------------- descending

  /** Of the sorted pairs, the ones before the given stretch are below the key, the ones after above. */
  ghost predicate Around(p: seq<Pair>, start: nat, len: nat, rank: int) {
    && (forall i :: 0 <= i < start && i < |p| ==> p[i].rank < rank)
    && (forall i :: start + len <= i < |p| ==> p[i].rank > rank)
  }

  /** Everything before the top page is below the key, everything after it above. */
  ghost predicate Narrow(root: Tree, s: Spot, rank: int)
    requires |s.pg| == |s.ki| > 0
  {
    Around(Pairs(root), Start(s), Size(Top(s)), rank)
  }

  lemma AroundPart(p: seq<Pair>, a: nat, x: seq<Pair>, y: seq<Pair>, z: seq<Pair>, rank: int)
    requires a + |x| + |y| + |z| <= |p| && p[a..a + |x| + |y| + |z|] == x + y + z
    requires Around(p, a, |x| + |y| + |z|, rank)
    requires (forall i :: 0 <= i < |x| ==> x[i].rank < rank) && forall i :: 0 <= i < |z| ==> z[i].rank > rank
    ensures Around(p, a + |x|, |y|, rank)
  {
    var m := x + y + z;
    forall i | a <= i < a + |m| ensures p[i] == m[i - a] { assert p[a..a + |m|][i - a] == p[i]; }
    forall i | a <= i < a + |x| ensures p[i].rank < rank { assert m[i - a] == x[i - a]; }
    forall i | a + |x| + |y| <= i < a + |m| ensures p[i].rank > rank { assert m[i - a] == z[i - a - |x| - |y|]; }
  }

  lemma BeforeStretch(p: seq<Pair>, a: nat, q: seq<Pair>, rank: int)
    requires a + |q| <= |p| && p[a..a + |q|] == q && Sorted(p) && Around(p, a, |q|, rank)
    ensures Sorted(q) && Before(p, rank) == a + Before(q, rank)
  {
    forall i | 0 <= i < |q| ensures q[i] == p[a + i] { assert p[a..a + |q|][i] == p[a + i]; }
    BeforeIs(q, rank);
    forall i | 0 <= i < |p| ensures i < a + Before(q, rank) <==> p[i].rank < rank {
      if a <= i < a + |q| { assert p[i] == q[i - a]; }
    }
    BeforeUnique(p, rank, a + Before(q, rank));
  }

  /** On the page a search for the key leads to, the key's place in the page gives its place overall. */
  lemma FromPage(root: Tree, d: nat, s: Spot, e: nat, rank: int)
    requires Path(root, d, s, e) && Sorted(Pairs(root)) && Narrow(root, s, rank)
    ensures Sorted(Pairs(Top(s))) && Before(Pairs(root), rank) == Start(s) + Before(Pairs(Top(s)), rank)
  {
    Located(root, d, s, e);
    BeforeStretch(Pairs(root), Start(s), Pairs(Top(s)), rank);
  }

  /** Below the page, what is left of child i is below the key and what is right of it above. */
  ghost predicate Parts(t: Tree, i: nat, rank: int)
    requires t.Branch? && i < |t.kids|
  {
    var x, z := AllPairs(t.kids[..i]), AllPairs(t.kids[i + 1..]);
    && Pairs(t) == x + Pairs(t.kids[i]) + z
    && (forall j :: 0 <= j < |x| ==> x[j].rank < rank) && (forall j :: 0 <= j < |z| ==> z[j].rank > rank)
  }

  lemma ChildParts(t: Tree, lo: int, hi: int, d: nat, psize: nat, i: nat, rank: int)
    requires t.Branch? && WF(t, lo, hi, d, psize) && i < |t.kids|
    requires Lo(t.seps, i, lo) <= rank < Hi(t.seps, i, hi)
    ensures Parts(t, i, rank)
  {
    AroundChild(t, lo, hi, d, psize, i);
  }

  /** Descending to the child that covers the key keeps the search narrow. */
  lemma NarrowChild(root: Tree, d: nat, s: Spot, e: nat, rank: int)
    requires Path(root, d, s, e) && Narrow(root, s, rank) && Top(s).Branch?
    requires Index(s) < |Top(s).kids| && Parts(Top(s), Index(s), rank)
    ensures Enter(s, true).Some? && Narrow(root, Enter(s, true).value, rank)
  {
    var t, i := Top(s), Index(s);
    EnterOk(root, d, s, e, true);
    Located(root, d, s, e);
    AroundPart(Pairs(root), Start(s), AllPairs(t.kids[..i]), Pairs(t.kids[i]), AllPairs(t.kids[i + 1..]), rank);
  }

  /** The page is where the search for the key is, and its keys are within bounds that take the key in. */
  ghost predicate Seeking(root: Tree, d: nat, s: Spot, e: nat, rank: int, lo: int, hi: int, psize: nat) {
    && Path(root, d, s, e) && Narrow(root, s, rank) && WF(Top(s), lo, hi, e, psize) && Enough(Top(s)) && lo <= rank < hi
  }

  function SetIndex(s: Spot, i: nat): Spot
    requires |s.pg| == |s.ki| > 0
  {
    Spot(s.pg, s.ki[|s.ki| - 1 := i])
  }

  lemma SetIndexOk(root: Tree, d: nat, s: Spot, e: nat, i: nat)
    requires Path(root, d, s, e)
    ensures var v := SetIndex(s, i);
      Path(root, d, v, e) && Start(v) == Start(s) && Top(v) == Top(s) && Index(v) == i
  {
    assert Pop(SetIndex(s, i)) == Pop(s);
  }

  lemma SeekStep(root: Tree, d: nat, s: Spot, e: nat, rank: int, lo: int, hi: int, psize: nat)
    requires Seeking(root, d, s, e, rank, lo, hi, psize) && Top(s).Branch? && Index(s) == ChildIndex(Top(s).seps, rank)
    ensures e > 1 && Enter(s, true).Some?
    ensures Seeking(root, d, Enter(s, true).value, e - 1, rank,
                    Lo(Top(s).seps, Index(s), lo), Hi(Top(s).seps, Index(s), hi), psize)
    ensures Index(Enter(s, true).value) == 0
  {
    ChildCovers(Top(s).seps, rank);
    ChildParts(Top(s), lo, hi, e, psize, Index(s), rank);
    NarrowChild(root, d, s, e, rank);
    EnterOk(root, d, s, e, true);
  }

  /** One step of mdb_page_search_root for a key. */
  method SeekDown(root: Tree, ghost d: nat, s: Spot, ghost e: nat, rank: int, ghost lo: int, ghost hi: int, psize: nat)
    returns (u: Spot, ghost bot: int, ghost top: int)
    requires Seeking(root, d, s, e, rank, lo, hi, psize) && Top(s).Branch?
    ensures e > 1 && Seeking(root, d, u, e - 1, rank, bot, top, psize) && Index(u) == 0
  {
    var t := Top(s);
    var i := NodeSearch.Follow(t.seps, rank);
    SetIndexOk(root, d, s, e, i);
    var v := SetIndex(s, i);
    SeekStep(root, d, v, e, rank, lo, hi, psize);
    u := Enter(v, true).value;
    bot, top := Lo(t.seps, i, lo), Hi(t.seps, i, hi);
  }

  /** mdb_page_search for a key: the path to the leaf that covers it. */
  method Seek(root: Tree, ghost d: nat, rank: int, ghost lo: int, ghost hi: int, psize: nat) returns (s: Spot)
    requires WF(root, lo, hi, d, psize) && Enough(root)
    ensures Path(root, d, s, 1) && Narrow(root, s, rank) && Index(s) == 0
  {
    ghost var bot, top, e := Database.Min(lo, rank), Database.Max(hi, rank + 1), d;
    Database.Stretch(root, lo, hi, rank, d, psize);
    WFLevel(root, lo, hi, d, psize);
    s := Spot([root], [0]);
    while Top(s).Branch?
      invariant Seeking(root, d, s, e, rank, bot, top, psize) && Index(s) == 0
      decreases e
    {
      s, bot, top := SeekDown(root, d, s, e, rank, bot, top, psize);
      e := e - 1;
    }
  }

  /** mdb_page_search with MDB_PS_FIRST or MDB_PS_LAST: the path to the first or the last leaf. */
  method Edge(root: Tree, ghost d: nat, last: bool) returns (s: Spot)
    requires Level(root, d)
    ensures Path(root, d, s, 1)
    ensures if last then Start(s) + Size(Top(s)) == Size(root) else Start(s) == 0
  {
    ghost var e := d;
    s := Spot([root], [0]);
    while Top(s).Branch?
      invariant e > 0 && Path(root, d, s, e)
      invariant if last then Start(s) + Size(Top(s)) == Size(root) else Start(s) == 0
      decreases e
    {
      s := EdgeDown(root, d, s, e, last);
      e := e - 1;
    }
    PathLevel(root, d, s, e);
  }

  /** The first or last child starts or ends where the page does. */
  lemma EdgeChild(root: Tree, d: nat, v: Spot, e: nat, last: bool)
    requires Path(root, d, v, e) && Top(v).Branch? && |Top(v).kids| > 0
    requires Index(v) == if last then |Top(v).kids| - 1 else 0
    ensures e > 1 && Enter(v, true).Some? && Path(root, d, Enter(v, true).value, e - 1)
    ensures var u := Enter(v, true).value;
      if last then Start(u) + Size(Top(u)) == Start(v) + Size(Top(v)) else Start(u) == Start(v)
  {
    EnterOk(root, d, v, e, true);
    UnderAll(Top(v));
    UnderStep(Top(v), Index(v));
  }

  method EdgeDown(root: Tree, ghost d: nat, s: Spot, ghost e: nat, last: bool) returns (u: Spot)
    requires Path(root, d, s, e) && Top(s).Branch?
    requires if last then Start(s) + Size(Top(s)) == Size(root) else Start(s) == 0
    ensures e > 1 && Path(root, d, u, e - 1)
    ensures if last then Start(u) + Size(Top(u)) == Size(root) else Start(u) == 0
  {
    PathLevel(root, d, s, e);
    var i: nat := if last then |Top(s).kids| - 1 else 0;
    SetIndexOk(root, d, s, e, i);
    var v := SetIndex(s, i);
    EdgeChild(root, d, v, e, last);
    u := Enter(v, true).value;
  }

  // ---------------------------------------------------------------- moving

  /** The stack ends on a leaf, on one of its entries or just behind them. */
  ghost predicate Stands(root: Tree, d: nat, s: Spot) {
    Path(root, d, s, 1) && Top(s).Leaf? && Index(s) <= |Top(s).es|
  }

  ghost function Pos(s: Spot): nat
    requires |s.pg| == |s.ki| > 0
  {
    Start(s) + Index(s)
  }

  ghost predicate AtEnd(root: Tree, s: Spot)
    requires |s.pg| == |s.ki| > 0
  {
    Start(s) + Size(Top(s)) == Size(root)
  }

  /** Path to a leaf level page: it is a leaf with entries. */
  lemma LeafThere(root: Tree, d: nat, s: Spot)
    requires Path(root, d, s, 1)
    ensures Top(s).Leaf? && |Top(s).es| == Size(Top(s)) > 0
  {
    PathLevel(root, d, s, 1);
  }

  /** The entry the cursor is on. */
  lemma EntryAt(root: Tree, d: nat, s: Spot)
    requires Stands(root, d, s) && Index(s) < |Top(s).es|
    ensures Pos(s) < Size(root)
    ensures Pairs(root)[Pos(s)] == Pair(Top(s).es[Index(s)].key.rank, Top(s).es[Index(s)].val)
  {
    Located(root, d, s, 1);
    assert Pairs(root)[Start(s)..Start(s) + Size(Top(s))][Index(s)] == Pairs(root)[Pos(s)];
  }

  /** The number of the entry that comes next: from behind the entries of a page, the first of the next page. */
  ghost function Ahead(s: Spot): nat
    requires |s.pg| == |s.ki| > 0
  {
    if Index(s) < Size(Top(s)) then Pos(s) + 1 else Pos(s)
  }

  method NextSpot(root: Tree, ghost d: nat, s: Spot) returns (r: Option<Spot>)
    requires Stands(root, d, s)
    ensures r.Some? ==> Stands(root, d, r.value) && Index(r.value) < |Top(r.value).es| && Pos(r.value) == Ahead(s)
    ensures r.None? ==> AtEnd(root, s) && Ahead(s) == Size(root)
  {
    LeafThere(root, d, s);
    if Index(s) + 1 >= |Top(s).es| {
      SiblingRight(root, d, s, 1);
      r := Sibling(s, true);
      if r.Some? { LeafThere(root, d, r.value); }
    } else {
      SetIndexOk(root, d, s, 1, Index(s) + 1);
      r := Some(SetIndex(s, Index(s) + 1));
    }
  }

  lemma AtIndex(root: Tree, d: nat, s: Spot, i: nat)
    requires Path(root, d, s, 1) && Top(s).Leaf? && i <= |Top(s).es|
    ensures var v := SetIndex(s, i); Stands(root, d, v) && Top(v) == Top(s) && Index(v) == i && Pos(v) == Start(s) + i
  {
    SetIndexOk(root, d, s, 1, i);
  }

  lemma StepBack(root: Tree, d: nat, s: Spot)
    requires Stands(root, d, s) && Index(s) == 0
    ensures var r := Sibling(s, false);
      if r.None? then Pos(s) == 0
      else
        && Path(root, d, r.value, 1) && Top(r.value).Leaf? && |Top(r.value).es| > 0
        && Start(r.value) + |Top(r.value).es| == Pos(s)
  {
    SiblingLeft(root, d, s, 1);
    var r := Sibling(s, false);
    if r.Some? { LeafThere(root, d, r.value); }
  }

  method PrevSpot(root: Tree, ghost d: nat, s: Spot) returns (r: Option<Spot>)
    requires Stands(root, d, s)
    ensures r.Some? ==> Stands(root, d, r.value) && Index(r.value) < |Top(r.value).es| && Pos(r.value) + 1 == Pos(s)
    ensures r.None? ==> Pos(s) == 0
  {
    if Index(s) == 0 {
      StepBack(root, d, s);
      r := Sibling(s, false);
      if r.Some? {
        var i := |Top(r.value).es| - 1;
        AtIndex(root, d, r.value, i);
        r := Some(SetIndex(r.value, i));
      }
    } else {
      AtIndex(root, d, s, Index(s) - 1);
      r := Some(SetIndex(s, Index(s) - 1));
    }
  }

  // ---------------------------------------------------------------- setting

  /** A key between two entries of the page is nowhere else. */
  lemma OnThisPage(root: Tree, d: nat, s: Spot, rank: int, i: nat, j: nat)
    requires Stands(root, d, s) && Sorted(Pairs(root)) && i < |Top(s).es| && j < |Top(s).es|
    requires Top(s).es[i].key.rank <= rank <= Top(s).es[j].key.rank
    ensures Narrow(root, s, rank)
  {
    LeafThere(root, d, s);
    Located(root, d, s, 1);
    var p, a := Pairs(root), Start(s);
    assert p[a..a + Size(Top(s))][i] == p[a + i] && p[a..a + Size(Top(s))][j] == p[a + j];
    assert p[a + i].rank <= rank <= p[a + j].rank;
  }

  /** Without a right sibling on any level, the page is the last one. */
  lemma {:induction false} NoneRight(root: Tree, d: nat, s: Spot, e: nat)
    requires Path(root, d, s, e)
    requires forall k :: 0 <= k < |s.pg| - 1 ==> s.ki[k] + 1 >= NumNodes(s.pg[k])
    ensures AtEnd(root, s)
    decreases |s.pg|
  {
    if |s.pg| > 1 {
      var up := Pop(s);
      assert s.ki[|s.pg| - 2] == Index(up) && s.pg[|s.pg| - 2] == Top(up);
      NoneRight(root, d, up, e + 1);
      LastEnds(root, d, s, e);
    }
  }

  /** A key above the last entry of the last page comes after everything. */
  lemma AboveAll(root: Tree, d: nat, s: Spot, rank: int)
    requires Stands(root, d, s) && Sorted(Pairs(root)) && AtEnd(root, s)
    requires |Top(s).es| > 0 && Top(s).es[|Top(s).es| - 1].key.rank < rank
    ensures Before(Pairs(root), rank) == Size(root)
  {
    LeafThere(root, d, s);
    Located(root, d, s, 1);
    var p, a, n := Pairs(root), Start(s), Size(Top(s));
    assert p[a..a + n][n - 1] == p[a + n - 1];
    assert p[|p| - 1].rank < rank;
  }

  /** A key below the first entry of the only page comes before everything. */
  lemma BelowAll(root: Tree, d: nat, s: Spot, rank: int)
    requires Stands(root, d, s) && |s.pg| == 1 && Sorted(Pairs(root))
    requires |Top(s).es| > 0 && rank < Top(s).es[0].key.rank
    ensures Start(s) == 0 && Top(s) == root && Before(Pairs(root), rank) == 0
  {
    var p := Pairs(root);
    assert p[0].rank > rank;
    BeforeUnique(p, rank, 0);
  }

  /** What the look at the current page tells: the entry, that the page is the right one, that there is
      no such key further on, that the only page starts above the key, or nothing. */
  datatype Glance = Exact(i: nat) | OnPage | Gone | Alone | Elsewhere

  /** A page of the path above the top one has a child further right. */
  ghost predicate MoreRight(s: Spot)
    requires |s.pg| == |s.ki| > 0
  {
    exists k :: 0 <= k < |s.pg| - 1 && s.ki[k] + 1 < NumNodes(s.pg[k])
  }

  /** The key is outside the current page, and other pages may have it: the search starts at the root. */
  ghost predicate Anew(s: Spot, rank: int)
    requires |s.pg| == |s.ki| > 0 && Top(s).Leaf? && |Top(s).es| > 0
  {
    var es := Top(s).es;
    (rank < es[0].key.rank && |s.pg| > 1) || (rank > es[|es| - 1].key.rank && MoreRight(s))
  }

  method HasRight(s: Spot) returns (yes: bool)
    requires |s.pg| == |s.ki| > 0
    ensures yes <==> MoreRight(s)
  {
    var i := 0;
    while i < |s.pg| - 1
      invariant 0 <= i <= |s.pg| - 1
      invariant forall k :: 0 <= k < i ==> s.ki[k] + 1 >= NumNodes(s.pg[k])
    {
      if s.ki[i] + 1 < NumNodes(s.pg[i]) { return true; }
      i := i + 1;
    }
    return false;
  }

  /** The key is not below the first entry of the page. */
  method LookAbove(root: Tree, ghost d: nat, s: Spot, rank: int) returns (g: Glance)
    requires Stands(root, d, s) && Sorted(Pairs(root)) && |Top(s).es| > 0 && rank > Top(s).es[0].key.rank
    ensures g.Exact? ==> g.i < |Top(s).es| && Top(s).es[g.i].key.rank == rank
    ensures g.OnPage? ==> Narrow(root, s, rank)
    ensures g.Gone? ==> Before(Pairs(root), rank) == Size(root) && AtEnd(root, s)
    ensures !g.Alone? && (!g.Exact? ==> (g.Elsewhere? <==> Anew(s, rank)))
  {
    var es := Top(s).es;
    var n := |es|;
    if n > 1 {
      if rank == es[n - 1].key.rank { return Exact(n - 1); }
      if rank < es[n - 1].key.rank {
        if Index(s) < n && es[Index(s)].key.rank == rank { return Exact(Index(s)); }
        OnThisPage(root, d, s, rank, 0, n - 1);
        return OnPage;
      }
    }
    var more := HasRight(s);
    if !more {
      NoneRight(root, d, s, 1);
      AboveAll(root, d, s, rank);
      return Gone;
    }
    return Elsewhere;
  }

  /** The look at the current page before any search. */
  method Look(root: Tree, ghost d: nat, s: Spot, rank: int) returns (g: Glance)
    requires Stands(root, d, s) && Sorted(Pairs(root)) && |Top(s).es| > 0
    ensures g.Exact? ==> g.i < |Top(s).es| && Top(s).es[g.i].key.rank == rank
    ensures g.OnPage? ==> Narrow(root, s, rank)
    ensures g.Gone? ==> Before(Pairs(root), rank) == Size(root) && AtEnd(root, s)
    ensures g.Alone? ==>
      Start(s) == 0 && Top(s) == root && Before(Pairs(root), rank) == 0 && Pairs(root)[0].rank != rank
    ensures !g.Exact? ==> (g.Elsewhere? <==> Anew(s, rank))
  {
    var es := Top(s).es;
    if rank == es[0].key.rank { return Exact(0); }
    if rank > es[0].key.rank {
      g := LookAbove(root, d, s, rank);
      return;
    }
    if |s.pg| == 1 {
      BelowAll(root, d, s, rank);
      return Alone;
    }
    return Elsewhere;
  }

  /** The place of the key, or of the first larger one, in the whole database. */
  ghost predicate Lands(root: Tree, rank: int, range: bool, ok: bool, pos: nat) {
    var p, n := Pairs(root), Before(Pairs(root), rank);
    if ok then pos == n < |p| && (range || p[n].rank == rank)
    else n == |p| || (!range && p[n].rank != rank)
  }

  /** An entry of the page with just the key. */
  lemma ExactLands(root: Tree, d: nat, s: Spot, rank: int, i: nat, range: bool)
    requires Stands(root, d, s) && Sorted(Pairs(root)) && i < |Top(s).es| && Top(s).es[i].key.rank == rank
    ensures Lands(root, rank, range, true, Start(s) + i)
  {
    AtIndex(root, d, s, i);
    EntryAt(root, d, SetIndex(s, i));
    BeforeUnique(Pairs(root), rank, Start(s) + i);
  }

  lemma PageLands(root: Tree, d: nat, s: Spot, rank: int, i: nat, range: bool)
    requires Stands(root, d, s) && Sorted(Pairs(root)) && Narrow(root, s, rank)
    requires i == Before(LeafPairs(Top(s).es), rank)
    ensures i < |Top(s).es| && Top(s).es[i].key.rank == rank ==> Lands(root, rank, range, true, Start(s) + i)
    ensures i < |Top(s).es| && range ==> Lands(root, rank, range, true, Start(s) + i)
    ensures i == |Top(s).es| ==> Before(Pairs(root), rank) == Start(s) + i
    ensures i < |Top(s).es| && Top(s).es[i].key.rank != rank && !range ==> Lands(root, rank, range, false, 0)
  {
    FromPage(root, d, s, 1, rank);
    if i < |Top(s).es| {
      AtIndex(root, d, s, i);
      EntryAt(root, d, SetIndex(s, i));
    }
  }

  /** Behind the last entry of the page: the next page starts with the place of the key. */
  lemma BehindLands(root: Tree, d: nat, u: Spot, rank: int)
    requires Stands(root, d, u) && Index(u) == |Top(u).es| && Before(Pairs(root), rank) == Pos(u)
    ensures var r := Sibling(u, true);
      if r.None? then Lands(root, rank, true, false, 0)
      else
        && Stands(root, d, r.value) && Index(r.value) < |Top(r.value).es|
        && Lands(root, rank, true, true, Pos(r.value))
  {
    SiblingRight(root, d, u, 1);
    LeafThere(root, d, u);
    var r := Sibling(u, true);
    if r.Some? {
      LeafThere(root, d, r.value);
      EntryAt(root, d, r.value);
    }
  }

  lemma BehindMisses(root: Tree, s: Spot, rank: int)
    requires |s.pg| == |s.ki| > 0 && Narrow(root, s, rank)
    requires Before(Pairs(root), rank) == Start(s) + Size(Top(s))
    ensures Lands(root, rank, false, false, 0)
  {
  }

  /** Where a search on the page of s leaves the cursor if it finds nothing: on the first larger entry of
      the page, or behind its entries. */
  ghost function Missed(root: Tree, s: Spot, rank: int): Spot
    requires |s.pg| == |s.ki| > 0
  {
    var n := Before(Pairs(root), rank);
    SetIndex(s, if n >= Start(s) then n - Start(s) else 0)
  }

  /** mdb_node_search on the leaf. */
  method OnLeaf(root: Tree, ghost d: nat, s: Spot, rank: int) returns (i: nat, exact: bool)
    requires Stands(root, d, s) && Sorted(Pairs(root)) && Narrow(root, s, rank)
    ensures i == Before(LeafPairs(Top(s).es), rank) && (exact <==> i < |Top(s).es| && Top(s).es[i].key.rank == rank)
    ensures SetIndex(s, i) == Missed(root, s, rank)
    ensures var u := SetIndex(s, i);
      && Stands(root, d, u) && Index(u) == i && Start(u) == Start(s) && Top(u) == Top(s)
      && Pos(u) == Before(Pairs(root), rank)
  {
    FromPage(root, d, s, 1, rank);
    i, exact := LocateSorted(Top(s).es, rank);
    SetIndexOk(root, d, s, 1, i);
  }

  /** The search on the leaf, and the step to the next leaf when the key is behind its entries. */
  method Land(root: Tree, ghost d: nat, s: Spot, rank: int, range: bool) returns (ok: bool, u: Spot)
    requires Stands(root, d, s) && Sorted(Pairs(root)) && Narrow(root, s, rank)
    ensures Stands(root, d, u) && Lands(root, rank, range, ok, Pos(u)) && (ok ==> Index(u) < |Top(u).es|)
    ensures !ok ==> u == Missed(root, s, rank) && Pos(u) == Before(Pairs(root), rank)
    ensures !ok ==> Start(u) == Start(s) && Top(u) == Top(s)
  {
    var i, exact := OnLeaf(root, d, s, rank);
    PageLands(root, d, s, rank, i, range);
    u := SetIndex(s, i);
    if i < |Top(s).es| {
      ok := range || exact;
    } else if range {
      BehindLands(root, d, u, rank);
      var r := Sibling(u, true);
      ok := r.Some?;
      if ok { u := r.value; }
    } else {
      LeafThere(root, d, s);
      BehindMisses(root, s, rank);
      ok := false;
    }
  }

  method LocateSorted(es: seq<Entry>, rank: int) returns (i: nat, exact: bool)
    requires Sorted(LeafPairs(es))
    ensures i == Before(LeafPairs(es), rank)
    ensures exact <==> i < |es| && es[i].key.rank == rank
  {
    assert forall j :: 0 <= j < |es| ==> LeafPairs(es)[j].rank == es[j].key.rank;
    i, exact := NodeSearch.Locate(es, rank);
  }

  lemma SameSpot(root: Tree, d: nat, s: Spot, u: Spot)
    requires Stands(root, d, s) && Stands(root, d, u) && Pos(s) == Pos(u)
    requires Index(s) < |Top(s).es| && Index(u) < |Top(u).es|
    ensures s == u
  {
    LeafThere(root, d, s);
    LeafThere(root, d, u);
    SamePath(root, d, s, u, 1, Pos(s));
    Rejoin(s, u);
  }

  lemma TakeOne(p: seq<Pair>, n: nat)
    requires n < |p|
    ensures p[..n + 1] == p[..n] + [p[n]] && (n + 1 == |p| ==> p[..n + 1] == p)
  {
  }

  // ---------------------------------------------------------------- the cursor

  datatype Code = Success | NotFound | Invalid

  /** A non-empty tree that does not change while the cursor reads. */
  ghost predicate Ready(root: Tree, lo: int, hi: int, d: nat, psize: nat) {
    WF(root, lo, hi, d, psize) && Enough(root) && Level(root, d) && Sorted(Pairs(root))
  }

  lemma IsReady(root: Tree, lo: int, hi: int, d: nat, psize: nat)
    requires WF(root, lo, hi, d, psize) && Enough(root)
    ensures Ready(root, lo, hi, d, psize)
  {
    WFLevel(root, lo, hi, d, psize);
    PairsSorted(root, lo, hi, d, psize);
  }

  lemma OnlyPage(root: Tree, d: nat, s: Spot)
    requires Stands(root, d, s) && |s.pg| == 1
    ensures AtEnd(root, s)
  {
  }

  lemma LastOk(root: Tree, d: nat, s: Spot)
    requires Path(root, d, s, 1) && AtEnd(root, s)
    ensures Top(s).Leaf? && |Top(s).es| > 0
    ensures var v := SetIndex(s, |Top(s).es| - 1);
      Stands(root, d, v) && AtEnd(root, v) && Index(v) < |Top(v).es| && Pos(v) + 1 == Size(root)
  {
    LeafThere(root, d, s);
    AtIndex(root, d, s, |Top(s).es| - 1);
  }

  class MdbCursor {
    /** The tree.  A database without a root page has an empty leaf here, which no operation visits. */
    const root: Tree
    const hasRoot: bool
    const psize: nat
    ghost const depth: nat
    ghost const lo: int
    ghost const hi: int
    var at: Spot
    var initialized: bool
    var eof: bool

    ghost predicate Valid()
      reads this
    {
      if hasRoot then
        && Ready(root, lo, hi, depth, psize)
        && (initialized ==> Stands(root, depth, at))
        && (eof ==> initialized && AtEnd(root, at))
      else root == Leaf([]) && !initialized && !eof
    }

    /** On an entry; its number is Pos(at). */
    ghost predicate OnEntry()
      reads this
    {
      hasRoot && initialized && Stands(root, depth, at) && Index(at) < |Top(at).es|
    }

    constructor (tree: Option<Tree>, psize: nat, ghost depth: nat, ghost lo: int, ghost hi: int)
      requires tree.Some? ==> WF(tree.value, lo, hi, depth, psize) && Enough(tree.value)
      ensures Valid() && !initialized && Pairs(root) == if tree.Some? then Pairs(tree.value) else []
      ensures hasRoot == tree.Some? && this.depth == depth && (tree.Some? ==> root == tree.value)
    {
      if tree.Some? { IsReady(tree.value, lo, hi, depth, psize); }
      root := if tree.Some? then tree.value else Leaf([]);
      hasRoot := tree.Some?;
      this.psize, this.depth, this.lo, this.hi := psize, depth, lo, hi;
      at, initialized, eof := Spot([], []), false, false;
    }

    /** MDB_GET_CURRENT. */
    method Current() returns (code: Code, p: Pair)
      requires Valid()
      ensures code == if !initialized then Invalid else if OnEntry() then Success else NotFound
      ensures code == Success ==> Pos(at) < Size(root) && p == Pairs(root)[Pos(at)]
    {
      p := Pair(0, []);
      if !initialized { return Invalid, p; }
      if Index(at) >= |Top(at).es| { return NotFound, p; }
      EntryAt(root, depth, at);
      var e := Top(at).es[Index(at)];
      return Success, Pair(e.key.rank, e.val);
    }

    method First() returns (code: Code)
      requires Valid()
      modifies this
      ensures Valid() && code == if Size(root) == 0 then NotFound else Success
      ensures code == Success ==> OnEntry() && Pos(at) == 0 && !eof
    {
      if !hasRoot { return NotFound; }
      if !initialized || |at.pg| > 1 { at := Edge(root, depth, false); }
      LeafThere(root, depth, at);
      AtIndex(root, depth, at, 0);
      at := SetIndex(at, 0);
      initialized, eof := true, false;
      EntryAt(root, depth, at);
      code := Success;
    }

    /** The path to the last leaf, which a cursor that is at the end, or has only one page, has already. */
    method LastPage() returns (s: Spot)
      requires Valid() && hasRoot
      ensures Path(root, depth, s, 1) && AtEnd(root, s)
    {
      if eof { return at; }
      if !initialized || |at.pg| > 1 {
        s := Edge(root, depth, true);
      } else {
        OnlyPage(root, depth, at);
        s := at;
      }
    }

    method Last() returns (code: Code)
      requires Valid()
      modifies this
      ensures Valid() && code == if Size(root) == 0 then NotFound else Success
      ensures code == Success ==> OnEntry() && Pos(at) + 1 == Size(root) && eof
    {
      if !hasRoot { return NotFound; }
      var s := LastPage();
      LastOk(root, depth, s);
      at := SetIndex(s, |Top(s).es| - 1);
      initialized, eof := true, true;
      code := Success;
    }

    /** MDB_NEXT: the first entry for a new cursor, else the next one; at the last one the cursor stays
        and remembers that it is at the end. */
    method Next() returns (code: Code)
      requires Valid()
      modifies this
      ensures Valid() && (code == Success || code == NotFound)
      ensures code == Success ==> OnEntry() && !eof
      ensures !old(initialized) ==> (code == NotFound <==> Size(root) == 0) && (code == Success ==> Pos(at) == 0)
      ensures old(initialized) && old(eof) ==> code == NotFound
      ensures old(initialized) && !old(eof) ==> (code == Success <==> old(Ahead(at)) < Size(root))
      ensures old(initialized) && code == Success ==> Pos(at) == old(Ahead(at))
      ensures old(initialized) && code == NotFound ==> initialized && at == old(at) && eof
    {
      if !initialized {
        code := First();
        return;
      }
      if eof { return NotFound; }
      var r := NextSpot(root, depth, at);
      if r.None? {
        eof := true;
        return NotFound;
      }
      EntryAt(root, depth, r.value);
      at := r.value;
      return Success;
    }

    /** MDB_PREV: the last entry for a new cursor, else the previous one; at the first one the cursor stays. */
    method Prev() returns (code: Code)
      requires Valid()
      modifies this
      ensures Valid() && (code == Success || code == NotFound)
      ensures code == Success ==> OnEntry() && !eof
      ensures !old(initialized) ==>
        (code == NotFound <==> Size(root) == 0) && (code == Success ==> Pos(at) + 1 == Size(root))
      ensures old(initialized) ==> (code == Success <==> old(Pos(at)) > 0)
      ensures old(initialized) && code == Success ==> Pos(at) + 1 == old(Pos(at))
      ensures old(initialized) && code == NotFound ==> initialized && at == old(at)
    {
      if !initialized {
        code := Last();
        if code != Success { return; }
        MoveTo(Index(at) + 1);
      }
      var r := PrevSpot(root, depth, at);
      if r.None? { return NotFound; }
      at, eof := r.value, false;
      return Success;
    }

    /** Going forward and back again leaves the cursor where it was, page for page. */
    method NextPrev() returns (there: Code, back: Code)
      requires Valid() && OnEntry()
      modifies this
      ensures Valid() && at == old(at) && (there == Success ==> back == Success)
    {
      ghost var was := at;
      EntryAt(root, depth, at);
      LeafThere(root, depth, at);
      there := Next();
      back := NotFound;
      if there == Success {
        back := Prev();
        SameSpot(root, depth, was, at);
      }
    }

    /** Takes the current entry and moves on. */
    method Take(sofar: seq<Pair>) returns (all: seq<Pair>, code: Code)
      requires Valid() && OnEntry() && !eof && Pos(at) < Size(root) && sofar == Pairs(root)[..Pos(at)]
      modifies this
      ensures Valid() && (code == Success || code == NotFound)
      ensures code == Success ==>
        OnEntry() && !eof && old(Pos(at)) < Pos(at) < Size(root) && all == Pairs(root)[..Pos(at)]
      ensures code == NotFound ==> all == Pairs(root)
    {
      var c, p := Current();
      all := sofar + [p];
      TakeOne(Pairs(root), Pos(at));
      LeafThere(root, depth, at);
      code := Next();
    }

    /** The first entry and then the next one until there is none: every entry, in order, once. */
    method Walk() returns (all: seq<Pair>)
      requires Valid()
      modifies this
      ensures Valid() && all == Pairs(root)
    {
      var code := First();
      all := [];
      if code == Success { EntryAt(root, depth, at); }
      while code == Success
        invariant Valid() && (code == Success || code == NotFound)
        invariant code == Success ==> OnEntry() && !eof && Pos(at) < Size(root) && all == Pairs(root)[..Pos(at)]
        invariant code == NotFound ==> all == Pairs(root)
        decreases if code == Success then Size(root) - Pos(at) else 0
      {
        all, code := Take(all);
      }
    }

    /** After a set that found nothing: the cursor is at the place of the key.  If the current page was
        good enough, it stays on it and keeps its end flag; else the flag is gone. */
    ghost predicate MissedAt(was: Spot, wasInitialized: bool, wasEof: bool, rank: int)
      requires hasRoot && (wasInitialized ==> Stands(root, depth, was) && |Top(was).es| > 0)
      reads this
    {
      && initialized && Stands(root, depth, at) && Pos(at) == Before(Pairs(root), rank)
      && (if wasInitialized && !Anew(was, rank) then eof == wasEof && at == Missed(root, was, rank) else !eof)
    }

    /** mdb_cursor_set with MDB_SET or, if `range`, MDB_SET_RANGE.  Wherever the cursor was, and whether
        or not the current page was good enough, it lands on the key or on the first larger one. */
    method Set(rank: int, range: bool) returns (code: Code)
      requires Valid()
      modifies this
      ensures Valid() && code != Invalid
      ensures Lands(root, rank, range, code == Success, if initialized then Pos(at) else 0)
      ensures code == Success ==> OnEntry() && !eof
      ensures code == NotFound && hasRoot ==>
        && (old(initialized) ==> |Top(old(at)).es| > 0)
        && MissedAt(old(at), old(initialized), old(eof), rank)
    {
      if !hasRoot { return NotFound; }
      var g := Elsewhere;
      if initialized {
        LeafThere(root, depth, at);
        g := Look(root, depth, at, rank);
      }
      if g.Exact? {
        ExactLands(root, depth, at, rank, g.i, range);
        MoveTo(g.i);
        eof := false;
        return Success;
      }
      code := SetFar(g, rank, range);
    }

    /** What the look at the current page makes known. */
    ghost predicate Known(g: Glance, rank: int)
      reads this
    {
      && Valid() && hasRoot && !g.Exact? && (!g.Elsewhere? ==> initialized)
      && (initialized ==> |Top(at).es| > 0 && (g.Elsewhere? <==> Anew(at, rank)))
      && (g.OnPage? ==> Narrow(root, at, rank))
      && (g.Gone? ==> Before(Pairs(root), rank) == Size(root) && AtEnd(root, at))
      && (g.Alone? ==>
        Start(at) == 0 && Top(at) == root && Before(Pairs(root), rank) == 0 && Pairs(root)[0].rank != rank)
    }

    /** The outcomes other than an entry of the current page with just the key. */
    method SetFar(g: Glance, rank: int, range: bool) returns (code: Code)
      requires Known(g, rank)
      modifies this
      ensures Valid() && code != Invalid
      ensures Lands(root, rank, range, code == Success, if initialized then Pos(at) else 0)
      ensures code == Success ==> OnEntry() && !eof
      ensures code == NotFound ==> MissedAt(old(at), old(initialized), old(eof), rank)
    {
      if g.Gone? {
        code := SetBehind(g, rank, range);
        return;
      }
      if g.Alone? {
        code := SetAlone(g, rank, range);
        return;
      }
      if g.Elsewhere? { SearchAnew(rank); }
      code := SetHere(rank, range);
    }

    /** The key is above all there is. */
    method SetBehind(g: Glance, rank: int, range: bool) returns (code: Code)
      requires Known(g, rank) && g.Gone?
      modifies this
      ensures Valid() && code == NotFound
      ensures Lands(root, rank, range, false, if initialized then Pos(at) else 0)
      ensures MissedAt(old(at), old(initialized), old(eof), rank)
    {
      LeafThere(root, depth, at);
      MoveTo(|Top(at).es|);
      return NotFound;
    }

    /** The key is below all on the only page there is. */
    method SetAlone(g: Glance, rank: int, range: bool) returns (code: Code)
      requires Known(g, rank) && g.Alone?
      modifies this
      ensures Valid() && code != Invalid
      ensures Lands(root, rank, range, code == Success, if initialized then Pos(at) else 0)
      ensures code == Success ==> OnEntry() && !eof
      ensures code == NotFound ==> MissedAt(old(at), old(initialized), old(eof), rank)
    {
      LeafThere(root, depth, at);
      MoveTo(0);
      if !range { return NotFound; }
      eof := false;
      return Success;
    }

    /** mdb_page_search. */
    method SearchAnew(rank: int)
      requires Valid() && hasRoot
      modifies this
      ensures Valid() && initialized && !eof && Narrow(root, at, rank)
    {
      at := Seek(root, depth, rank, lo, hi, psize);
      LeafThere(root, depth, at);
      initialized, eof := true, false;
    }

    /** The current page is the right one. */
    method SetHere(rank: int, range: bool) returns (code: Code)
      requires Valid() && initialized && Narrow(root, at, rank)
      modifies this
      ensures Valid() && code != Invalid && initialized && Lands(root, rank, range, code == Success, Pos(at))
      ensures code == Success ==> OnEntry() && !eof
      ensures code == NotFound ==>
        eof == old(eof) && at == Missed(root, old(at), rank) && Pos(at) == Before(Pairs(root), rank)
    {
      var ok, u := Land(root, depth, at, rank, range);
      at := u;
      if !ok { return NotFound; }
      eof := false;
      return Success;
    }

    method MoveTo(i: nat)
      requires Valid() && initialized && i <= |Top(at).es|
      modifies this`at
      ensures Valid() && Pos(at) == old(Start(at)) + i && Index(at) == i && Top(at) == old(Top(at))
      ensures at == SetIndex(old(at), i)
    {
      AtIndex(root, depth, at, i);
      at := SetIndex(at, i);
    }
  }
}
