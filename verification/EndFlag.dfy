/**
The end flag of a cursor (C_EOF) after a set that found nothing.  A set that stays on the current page
keeps the flag, and then the next entry is reported as not found although there is one.
*/
module EndFlag {
  import opened Common
  import opened BTree
  import opened BTreePut
  import opened Cursor
  import opened CursorPath
  import Sums

  /** A search for the key stays on the page, which has two entries or more above the key. */
  ghost predicate TwoAbove(s: Spot, rank: int)
    requires |s.pg| == |s.ki| > 0 && Top(s).Leaf?
  {
    var es := Top(s).es;
    |es| >= 2 && rank < es[|es| - 2].key.rank && (|s.pg| == 1 || es[0].key.rank < rank)
  }

  /** The key is not there. */
  ghost predicate Absent(p: seq<Pair>, rank: int) {
    forall i :: 0 <= i < |p| ==> p[i].rank != rank
  }

  /** The entries of the last page at the end of the contents. */
  lemma LastEntry(root: Tree, d: nat, s: Spot, i: nat)
    requires Stands(root, d, s) && i < |Top(s).es|
    ensures Start(s) + i < Size(root) && Pairs(root)[Start(s) + i].rank == Top(s).es[i].key.rank
  {
    AtIndex(root, d, s, i);
    EntryAt(root, d, SetIndex(s, i));
  }

  lemma TwoAboveStays(root: Tree, d: nat, s: Spot, rank: int)
    requires Stands(root, d, s) && Sorted(Pairs(root)) && |Top(s).es| > 0 && TwoAbove(s, rank)
    ensures !Anew(s, rank)
  {
    var n := |Top(s).es|;
    LastEntry(root, d, s, n - 2);
    LastEntry(root, d, s, n - 1);
  }

  lemma TwoAboveLeaves(root: Tree, d: nat, s: Spot, rank: int)
    requires Stands(root, d, s) && Sorted(Pairs(root)) && AtEnd(root, s) && TwoAbove(s, rank)
    ensures Before(Pairs(root), rank) + 1 < Size(root)
  {
    var n, p := |Top(s).es|, Pairs(root);
    LeafThere(root, d, s);
    LastEntry(root, d, s, n - 2);
    BeforeIs(p, rank);
  }

  /** With at most one entry above the key, which is at the end of the page, nothing comes after it. */
  lemma OneAbove(root: Tree, d: nat, s: Spot, rank: int)
    requires Stands(root, d, s) && Sorted(Pairs(root)) && AtEnd(root, s) && |Top(s).es| > 0 && Absent(Pairs(root), rank)
    requires !Anew(s, rank) && !TwoAbove(s, rank)
    ensures Before(Pairs(root), rank) + 1 >= Size(root)
  {
    var es, n, p := Top(s).es, |Top(s).es|, Pairs(root);
    LeafThere(root, d, s);
    LastEntry(root, d, s, 0);
    BeforeIs(p, rank);
    if n >= 2 { LastEntry(root, d, s, n - 2); }
  }

  /** After the miss the next entry is one that exists exactly if two entries of the page are above the key. */
  lemma AheadIff(root: Tree, d: nat, s: Spot, u: Spot, rank: int)
    requires Stands(root, d, s) && Sorted(Pairs(root)) && AtEnd(root, s) && |Top(s).es| > 0 && Absent(Pairs(root), rank)
    requires !Anew(s, rank) && u == Missed(root, s, rank) && Stands(root, d, u) && Pos(u) == Before(Pairs(root), rank)
    ensures Ahead(u) < Size(root) <==> TwoAbove(s, rank)
  {
    SetIndexOk(root, d, s, 1, Index(u));
    LeafThere(root, d, s);
    if TwoAbove(s, rank) {
      TwoAboveLeaves(root, d, s, rank);
    } else {
      OneAbove(root, d, s, rank);
    }
  }

  /** There is no such key, or for a range no such key and no larger one. */
  ghost predicate Nowhere(p: seq<Pair>, rank: int, range: bool) {
    if range then forall i :: 0 <= i < |p| ==> p[i].rank < rank else Absent(p, rank)
  }

  lemma MissedAbsent(root: Tree, rank: int, range: bool, ok: bool, pos: nat)
    requires Sorted(Pairs(root)) && Lands(root, rank, range, ok, pos)
    ensures !ok <==> Nowhere(Pairs(root), rank, range)
  {
    BeforeIs(Pairs(root), rank);
  }

  /** A set and then the next entry.  If the set finds nothing, the next entry is missed though it exists
      exactly if the end flag was set and at least two entries of the current page are above the key. */
  method SetNext(c: MdbCursor, rank: int, range: bool) returns (hit: Code, next: Code, ghost ahead: nat)
    requires c.Valid() && c.hasRoot
    modifies c
    ensures c.Valid() && (hit == NotFound <==> Nowhere(Pairs(c.root), rank, range))
    ensures hit == NotFound ==> Before(Pairs(c.root), rank) <= ahead <= Before(Pairs(c.root), rank) + 1
    ensures hit == NotFound ==>
      (next == NotFound && ahead < Size(c.root) <==> old(c.initialized) && old(c.eof) && TwoAbove(old(c.at), rank))
  {
    ghost var was, flag := c.at, c.initialized && c.eof;
    hit := c.Set(rank, range);
    ahead := Ahead(c.at);
    MissedAbsent(c.root, rank, range, hit == Success, Pos(c.at));
    if hit == NotFound {
      if flag && !Anew(was, rank) { AheadIff(c.root, c.depth, was, c.at, rank); }
      if flag && TwoAbove(was, rank) { TwoAboveStays(c.root, c.depth, was, rank); }
    }
    next := c.Next();
  }

  // ---------------------------------------------------------------- a case

  function One(rank: int): Entry { Entry(Key(rank, 1), [], false) }

  /** Two leaves, with the keys 1 and 5, 7, 9. */
  function TwoLeaves(): Tree {
    Branch([EMPTY, Key(5, 1)], [Leaf([One(1)]), Leaf([One(5), One(7), One(9)])])
  }

  lemma LeavesFit()
    ensures LeafOk([One(1)], 0, 5, 4096) && LeafOk([One(5), One(7), One(9)], 5, 10, 4096)
    ensures Sums.Sum(SepSizes([EMPTY, Key(5, 1)])) <= Room(4096)
  {
    Sums.SumAtMost(EntrySizes([One(1)]), 12);
    Sums.SumAtMost(EntrySizes([One(5), One(7), One(9)]), 12);
    Sums.SumAtMost(SepSizes([EMPTY, Key(5, 1)]), 12);
  }

  lemma TwoLeavesOk()
    ensures WF(TwoLeaves(), 0, 10, 2, 4096) && Enough(TwoLeaves())
  {
    LeavesFit();
    var t := TwoLeaves();
    assert Lo(t.seps, 0, 0) == 0 && Hi(t.seps, 0, 10) == 5 && Lo(t.seps, 1, 0) == 5 && Hi(t.seps, 1, 10) == 10;
  }

  /** The path to the last entry. */
  function LastSpot(): Spot { Spot([TwoLeaves(), TwoLeaves().kids[1]], [1, 2]) }

  lemma LastSpotOk()
    ensures Stands(TwoLeaves(), 2, LastSpot()) && Pos(LastSpot()) == 3 && Size(TwoLeaves()) == 4
  {
    var t, s := TwoLeaves(), LastSpot();
    TwoLeavesOk();
    WFLevel(t, 0, 10, 2, 4096);
    assert Pop(s) == Spot([t], [1]);
    assert Path(t, 2, Pop(s), 2);
    UnderStep(t, 0);
    UnderStep(t, 1);
    UnderAll(t);
  }

  lemma SixIsAbsent()
    ensures Absent(Pairs(TwoLeaves()), 6) && TwoAbove(LastSpot(), 6)
  {
    var t := TwoLeaves();
    assert t.kids == [t.kids[0]] + [t.kids[1]];
    AllPairsConcat([t.kids[0]], [t.kids[1]]);
    AllPairsOne(t.kids[0]);
    AllPairsOne(t.kids[1]);
  }

  /** At the last entry of two leaves, looking for 6 finds nothing, and then 9 is not found after 7. */
  method EndFlagStays() returns (hit: Code, next: Code, ghost ahead: nat)
    ensures hit == NotFound && next == NotFound && ahead < Size(TwoLeaves())
  {
    ghost var t := TwoLeaves();
    TwoLeavesOk();
    LastSpotOk();
    SixIsAbsent();
    var c := new MdbCursor(Some(TwoLeaves()), 4096, 2, 0, 10);
    var last := c.Last();
    SameSpot(t, 2, c.at, LastSpot());
    hit, next, ahead := SetNext(c, 6, false);
  }
}
