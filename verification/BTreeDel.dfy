/**
Deleting a key (mdb_cursor_del0, mdb_rebalance, mdb_node_move, mdb_page_merge): the entry leaves its
leaf, and a page that is now too empty takes a node from a neighbour or is merged with it, on every
level upwards.  A separator that no longer fits its page splits the page, as an insertion does.
*/
module BTreeDel {
  import opened Common
  import opened BTree
  import opened BTreePut
  import opened PageFormat
  import Split
  import Sums

  // ---------------------------------------------------------------- the effect on the contents

  function Remove(s: seq<Pair>, rank: int): seq<Pair> {
    var n := Before(s, rank);
    if n < |s| && s[n].rank == rank then RemoveAt(s, n) else s
  }

  lemma SpliceRemove(a: seq<Pair>, b: seq<Pair>, c: seq<Pair>, n: nat)
    requires n < |b|
    ensures RemoveAt(a + b + c, |a| + n) == a + RemoveAt(b, n) + c
  {
    assert (a + b + c)[..|a| + n] == a + b[..n];
    assert (a + b + c)[|a| + n + 1..] == b[n + 1..] + c;
  }

  lemma RemoveHit(s: seq<Pair>, n: nat, rank: int)
    requires n == Before(s, rank) && n < |s| && s[n].rank == rank
    ensures Remove(s, rank) == RemoveAt(s, n)
  {
  }

  lemma RemoveMiss(s: seq<Pair>, n: nat, rank: int)
    requires n == Before(s, rank) && !(n < |s| && s[n].rank == rank)
    ensures Remove(s, rank) == s
  {
  }

  lemma RemoveMid(a: seq<Pair>, b: seq<Pair>, c: seq<Pair>, rank: int)
    requires Sorted(a + b + c)
    requires (forall i :: 0 <= i < |a| ==> a[i].rank < rank) && forall i :: 0 <= i < |c| ==> rank < c[i].rank
    ensures Remove(a + b + c, rank) == a + Remove(b, rank) + c
  {
    LookupMid(a, b, c, rank);
    MidAt(a, b, c, Before(b, rank));
    RemovePart(a + b + c, a, b, c, Before(b, rank), rank);
  }

  lemma RemovePart(s: seq<Pair>, a: seq<Pair>, b: seq<Pair>, c: seq<Pair>, n: nat, rank: int)
    requires s == a + b + c && n == Before(b, rank) && Before(s, rank) == |a| + n
    requires n < |b| ==> s[|a| + n] == b[n]
    requires n == |b| && |c| > 0 ==> s[|a| + n].rank != rank
    ensures Remove(s, rank) == a + Remove(b, rank) + c
  {
    if n < |b| && b[n].rank == rank {
      RemoveHit(s, |a| + n, rank);
      RemoveHit(b, n, rank);
      SpliceRemove(a, b, c, n);
    } else {
      RemoveMiss(s, |a| + n, rank);
      RemoveMiss(b, n, rank);
    }
  }

  lemma RemoveSorted(s: seq<Pair>, rank: int)
    requires Sorted(s)
    ensures Sorted(Remove(s, rank))
  {
  }

  lemma RemoveLookup(s: seq<Pair>, rank: int, x: int)
    requires Sorted(s)
    ensures Lookup(Remove(s, rank), x) == if x == rank then None else Lookup(s, x)
  {
    var n := Before(s, rank);
    BeforeIs(s, rank);
    if n < |s| && s[n].rank == rank {
      var a, p, c := s[..n], s[n], s[n + 1..];
      assert s == a + [p] + c;
      RemoveSorted(s, rank);
      if x == rank {
        LookupPrefix(a, c, x);
        BeforeIs(a, x);
      } else {
        InsertedLookup(a, p, c, x);
      }
    }
  }

  // ---------------------------------------------------------------- rebalancing two neighbours

  /** The page is at least a quarter full (FILL_THRESHOLD, in tenths of a percent). */
  predicate Filled(t: Tree, psize: nat)
    requires psize >= 4096
  {
    1000 * Used(t) / Room(psize) >= 250
  }

  function MinKeys(t: Tree): nat { if t.Leaf? then 1 else 2 }

  /** The page must be rebalanced. */
  predicate Low(t: Tree, psize: nat)
    requires psize >= 4096
  {
    !(Filled(t, psize) && NumKeys(t) >= MinKeys(t))
  }

  /** The page can give a node away. */
  predicate Spare(t: Tree, psize: nat)
    requires psize >= 4096
  {
    Filled(t, psize) && NumKeys(t) > MinKeys(t)
  }

  /** The lowest key below a page (mdb_page_search_lowest). */
  function Lowest(t: Tree): Key {
    match t
    case Leaf(es) => if es == [] then EMPTY else es[0].key
    case Branch(_, kids) => if kids == [] then EMPTY else Lowest(kids[0])
  }

  predicate Alike(l: Tree, r: Tree) {
    || (l.Leaf? && r.Leaf?)
    || (l.Branch? && r.Branch? && |l.seps| == |l.kids| > 0 && |r.seps| == |r.kids| > 0)
  }

  /** All nodes of the right page go to the end of the left page. */
  function Merge(l: Tree, r: Tree): Tree
    requires Alike(l, r)
  {
    if l.Leaf? then Leaf(l.es + r.es)
    else Branch(l.seps + [Lowest(r)] + r.seps[1..], l.kids + r.kids)
  }

  /** The first node of the right page goes to the end of the left page. */
  function MoveLeft(l: Tree, r: Tree): Ins
    requires Alike(l, r) && NumKeys(r) > MinKeys(r)
  {
    if l.Leaf? then Two(Leaf(l.es + [r.es[0]]), r.es[1].key, Leaf(r.es[1..]), 0, 0)
    else Two(Branch(l.seps + [Lowest(r)], l.kids + [r.kids[0]]), r.seps[1],
             Branch([EMPTY] + r.seps[2..], r.kids[1..]), 0, 0)
  }

  /** The last node of the left page goes to the front of the right page. */
  function MoveRight(l: Tree, r: Tree): Ins
    requires Alike(l, r) && NumKeys(l) > MinKeys(l)
  {
    var n := NumKeys(l) - 1;
    if l.Leaf? then Two(Leaf(l.es[..n]), l.es[n].key, Leaf([l.es[n]] + r.es), 0, 0)
    else Two(Branch(l.seps[..n], l.kids[..n]), l.seps[n],
             Branch([EMPTY, Lowest(r)] + r.seps[1..], [l.kids[n]] + r.kids), 0, 0)
  }

  /** Child i is low: it takes a node from its neighbour, or the two become one page.  The flag says
      that the page they are on must be looked at next. */
  function Share(seps: seq<Key>, kids: seq<Tree>, i: nat, j: nat, psize: nat): (out: (Ins, bool))
    requires psize >= 4096 && |seps| == |kids| && j <= i <= j + 1 < |kids| && Alike(kids[j], kids[j + 1])
    ensures out.1 ==> out.0.One? && Alike(out.0.t, Branch(seps, kids))
  {
    var l, r := kids[j], kids[j + 1];
    var ss, ks := RemoveAt(seps, j + 1), RemoveAt(kids, j + 1);
    if i == j && Spare(r, psize) then (PutBranch(ss, ks, j, MoveLeft(l, r), psize), false)
    else if i > j && Spare(l, psize) then (PutBranch(ss, ks, j, MoveRight(l, r), psize), false)
    else (One(Branch(ss, ks[j := Merge(l, r)]), if l.Leaf? then -1 else 0, if l.Leaf? then 0 else -1), true)
  }

  /** mdb_rebalance for child i: the neighbour is the right one for the first child, else the left. */
  function Rebalance(seps: seq<Key>, kids: seq<Tree>, i: nat, psize: nat): (out: (Ins, bool))
    requires psize >= 4096 && |seps| == |kids| >= 2 && i < |kids|
    requires forall j, k :: 0 <= j < k < |kids| ==> Alike(kids[j], kids[k])
    ensures out.1 ==> out.0.One? && Alike(out.0.t, Branch(seps, kids))
  {
    if !Low(kids[i], psize) then (One(Branch(seps, kids), 0, 0), false)
    else Share(seps, kids, i, if i == 0 then 0 else i - 1, psize)
  }

  // ---------------------------------------------------------------- bounds

  /** A tree may be given a larger upper bound. */
  lemma {:induction false} Widen(t: Tree, lo: int, hi: int, hi': int, d: nat, psize: nat)
    requires WF(t, lo, hi, d, psize) && hi <= hi'
    ensures WF(t, lo, hi', d, psize)
    decreases d
  {
    if t.Branch? {
      var n := |t.kids| - 1;
      Widen(t.kids[n], Lo(t.seps, n, lo), hi, hi', d - 1, psize);
      forall i | 0 <= i < n ensures Hi(t.seps, i, hi') == Hi(t.seps, i, hi) {}
    }
  }

  /** Its lower bound may be raised to its lowest key. */
  lemma {:induction false} Tighten(t: Tree, lo: int, hi: int, d: nat, psize: nat)
    requires WF(t, lo, hi, d, psize) && (Enough(t) || t.Branch?)
    ensures var k := Lowest(t);
      lo <= k.rank < hi && 1 <= k.size <= MAXKEY && WF(t, k.rank, hi, d, psize)
    decreases d
  {
    if t.Branch? {
      Tighten(t.kids[0], lo, Hi(t.seps, 0, hi), d - 1, psize);
      forall i | 1 <= i < |t.kids| ensures Lo(t.seps, i, Lowest(t).rank) == Lo(t.seps, i, lo) {}
    }
  }

  // ---------------------------------------------------------------- joining

  lemma JoinLeaves(l: seq<Entry>, r: seq<Entry>, lo: int, m: int, hi: int, psize: nat)
    requires lo < m < hi && EntriesOk(l, lo, m, psize) && EntriesOk(r, m, hi, psize)
    ensures EntriesOk(l + r, lo, hi, psize)
  {
  }

  lemma JoinSeps(ls: seq<Key>, k: Key, rs: seq<Key>, lo: int, m: int, hi: int)
    requires lo < m <= k.rank < hi && SepsOk(ls, lo, m) && SepsOk(rs, k.rank, hi) && 1 <= k.size <= MAXKEY
    ensures SepsOk(ls + [k] + rs[1..], lo, hi)
  {
    var ss := ls + [k] + rs[1..];
    assert forall j :: 0 <= j < |ls| ==> ss[j] == ls[j];
    assert ss[|ls|] == k;
    assert forall j :: |ls| < j < |ss| ==> ss[j] == rs[j - |ls|];
  }

  lemma JoinBounds(ls: seq<Key>, k: Key, rs: seq<Key>, lo: int, hi: int, j: nat)
    requires |ls| > 0 && |rs| > 0 && j < |ls| + |rs|
    ensures var ss := ls + [k] + rs[1..];
      if j < |ls| then Lo(ss, j, lo) == Lo(ls, j, lo) && Hi(ss, j, hi) == Hi(ls, j, k.rank)
      else Lo(ss, j, lo) == Lo(rs, j - |ls|, k.rank) && Hi(ss, j, hi) == Hi(rs, j - |ls|, hi)
  {
  }

  lemma JoinTight(l: Tree, r: Tree, k: Key, lo: int, hi: int, d: nat, psize: nat)
    requires l.Branch? && r.Branch? && WF(l, lo, k.rank, d, psize) && WF(r, k.rank, hi, d, psize)
    requires SepsOk(l.seps + [k] + r.seps[1..], lo, hi)
    ensures KidsOk(l.seps + [k] + r.seps[1..], l.kids + r.kids, lo, hi, d, psize)
  {
    var ss, ks, n := l.seps + [k] + r.seps[1..], l.kids + r.kids, |l.kids|;
    forall j | 0 <= j < |ks|
      ensures Enough(ks[j]) && WF(ks[j], Lo(ss, j, lo), Hi(ss, j, hi), d - 1, psize)
    {
      JoinBounds(l.seps, k, r.seps, lo, hi, j);
    }
  }

  lemma JoinKids(l: Tree, r: Tree, lo: int, m: int, hi: int, d: nat, psize: nat)
    requires l.Branch? && r.Branch? && lo < m < hi && WF(l, lo, m, d, psize) && WF(r, m, hi, d, psize)
    ensures KidsOk(l.seps + [Lowest(r)] + r.seps[1..], l.kids + r.kids, lo, hi, d, psize)
  {
    Tighten(r, m, hi, d, psize);
    Widen(l, lo, m, Lowest(r).rank, d, psize);
    JoinSeps(l.seps, Lowest(r), r.seps, lo, m, hi);
    JoinTight(l, r, Lowest(r), lo, hi, d, psize);
  }

  // ---------------------------------------------------------------- sizes

  lemma DivLess(a: nat, r: nat, b: nat)
    requires r > 0 && a / r < b
    ensures a < b * r
  {
    assert a / r * r <= (b - 1) * r;
  }

  lemma UsedFew(t: Tree, lo: int, hi: int, d: nat, psize: nat)
    requires psize >= 4096 && WF(t, lo, hi, d, psize) && NumKeys(t) <= MinKeys(t)
    ensures NumKeys(t) < MinKeys(t) ==> Used(t) <= 10
    ensures t.Leaf? ==> 2 * Used(t) <= Room(psize)
    ensures t.Branch? ==> Used(t) <= 532
  {
    var sizes := if t.Leaf? then EntrySizes(t.es) else SepSizes(t.seps);
    if |sizes| > 0 {
      Sums.SumStep(sizes, 0);
      assert sizes[..0] == [] && sizes[..1] == [sizes[0]];
      if |sizes| > 1 {
        Sums.SumStep(sizes, 1);
        assert sizes[..2] == sizes;
      } else {
        assert sizes[..1] == sizes;
      }
    }
  }

  /** A page that must be rebalanced uses less than a quarter of its room. */
  lemma UsedLow(t: Tree, lo: int, hi: int, d: nat, psize: nat)
    requires psize >= 4096 && WF(t, lo, hi, d, psize) && Low(t, psize)
    ensures 4 * Used(t) < Room(psize)
  {
    if NumKeys(t) < MinKeys(t) { UsedFew(t, lo, hi, d, psize); } else { DivLess(1000 * Used(t), Room(psize), 250); }
  }

  /** A neighbour that cannot spare a node leaves room for a merge. */
  lemma UsedNear(t: Tree, lo: int, hi: int, d: nat, psize: nat)
    requires psize >= 4096 && WF(t, lo, hi, d, psize) && !Spare(t, psize)
    ensures t.Leaf? ==> 2 * Used(t) <= Room(psize)
    ensures t.Branch? ==> 4 * Used(t) < Room(psize)
  {
    if NumKeys(t) <= MinKeys(t) { UsedFew(t, lo, hi, d, psize); } else { DivLess(1000 * Used(t), Room(psize), 250); }
  }

  lemma SizesCons(e: Entry, es: seq<Entry>)
    ensures Sums.Sum(EntrySizes([e] + es)) == EntrySize(e) + Sums.Sum(EntrySizes(es))
  {
    SizesConcat([e], es);
    assert EntrySizes([e]) == [EntrySize(e)];
    Sums.SumOne(EntrySize(e));
  }

  lemma SepSizesSnoc(ks: seq<Key>, k: Key)
    ensures Sums.Sum(SepSizes(ks + [k])) == Sums.Sum(SepSizes(ks)) + SepSize(k)
  {
    SepSizesConcat(ks, [k]);
    assert SepSizes([k]) == [SepSize(k)];
    Sums.SumOne(SepSize(k));
  }

  lemma SizesSnoc(es: seq<Entry>, e: Entry)
    ensures Sums.Sum(EntrySizes(es + [e])) == Sums.Sum(EntrySizes(es)) + EntrySize(e)
  {
    SizesConcat(es, [e]);
    assert EntrySizes([e]) == [EntrySize(e)];
    Sums.SumOne(EntrySize(e));
  }

  // ---------------------------------------------------------------- merging

  lemma MergeLeaves(l: seq<Entry>, r: seq<Entry>, lo: int, m: int, hi: int, psize: nat)
    requires lo < m < hi && LeafOk(l, lo, m, psize) && LeafOk(r, m, hi, psize)
    requires Used(Leaf(l)) + Used(Leaf(r)) <= Room(psize)
    ensures WF(Leaf(l + r), lo, hi, 1, psize)
  {
    JoinLeaves(l, r, lo, m, hi, psize);
    SizesConcat(l, r);
  }

  lemma MergedSeps(ls: seq<Key>, k: Key, rs: seq<Key>)
    requires |rs| > 0 && rs[0].size == 0 && k.size <= MAXKEY
    ensures Sums.Sum(SepSizes(ls + [k] + rs[1..])) <= Sums.Sum(SepSizes(ls)) + Sums.Sum(SepSizes(rs)) + 512
  {
    SepSizesConcat(ls + [k], rs[1..]);
    SepSizesSnoc(ls, k);
    assert rs == [rs[0]] + rs[1..];
    SepSizesCons(rs[0], rs[1..]);
  }

  lemma MergeBranches(l: Tree, r: Tree, lo: int, m: int, hi: int, d: nat, psize: nat)
    requires l.Branch? && r.Branch? && lo < m < hi && WF(l, lo, m, d, psize) && WF(r, m, hi, d, psize)
    requires Used(l) + Used(r) + 512 <= Room(psize)
    ensures WF(Merge(l, r), lo, hi, d, psize)
  {
    JoinKids(l, r, lo, m, hi, d, psize);
    Tighten(r, m, hi, d, psize);
    MergedSeps(l.seps, Lowest(r), r.seps);
  }

  // ---------------------------------------------------------------- moving one node

  lemma TailLeafSizes(r: seq<Entry>)
    requires |r| > 0
    ensures Sums.Sum(EntrySizes(r[1..])) <= Sums.Sum(EntrySizes(r))
  {
    assert r == [r[0]] + r[1..];
    SizesCons(r[0], r[1..]);
  }

  lemma LeftParts(l: seq<Entry>, r: seq<Entry>)
    requires |r| > 1
    ensures (l + r)[..|l| + 1] == l + [r[0]] && (l + r)[|l| + 1..] == r[1..] && (l + r)[|l| + 1] == r[1]
  {
  }

  lemma MoveLeftLeaf(l: seq<Entry>, r: seq<Entry>, lo: int, m: int, hi: int, psize: nat)
    requires psize >= 4096 && lo < m < hi && LeafOk(l, lo, m, psize) && LeafOk(r, m, hi, psize) && |r| > 1
    requires 4 * Used(Leaf(l)) < Room(psize)
    ensures InsOk(MoveLeft(Leaf(l), Leaf(r)), lo, hi, 1, psize)
  {
    JoinLeaves(l, r, lo, m, hi, psize);
    EntriesHalves(l + r, |l| + 1, lo, hi, psize);
    LeftParts(l, r);
    SizesSnoc(l, r[0]);
    TailLeafSizes(r);
  }

  lemma InitLeafSizes(l: seq<Entry>)
    requires |l| > 0
    ensures Sums.Sum(EntrySizes(l[..|l| - 1])) <= Sums.Sum(EntrySizes(l))
  {
    assert l == l[..|l| - 1] + [l[|l| - 1]];
    SizesSnoc(l[..|l| - 1], l[|l| - 1]);
  }

  lemma MoveRightLeaf(l: seq<Entry>, r: seq<Entry>, lo: int, m: int, hi: int, psize: nat)
    requires psize >= 4096 && lo < m < hi && LeafOk(l, lo, m, psize) && LeafOk(r, m, hi, psize) && |l| > 1
    requires 4 * Used(Leaf(r)) < Room(psize)
    ensures InsOk(MoveRight(Leaf(l), Leaf(r)), lo, hi, 1, psize)
  {
    JoinLeaves(l, r, lo, m, hi, psize);
    EntriesHalves(l + r, |l| - 1, lo, hi, psize);
    RightParts(l, r);
    SizesCons(l[|l| - 1], r);
    InitLeafSizes(l);
  }

  lemma RightParts(l: seq<Entry>, r: seq<Entry>)
    requires |l| > 1
    ensures (l + r)[..|l| - 1] == l[..|l| - 1] && (l + r)[|l| - 1..] == [l[|l| - 1]] + r
    ensures (l + r)[|l| - 1] == l[|l| - 1]
  {
  }

  /** A branch page cut at s. */
  function Cut(ss: seq<Key>, ks: seq<Tree>, s: nat): Ins
    requires |ss| == |ks| && s < |ss|
  {
    Two(Branch(ss[..s], ks[..s]), ss[s], Branch([EMPTY] + ss[s + 1..], ks[s..]), 0, 0)
  }

  /** Moving a node is merging and cutting one place further. */
  lemma MoveLeftIsCut(l: Tree, r: Tree)
    requires Alike(l, r) && l.Branch? && |r.kids| > 2
    ensures MoveLeft(l, r) == Cut(Merge(l, r).seps, Merge(l, r).kids, |l.kids| + 1)
  {
    var ss, ks, n := Merge(l, r).seps, Merge(l, r).kids, |l.kids|;
    assert ss[..n + 1] == l.seps + [Lowest(r)] && ss[n + 2..] == r.seps[2..] && ss[n + 1] == r.seps[1];
    assert ks[..n + 1] == l.kids + [r.kids[0]] && ks[n + 1..] == r.kids[1..];
  }

  lemma MoveRightIsCut(l: Tree, r: Tree)
    requires Alike(l, r) && l.Branch? && |l.kids| > 2
    ensures MoveRight(l, r) == Cut(Merge(l, r).seps, Merge(l, r).kids, |l.kids| - 1)
  {
    var ss, ks, n := Merge(l, r).seps, Merge(l, r).kids, |l.kids| - 1;
    assert ss[..n] == l.seps[..n] && ss[n] == l.seps[n] && ss[n + 1..] == [Lowest(r)] + r.seps[1..];
    assert [EMPTY] + ss[n + 1..] == [EMPTY, Lowest(r)] + r.seps[1..];
    assert ks[..n] == l.kids[..n] && ks[n..] == [l.kids[n]] + r.kids;
  }

  lemma MoveLeftSizes(ls: seq<Key>, k: Key, rs: seq<Key>, psize: nat)
    requires psize >= 4096 && |rs| > 2 && rs[0].size == 0 && k.size <= MAXKEY
    requires 4 * Sums.Sum(SepSizes(ls)) < Room(psize) && Sums.Sum(SepSizes(rs)) <= Room(psize)
    ensures Sums.Sum(SepSizes(ls + [k])) <= Room(psize)
    ensures Sums.Sum(SepSizes([EMPTY] + rs[2..])) <= Room(psize)
  {
    SepSizesSnoc(ls, k);
    SepSizesCons(EMPTY, rs[2..]);
    assert rs == [rs[0]] + ([rs[1]] + rs[2..]);
    SepSizesCons(rs[0], [rs[1]] + rs[2..]);
    SepSizesCons(rs[1], rs[2..]);
  }

  lemma MoveLeftBranch(l: Tree, r: Tree, lo: int, m: int, hi: int, d: nat, psize: nat)
    requires psize >= 4096 && l.Branch? && r.Branch? && lo < m < hi
    requires WF(l, lo, m, d, psize) && WF(r, m, hi, d, psize) && |r.kids| > 2
    requires 4 * Used(l) < Room(psize)
    ensures InsOk(MoveLeft(l, r), lo, hi, d, psize)
  {
    JoinKids(l, r, lo, m, hi, d, psize);
    MoveLeftIsCut(l, r);
    Tighten(r, m, hi, d, psize);
    MoveLeftSizes(l.seps, Lowest(r), r.seps, psize);
    CutOk(Merge(l, r).seps, Merge(l, r).kids, |l.kids| + 1, 0, 0, lo, hi, d, psize);
  }

  lemma InitSizes(ls: seq<Key>)
    requires |ls| > 0
    ensures Sums.Sum(SepSizes(ls[..|ls| - 1])) <= Sums.Sum(SepSizes(ls))
  {
    assert ls == ls[..|ls| - 1] + [ls[|ls| - 1]];
    SepSizesSnoc(ls[..|ls| - 1], ls[|ls| - 1]);
  }

  lemma MoveRightSizes(k: Key, rs: seq<Key>, psize: nat)
    requires psize >= 4096 && |rs| > 0 && rs[0].size == 0 && k.size <= MAXKEY
    requires 4 * Sums.Sum(SepSizes(rs)) < Room(psize)
    ensures Sums.Sum(SepSizes([EMPTY, k] + rs[1..])) <= Room(psize)
  {
    assert [EMPTY, k] + rs[1..] == [EMPTY] + ([k] + rs[1..]);
    SepSizesCons(EMPTY, [k] + rs[1..]);
    SepSizesCons(k, rs[1..]);
    assert rs == [rs[0]] + rs[1..];
    SepSizesCons(rs[0], rs[1..]);
  }

  lemma MoveRightBranch(l: Tree, r: Tree, lo: int, m: int, hi: int, d: nat, psize: nat)
    requires psize >= 4096 && l.Branch? && r.Branch? && lo < m < hi
    requires WF(l, lo, m, d, psize) && WF(r, m, hi, d, psize) && |l.kids| > 2
    requires 4 * Used(r) < Room(psize)
    ensures InsOk(MoveRight(l, r), lo, hi, d, psize)
  {
    JoinKids(l, r, lo, m, hi, d, psize);
    MoveRightIsCut(l, r);
    Tighten(r, m, hi, d, psize);
    InitSizes(l.seps);
    MoveRightSizes(Lowest(r), r.seps, psize);
    CutOk(Merge(l, r).seps, Merge(l, r).kids, |l.kids| - 1, 0, 0, lo, hi, d, psize);
  }

  // ---------------------------------------------------------------- contents and page counts

  lemma MergeKeeps(l: Tree, r: Tree)
    requires Alike(l, r)
    ensures Pairs(Merge(l, r)) == Pairs(l) + Pairs(r)
    ensures Leaves(Merge(l, r)) == Leaves(l) + Leaves(r) - (if l.Leaf? then 1 else 0)
    ensures Branches(Merge(l, r)) == Branches(l) + Branches(r) - (if l.Leaf? then 0 else 1)
  {
    if l.Leaf? {
      assert LeafPairs(l.es + r.es) == LeafPairs(l.es) + LeafPairs(r.es);
    } else {
      AllPairsConcat(l.kids, r.kids);
      CountConcat(l.kids, r.kids);
    }
  }

  /** Two pages have the contents and the page counts of two others. */
  ghost predicate SameTwo(two: Ins, l: Tree, r: Tree) {
    && two.Two? && two.leaves == 0 && two.branches == 0
    && InsPairs(two) == Pairs(l) + Pairs(r)
    && Leaves(two.l) + Leaves(two.r) == Leaves(l) + Leaves(r)
    && Branches(two.l) + Branches(two.r) == Branches(l) + Branches(r)
  }

  lemma CutKeeps(l: Tree, r: Tree, s: nat)
    requires Alike(l, r) && l.Branch? && s < |l.kids| + |r.kids|
    ensures SameTwo(Cut(Merge(l, r).seps, Merge(l, r).kids, s), l, r)
  {
    var ks := l.kids + r.kids;
    assert ks == ks[..s] + ks[s..];
    AllPairsConcat(ks[..s], ks[s..]);
    CountConcat(ks[..s], ks[s..]);
    MergeKeeps(l, r);
  }

  lemma MoveLeftKeeps(l: Tree, r: Tree)
    requires Alike(l, r) && NumKeys(r) > MinKeys(r)
    ensures SameTwo(MoveLeft(l, r), l, r)
  {
    if l.Leaf? {
      assert LeafPairs(l.es + [r.es[0]]) + LeafPairs(r.es[1..]) == LeafPairs(l.es) + LeafPairs(r.es);
    } else {
      MoveLeftIsCut(l, r);
      CutKeeps(l, r, |l.kids| + 1);
    }
  }

  lemma MoveRightKeeps(l: Tree, r: Tree)
    requires Alike(l, r) && NumKeys(l) > MinKeys(l)
    ensures SameTwo(MoveRight(l, r), l, r)
  {
    if l.Leaf? {
      var n := |l.es| - 1;
      assert LeafPairs(l.es[..n]) + LeafPairs([l.es[n]] + r.es) == LeafPairs(l.es) + LeafPairs(r.es);
    } else {
      MoveRightIsCut(l, r);
      CutKeeps(l, r, |l.kids| - 1);
    }
  }

  // ---------------------------------------------------------------- the parent

  /** The children are fine, except that child i may hold too little. */
  ghost predicate LowOk(seps: seq<Key>, kids: seq<Tree>, i: nat, lo: int, hi: int, d: nat, psize: nat) {
    && HoleOk(seps, kids, i, lo, hi, d, psize) && Sums.Sum(SepSizes(seps)) <= Room(psize)
    && WF(kids[i], Lo(seps, i, lo), Hi(seps, i, hi), d - 1, psize)
  }

  lemma DropSep(seps: seq<Key>, j: nat, lo: int, hi: int)
    requires SepsOk(seps, lo, hi) && j + 1 < |seps|
    ensures SepsOk(RemoveAt(seps, j + 1), lo, hi)
  {
    var ss := RemoveAt(seps, j + 1);
    assert forall i :: 0 <= i <= j ==> ss[i] == seps[i];
    assert forall i :: j < i < |ss| ==> ss[i] == seps[i + 1];
  }

  lemma DropSizes(seps: seq<Key>, j: nat)
    requires j + 1 < |seps|
    ensures Sums.Sum(SepSizes(RemoveAt(seps, j + 1))) <= Sums.Sum(SepSizes(seps))
  {
    var ss := RemoveAt(seps, j + 1);
    assert seps == InsertAt(ss, j + 1, seps[j + 1]);
    SepInsertSum(ss, j + 1, seps[j + 1]);
  }

  lemma DropBounds(seps: seq<Key>, j: nat, lo: int, hi: int, i: nat)
    requires j + 1 < |seps| && i < |seps| - 1
    ensures var ss := RemoveAt(seps, j + 1);
      && Lo(ss, i, lo) == (if i <= j then Lo(seps, i, lo) else Lo(seps, i + 1, lo))
      && Hi(ss, i, hi) == (if i < j then Hi(seps, i, hi) else Hi(seps, i + 1, hi))
  {
  }

  /** Taking two neighbours out leaves a hole. */
  lemma DropKid(seps: seq<Key>, kids: seq<Tree>, i: nat, j: nat, lo: int, hi: int, d: nat, psize: nat)
    requires HoleOk(seps, kids, i, lo, hi, d, psize) && j <= i <= j + 1 < |kids|
    ensures HoleOk(RemoveAt(seps, j + 1), RemoveAt(kids, j + 1), j, lo, hi, d, psize)
  {
    var ss, ks := RemoveAt(seps, j + 1), RemoveAt(kids, j + 1);
    DropSep(seps, j, lo, hi);
    forall x | 0 <= x < |ks| && x != j
      ensures Enough(ks[x]) && WF(ks[x], Lo(ss, x, lo), Hi(ss, x, hi), d - 1, psize)
    {
      DropBounds(seps, j, lo, hi, x);
      if x < j { assert ks[x] == kids[x]; } else { assert ks[x] == kids[x + 1]; }
    }
  }

  /** A page fills the hole. */
  lemma FillHole(seps: seq<Key>, kids: seq<Tree>, j: nat, c: Tree, lo: int, hi: int, d: nat, psize: nat)
    requires HoleOk(seps, kids, j, lo, hi, d, psize) && Sums.Sum(SepSizes(seps)) <= Room(psize)
    requires WF(c, Lo(seps, j, lo), Hi(seps, j, hi), d - 1, psize) && Enough(c)
    ensures WF(Branch(seps, kids[j := c]), lo, hi, d, psize)
  {
  }

  /** Two neighbours, the one that is low and the one that is not, and the key between them. */
  ghost predicate Neighbours(l: Tree, r: Tree, lo: int, m: int, hi: int, d: nat, psize: nat) {
    psize >= 4096 && lo < m < hi && WF(l, lo, m, d, psize) && WF(r, m, hi, d, psize)
  }

  lemma NeighboursAlike(l: Tree, r: Tree, lo: int, m: int, hi: int, d: nat, psize: nat)
    requires Neighbours(l, r, lo, m, hi, d, psize)
    ensures Alike(l, r)
  {
  }

  lemma MoveLeftOk(l: Tree, r: Tree, lo: int, m: int, hi: int, d: nat, psize: nat)
    requires Neighbours(l, r, lo, m, hi, d, psize) && Low(l, psize) && Spare(r, psize)
    ensures Alike(l, r) && InsOk(MoveLeft(l, r), lo, hi, d, psize)
  {
    NeighboursAlike(l, r, lo, m, hi, d, psize);
    UsedLow(l, lo, m, d, psize);
    if l.Leaf? { MoveLeftLeaf(l.es, r.es, lo, m, hi, psize); } else { MoveLeftBranch(l, r, lo, m, hi, d, psize); }
  }

  lemma MoveRightOk(l: Tree, r: Tree, lo: int, m: int, hi: int, d: nat, psize: nat)
    requires Neighbours(l, r, lo, m, hi, d, psize) && Low(r, psize) && Spare(l, psize)
    ensures Alike(l, r) && InsOk(MoveRight(l, r), lo, hi, d, psize)
  {
    NeighboursAlike(l, r, lo, m, hi, d, psize);
    UsedLow(r, m, hi, d, psize);
    if l.Leaf? { MoveRightLeaf(l.es, r.es, lo, m, hi, psize); } else { MoveRightBranch(l, r, lo, m, hi, d, psize); }
  }

  /** A merge always fits. */
  lemma MergeOk(l: Tree, r: Tree, lo: int, m: int, hi: int, d: nat, psize: nat)
    requires Neighbours(l, r, lo, m, hi, d, psize)
    requires (Low(l, psize) && !Spare(r, psize) && Enough(r)) || (Low(r, psize) && !Spare(l, psize) && Enough(l))
    ensures Alike(l, r) && WF(Merge(l, r), lo, hi, d, psize) && Enough(Merge(l, r))
  {
    NeighboursAlike(l, r, lo, m, hi, d, psize);
    if Low(l, psize) && !Spare(r, psize) && Enough(r) {
      UsedLow(l, lo, m, d, psize);
      UsedNear(r, m, hi, d, psize);
    } else {
      UsedLow(r, m, hi, d, psize);
      UsedNear(l, lo, m, d, psize);
    }
    if l.Leaf? { MergeLeaves(l.es, r.es, lo, m, hi, psize); } else { MergeBranches(l, r, lo, m, hi, d, psize); }
  }

  /** The outcome for a page: fine, or to be looked at next. */
  ghost predicate DelOk(out: (Ins, bool), lo: int, hi: int, d: nat, psize: nat) {
    if out.1 then out.0.One? && WF(out.0.t, lo, hi, d, psize) else InsOk(out.0, lo, hi, d, psize)
  }

  lemma KidsAlike(seps: seq<Key>, kids: seq<Tree>, i: nat, lo: int, hi: int, d: nat, psize: nat)
    requires LowOk(seps, kids, i, lo, hi, d, psize)
    ensures forall j, k :: 0 <= j < k < |kids| ==> Alike(kids[j], kids[k])
  {
    forall j, k | 0 <= j < k < |kids| ensures Alike(kids[j], kids[k]) {
      assert WF(kids[j], Lo(seps, j, lo), Hi(seps, j, hi), d - 1, psize);
      assert WF(kids[k], Lo(seps, k, lo), Hi(seps, k, hi), d - 1, psize);
    }
  }

  lemma LowNeighbours(seps: seq<Key>, kids: seq<Tree>, i: nat, j: nat, lo: int, hi: int, d: nat, psize: nat)
    requires psize >= 4096 && LowOk(seps, kids, i, lo, hi, d, psize) && j <= i <= j + 1 < |kids|
    ensures Neighbours(kids[j], kids[j + 1], Lo(seps, j, lo), seps[j + 1].rank, Hi(seps, j + 1, hi), d - 1, psize)
    ensures var ss := RemoveAt(seps, j + 1); Lo(ss, j, lo) == Lo(seps, j, lo) && Hi(ss, j, hi) == Hi(seps, j + 1, hi)
  {
    DropBounds(seps, j, lo, hi, j);
    assert WF(kids[j], Lo(seps, j, lo), Hi(seps, j, hi), d - 1, psize);
    assert WF(kids[j + 1], Lo(seps, j + 1, lo), Hi(seps, j + 1, hi), d - 1, psize);
  }

  lemma MoveUp(seps: seq<Key>, kids: seq<Tree>, i: nat, j: nat, two: Ins, lo: int, hi: int, d: nat, psize: nat)
    requires psize >= 4096 && LowOk(seps, kids, i, lo, hi, d, psize) && j <= i <= j + 1 < |kids| && two.Two?
    requires InsOk(two, Lo(seps, j, lo), Hi(seps, j + 1, hi), d - 1, psize)
    ensures InsOk(PutBranch(RemoveAt(seps, j + 1), RemoveAt(kids, j + 1), j, two, psize), lo, hi, d, psize)
  {
    LowNeighbours(seps, kids, i, j, lo, hi, d, psize);
    DropKid(seps, kids, i, j, lo, hi, d, psize);
    PutBranchOk(RemoveAt(seps, j + 1), RemoveAt(kids, j + 1), j, two, lo, hi, d, psize);
  }

  lemma MergeUp(seps: seq<Key>, kids: seq<Tree>, i: nat, j: nat, c: Tree, lo: int, hi: int, d: nat, psize: nat)
    requires psize >= 4096 && LowOk(seps, kids, i, lo, hi, d, psize) && j <= i <= j + 1 < |kids|
    requires WF(c, Lo(seps, j, lo), Hi(seps, j + 1, hi), d - 1, psize) && Enough(c)
    ensures WF(Branch(RemoveAt(seps, j + 1), RemoveAt(kids, j + 1)[j := c]), lo, hi, d, psize)
  {
    LowNeighbours(seps, kids, i, j, lo, hi, d, psize);
    DropKid(seps, kids, i, j, lo, hi, d, psize);
    DropSizes(seps, j);
    FillHole(RemoveAt(seps, j + 1), RemoveAt(kids, j + 1), j, c, lo, hi, d, psize);
  }

  /** Child j or its right neighbour is low. */
  ghost predicate LowPair(seps: seq<Key>, kids: seq<Tree>, i: nat, j: nat, lo: int, hi: int, d: nat, psize: nat) {
    && psize >= 4096 && LowOk(seps, kids, i, lo, hi, d, psize) && j <= i <= j + 1 < |kids|
    && Neighbours(kids[j], kids[j + 1], Lo(seps, j, lo), seps[j + 1].rank, Hi(seps, j + 1, hi), d - 1, psize)
  }

  lemma PairMoveLeft(seps: seq<Key>, kids: seq<Tree>, j: nat, lo: int, hi: int, d: nat, psize: nat)
    requires LowPair(seps, kids, j, j, lo, hi, d, psize) && Low(kids[j], psize) && Spare(kids[j + 1], psize)
    ensures Alike(kids[j], kids[j + 1])
    ensures InsOk(PutBranch(RemoveAt(seps, j + 1), RemoveAt(kids, j + 1), j, MoveLeft(kids[j], kids[j + 1]), psize),
                  lo, hi, d, psize)
  {
    MoveLeftOk(kids[j], kids[j + 1], Lo(seps, j, lo), seps[j + 1].rank, Hi(seps, j + 1, hi), d - 1, psize);
    MoveUp(seps, kids, j, j, MoveLeft(kids[j], kids[j + 1]), lo, hi, d, psize);
  }

  lemma PairMoveRight(seps: seq<Key>, kids: seq<Tree>, j: nat, lo: int, hi: int, d: nat, psize: nat)
    requires LowPair(seps, kids, j + 1, j, lo, hi, d, psize) && Low(kids[j + 1], psize) && Spare(kids[j], psize)
    ensures Alike(kids[j], kids[j + 1])
    ensures InsOk(PutBranch(RemoveAt(seps, j + 1), RemoveAt(kids, j + 1), j, MoveRight(kids[j], kids[j + 1]), psize),
                  lo, hi, d, psize)
  {
    MoveRightOk(kids[j], kids[j + 1], Lo(seps, j, lo), seps[j + 1].rank, Hi(seps, j + 1, hi), d - 1, psize);
    MoveUp(seps, kids, j + 1, j, MoveRight(kids[j], kids[j + 1]), lo, hi, d, psize);
  }

  lemma PairMerge(seps: seq<Key>, kids: seq<Tree>, i: nat, j: nat, lo: int, hi: int, d: nat, psize: nat)
    requires LowPair(seps, kids, i, j, lo, hi, d, psize) && Low(kids[i], psize)
    requires if i == j then !Spare(kids[j + 1], psize) else !Spare(kids[j], psize)
    ensures Alike(kids[j], kids[j + 1])
    ensures WF(Branch(RemoveAt(seps, j + 1), RemoveAt(kids, j + 1)[j := Merge(kids[j], kids[j + 1])]), lo, hi, d, psize)
  {
    assert Enough(kids[if i == j then j + 1 else j]);
    MergeOk(kids[j], kids[j + 1], Lo(seps, j, lo), seps[j + 1].rank, Hi(seps, j + 1, hi), d - 1, psize);
    MergeUp(seps, kids, i, j, Merge(kids[j], kids[j + 1]), lo, hi, d, psize);
  }

  lemma ShareOk(seps: seq<Key>, kids: seq<Tree>, i: nat, j: nat, lo: int, hi: int, d: nat, psize: nat)
    requires LowPair(seps, kids, i, j, lo, hi, d, psize) && Low(kids[i], psize) && Alike(kids[j], kids[j + 1])
    ensures DelOk(Share(seps, kids, i, j, psize), lo, hi, d, psize)
  {
    if i == j && Spare(kids[j + 1], psize) {
      PairMoveLeft(seps, kids, j, lo, hi, d, psize);
    } else if i > j && Spare(kids[j], psize) {
      PairMoveRight(seps, kids, j, lo, hi, d, psize);
    } else {
      PairMerge(seps, kids, i, j, lo, hi, d, psize);
    }
  }

  /** Rebalancing a child leaves a well-formed page. */
  lemma RebalanceOk(seps: seq<Key>, kids: seq<Tree>, i: nat, lo: int, hi: int, d: nat, psize: nat)
    requires psize >= 4096 && LowOk(seps, kids, i, lo, hi, d, psize) && |kids| >= 2
    ensures forall j, k :: 0 <= j < k < |kids| ==> Alike(kids[j], kids[k])
    ensures DelOk(Rebalance(seps, kids, i, psize), lo, hi, d, psize)
  {
    KidsAlike(seps, kids, i, lo, hi, d, psize);
    if !Low(kids[i], psize) {
      FillHole(seps, kids, i, kids[i], lo, hi, d, psize);
      assert kids[i := kids[i]] == kids;
    } else {
      var j := if i == 0 then 0 else i - 1;
      LowNeighbours(seps, kids, i, j, lo, hi, d, psize);
      ShareOk(seps, kids, i, j, lo, hi, d, psize);
    }
  }

  lemma SwapTwo(ks: seq<Tree>, j: nat, two: Ins, l: Tree, r: Tree)
    requires j < |ks| && SameTwo(two, l, r)
    ensures var a, b := InsertAt(ks[j := two.l], j + 1, two.r), InsertAt(ks[j := l], j + 1, r);
      AllPairs(a) == AllPairs(b) && AllLeaves(a) == AllLeaves(b) && AllBranches(a) == AllBranches(b)
  {
    GrowPairs(ks, j, l, r);
    GrowCounts(ks, j, l, r);
    GrowPairs(ks, j, two.l, two.r);
    GrowCounts(ks, j, two.l, two.r);
  }

  lemma PlaceSame(ss: seq<Key>, ks: seq<Tree>, n: nat, t: Tree, psize: nat)
    requires psize >= 4096 && |ss| == |ks| && n < |ss| && t.Branch?
    requires AllPairs(ks) == AllPairs(t.kids) && AllLeaves(ks) == AllLeaves(t.kids)
    requires AllBranches(ks) == AllBranches(t.kids)
    ensures Became(PlaceBranch(ss, ks, n, 0, 0, psize), t, Pairs(t))
  {
    PlaceBranchKeeps(ss, ks, n, 0, 0, psize);
  }

  lemma ShareMoveKeeps(ss: seq<Key>, ks: seq<Tree>, j: nat, two: Ins, t: Tree, l: Tree, r: Tree, psize: nat)
    requires psize >= 4096 && |ss| == |ks| && j < |ks| && SameTwo(two, l, r)
    requires t.Branch? && t.kids == InsertAt(ks[j := l], j + 1, r)
    ensures Became(PutBranch(ss, ks, j, two, psize), t, Pairs(t))
  {
    SwapTwo(ks, j, two, l, r);
    PlaceSame(InsertAt(ss, j + 1, two.sep), InsertAt(ks[j := two.l], j + 1, two.r), j + 1, t, psize);
  }

  lemma ShareMergeKeeps(ss: seq<Key>, ks: seq<Tree>, j: nat, t: Tree, l: Tree, r: Tree)
    requires |ss| == |ks| && j < |ks| && ks[j] == l && Alike(l, r)
    requires t.Branch? && t.kids == InsertAt(ks[j := l], j + 1, r)
    ensures Became(One(Branch(ss, ks[j := Merge(l, r)]), if l.Leaf? then -1 else 0, if l.Leaf? then 0 else -1), t,
                   Pairs(t))
  {
    GrowPairs(ks, j, l, r);
    GrowCounts(ks, j, l, r);
    MergeKeeps(l, r);
    ReplacePairs(ks, j, Merge(l, r));
  }

  lemma Neighbour(kids: seq<Tree>, j: nat)
    requires j + 1 < |kids|
    ensures kids == InsertAt(RemoveAt(kids, j + 1)[j := kids[j]], j + 1, kids[j + 1])
  {
  }

  lemma ShareKeeps(seps: seq<Key>, kids: seq<Tree>, i: nat, j: nat, psize: nat)
    requires psize >= 4096 && |seps| == |kids| && j <= i <= j + 1 < |kids| && Alike(kids[j], kids[j + 1])
    ensures Became(Share(seps, kids, i, j, psize).0, Branch(seps, kids), AllPairs(kids))
  {
    Neighbour(kids, j);
    if i == j && Spare(kids[j + 1], psize) {
      MoveLeftKeeps(kids[j], kids[j + 1]);
      ShareMoveKeeps(RemoveAt(seps, j + 1), RemoveAt(kids, j + 1), j, MoveLeft(kids[j], kids[j + 1]),
                     Branch(seps, kids), kids[j], kids[j + 1], psize);
    } else if i > j && Spare(kids[j], psize) {
      MoveRightKeeps(kids[j], kids[j + 1]);
      ShareMoveKeeps(RemoveAt(seps, j + 1), RemoveAt(kids, j + 1), j, MoveRight(kids[j], kids[j + 1]),
                     Branch(seps, kids), kids[j], kids[j + 1], psize);
    } else {
      ShareMergeKeeps(RemoveAt(seps, j + 1), RemoveAt(kids, j + 1), j, Branch(seps, kids), kids[j], kids[j + 1]);
    }
  }

  /** Rebalancing keeps the contents. */
  lemma RebalanceKeeps(seps: seq<Key>, kids: seq<Tree>, i: nat, psize: nat)
    requires psize >= 4096 && |seps| == |kids| >= 2 && i < |kids|
    requires forall j, k :: 0 <= j < k < |kids| ==> Alike(kids[j], kids[k])
    ensures Became(Rebalance(seps, kids, i, psize).0, Branch(seps, kids), AllPairs(kids))
  {
    if Low(kids[i], psize) {
      ShareKeeps(seps, kids, i, if i == 0 then 0 else i - 1, psize);
    }
  }

  // ---------------------------------------------------------------- the whole deletion

  /** Every branch page has two or more children, all of one kind. */
  predicate Uniform(t: Tree) {
    t.Branch? ==>
      && |t.seps| == |t.kids| >= 2
      && (forall j, k :: 0 <= j < k < |t.kids| ==> Alike(t.kids[j], t.kids[k]))
      && forall i :: 0 <= i < |t.kids| ==> Uniform(t.kids[i])
  }

  function Plus(ins: Ins, leaves: int, branches: int): Ins {
    match ins
    case Full => Full
    case One(t, m, n) => One(t, m + leaves, n + branches)
    case Two(l, sep, r, m, n) => Two(l, sep, r, m + leaves, n + branches)
  }

  /** The leaf without the key, if it has it. */
  function DelLeaf(es: seq<Entry>, rank: int): (out: (Ins, bool))
    ensures out.1 ==> out.0.One? && out.0.t.Leaf?
  {
    var n := Before(LeafPairs(es), rank);
    if n < |es| && es[n].key.rank == rank then (One(Leaf(RemoveAt(es, n)), 0, 0), true)
    else (One(Leaf(es), 0, 0), false)
  }

  /** What happens on a branch page once child i has been dealt with. */
  function DelUp(seps: seq<Key>, kids: seq<Tree>, i: nat, below: (Ins, bool), psize: nat): (out: (Ins, bool))
    requires psize >= 4096 && |seps| == |kids| >= 2 && i < |kids|
    requires forall j, k :: 0 <= j < k < |kids| ==> Alike(kids[j], kids[k])
    requires below.1 ==> below.0.One? && Alike(below.0.t, kids[i])
    ensures out.1 ==> out.0.One? && Alike(out.0.t, Branch(seps, kids))
  {
    if below.1 then
      var ks := kids[i := below.0.t];
      assert forall j, k :: 0 <= j < k < |ks| ==> Alike(kids[j], kids[k]) && Alike(ks[j], ks[k]);
      var out := Rebalance(seps, ks, i, psize);
      (Plus(out.0, below.0.leaves, below.0.branches), out.1)
    else (Absorb(seps, kids, i, below.0, psize), false)
  }

  function Del(t: Tree, rank: int, psize: nat): (out: (Ins, bool))
    requires Uniform(t) && psize >= 4096
    ensures out.1 ==> out.0.One? && Alike(out.0.t, t)
    decreases t
  {
    match t
    case Leaf(es) => DelLeaf(es, rank)
    case Branch(seps, kids) =>
      var i := ChildIndex(seps, rank);
      DelUp(seps, kids, i, Del(kids[i], rank, psize), psize)
  }

  lemma {:induction false} WFUniform(t: Tree, lo: int, hi: int, d: nat, psize: nat)
    requires WF(t, lo, hi, d, psize) && Enough(t)
    ensures Uniform(t)
    decreases d
  {
    if t.Branch? {
      KidsAlike(t.seps, t.kids, 0, lo, hi, d, psize);
      forall i | 0 <= i < |t.kids| ensures Uniform(t.kids[i]) {
        WFUniform(t.kids[i], Lo(t.seps, i, lo), Hi(t.seps, i, hi), d - 1, psize);
      }
    }
  }

  lemma LeafPairsRemove(es: seq<Entry>, n: nat)
    requires n < |es|
    ensures LeafPairs(RemoveAt(es, n)) == RemoveAt(LeafPairs(es), n)
  {
  }

  lemma DelLeafOk(es: seq<Entry>, rank: int, lo: int, hi: int, psize: nat)
    requires LeafOk(es, lo, hi, psize) && |es| > 0
    ensures DelOk(DelLeaf(es, rank), lo, hi, 1, psize)
    ensures Became(DelLeaf(es, rank).0, Leaf(es), Remove(LeafPairs(es), rank))
  {
    var n := Before(LeafPairs(es), rank);
    if n < |es| && es[n].key.rank == rank {
      EntriesRemove(es, n, lo, hi, psize);
      SizesRemove(es, n);
      RemoveHit(LeafPairs(es), n, rank);
      LeafPairsRemove(es, n);
    } else {
      RemoveMiss(LeafPairs(es), n, rank);
    }
  }

  lemma PlusOk(out: (Ins, bool), leaves: int, branches: int, lo: int, hi: int, d: nat, psize: nat)
    requires DelOk(out, lo, hi, d, psize)
    ensures DelOk((Plus(out.0, leaves, branches), out.1), lo, hi, d, psize)
  {
  }

  lemma DelUpOk(t: Tree, i: nat, below: (Ins, bool), lo: int, hi: int, d: nat, psize: nat)
    requires psize >= 4096 && t.Branch? && WF(t, lo, hi, d, psize) && Enough(t) && Uniform(t) && i < |t.kids|
    requires below.1 ==> below.0.One? && Alike(below.0.t, t.kids[i])
    requires DelOk(below, Lo(t.seps, i, lo), Hi(t.seps, i, hi), d - 1, psize)
    ensures DelOk(DelUp(t.seps, t.kids, i, below, psize), lo, hi, d, psize)
  {
    if below.1 {
      var ks := t.kids[i := below.0.t];
      assert LowOk(t.seps, ks, i, lo, hi, d, psize);
      RebalanceOk(t.seps, ks, i, lo, hi, d, psize);
      PlusOk(Rebalance(t.seps, ks, i, psize), below.0.leaves, below.0.branches, lo, hi, d, psize);
    } else {
      AbsorbOk(t, i, below.0, lo, hi, d, psize);
    }
  }

  /** A deletion that succeeds keeps the tree well-formed. */
  lemma {:induction false} DelKeepsForm(t: Tree, rank: int, lo: int, hi: int, d: nat, psize: nat)
    requires psize >= 4096 && WF(t, lo, hi, d, psize) && Enough(t)
    ensures Uniform(t) && DelOk(Del(t, rank, psize), lo, hi, d, psize)
    decreases d
  {
    WFUniform(t, lo, hi, d, psize);
    match t
    case Leaf(es) => DelLeafOk(es, rank, lo, hi, psize);
    case Branch(seps, kids) =>
      var i := ChildIndex(seps, rank);
      DelKeepsForm(kids[i], rank, Lo(seps, i, lo), Hi(seps, i, hi), d - 1, psize);
      DelUpOk(t, i, Del(kids[i], rank, psize), lo, hi, d, psize);
  }

  lemma RemoveChild(t: Tree, i: nat, rank: int, lo: int, hi: int, d: nat, psize: nat)
    requires t.Branch? && WF(t, lo, hi, d, psize) && i < |t.kids| && Lo(t.seps, i, lo) <= rank < Hi(t.seps, i, hi)
    ensures Remove(Pairs(t), rank)
         == AllPairs(t.kids[..i]) + Remove(Pairs(t.kids[i]), rank) + AllPairs(t.kids[i + 1..])
  {
    AroundChild(t, lo, hi, d, psize, i);
    PairsSorted(t, lo, hi, d, psize);
    RemoveMid(AllPairs(t.kids[..i]), Pairs(t.kids[i]), AllPairs(t.kids[i + 1..]), rank);
  }

  lemma PlusKeeps(ins: Ins, leaves: int, branches: int, t: Tree, u: Tree, after: seq<Pair>)
    requires Became(ins, u, after) && Leaves(u) == Leaves(t) + leaves && Branches(u) == Branches(t) + branches
    ensures Became(Plus(ins, leaves, branches), t, after)
  {
  }

  lemma DelUpLow(seps: seq<Key>, kids: seq<Tree>, i: nat, below: (Ins, bool), psize: nat)
    requires psize >= 4096 && |seps| == |kids| >= 2 && i < |kids|
    requires forall j, k :: 0 <= j < k < |kids| ==> Alike(kids[j], kids[k])
    requires below.1 && below.0.One? && Alike(below.0.t, kids[i]) && InsCounts(below.0, kids[i])
    ensures Became(DelUp(seps, kids, i, below, psize).0, Branch(seps, kids), AllPairs(kids[i := below.0.t]))
  {
    var ks := kids[i := below.0.t];
    assert forall j, k :: 0 <= j < k < |ks| ==> Alike(kids[j], kids[k]) && Alike(ks[j], ks[k]);
    RebalanceKeeps(seps, ks, i, psize);
    ReplacePairs(kids, i, below.0.t);
    PlusKeeps(Rebalance(seps, ks, i, psize).0, below.0.leaves, below.0.branches, Branch(seps, kids), Branch(seps, ks),
              AllPairs(ks));
  }

  lemma DelUpKeeps(seps: seq<Key>, kids: seq<Tree>, i: nat, below: (Ins, bool), after: seq<Pair>, psize: nat)
    requires psize >= 4096 && |seps| == |kids| >= 2 && i < |kids|
    requires forall j, k :: 0 <= j < k < |kids| ==> Alike(kids[j], kids[k])
    requires (below.1 ==> below.0.One? && Alike(below.0.t, kids[i])) && Became(below.0, kids[i], after)
    ensures Became(DelUp(seps, kids, i, below, psize).0, Branch(seps, kids),
                   AllPairs(kids[..i]) + after + AllPairs(kids[i + 1..]))
  {
    if below.1 {
      DelUpLow(seps, kids, i, below, psize);
      ReplacePairs(kids, i, below.0.t);
    } else {
      AbsorbKeeps(seps, kids, i, below.0, psize);
    }
  }

  /** It removes exactly the key, and the pages given up or allocated are accounted for. */
  lemma {:induction false} DelKeeps(t: Tree, rank: int, lo: int, hi: int, d: nat, psize: nat)
    requires psize >= 4096 && WF(t, lo, hi, d, psize) && Enough(t) && lo <= rank < hi
    ensures Uniform(t) && Became(Del(t, rank, psize).0, t, Remove(Pairs(t), rank))
    decreases d
  {
    WFUniform(t, lo, hi, d, psize);
    match t
    case Leaf(es) => DelLeafOk(es, rank, lo, hi, psize);
    case Branch(seps, kids) =>
      var i := ChildIndex(seps, rank);
      ChildCovers(seps, rank);
      DelKeeps(kids[i], rank, Lo(seps, i, lo), Hi(seps, i, hi), d - 1, psize);
      DelUpKeeps(seps, kids, i, Del(kids[i], rank, psize), Remove(Pairs(kids[i]), rank), psize);
      RemoveChild(t, i, rank, lo, hi, d, psize);
  }
}
