/**
When storing and deleting succeed.  A page with 20 nodes or more that gets a node which is neither
large nor the last one is split in the middle without looking at sizes, and then the half with the
new node may not fit its page.  Exactly then an operation fails.  A node of at most 100 bytes always
fits, so with keys of at most 90 bytes, and no nodes between 100 bytes and a sixteenth of a page,
nothing fails.
*/
module Capacity {
  import opened Common
  import opened BTree
  import opened BTreeDel
  import opened BTreePut
  import Split
  import Sums

  // ---------------------------------------------------------------- splits

  /** The half that gets the new entry at n when the leaf is split in the middle. */
  function LeafHalf(all: seq<Entry>, n: nat): seq<Entry> {
    if n < |all| / 2 then all[..|all| / 2] else all[|all| / 2..]
  }

  /** The same for a branch and its separators; the first one of the right half becomes empty. */
  function BranchHalf(ss: seq<Key>, n: nat): seq<Key>
    requires n < |ss|
  {
    if n < |ss| / 2 then ss[..|ss| / 2] else [EMPTY] + ss[|ss| / 2 + 1..]
  }

  /** The leaf with its new entry at n fits, or its split looks at sizes, or the half with the entry fits. */
  predicate LeafRoomy(all: seq<Entry>, n: nat, psize: nat)
    requires n < |all| && psize >= 4096
  {
    || Sums.Sum(EntrySizes(all)) <= Room(psize)
    || Split.Checked(|all| - 1, EntrySize(all[n]), n, Room(psize))
    || Sums.Sum(EntrySizes(LeafHalf(all, n))) <= Room(psize)
  }

  /** The same for a branch and its separators. */
  predicate BranchRoomy(ss: seq<Key>, n: nat, psize: nat)
    requires n < |ss| && psize >= 4096
  {
    || Sums.Sum(SepSizes(ss)) <= Room(psize)
    || Split.Checked(|ss| - 1, SepSize(ss[n]), n, Room(psize))
    || Sums.Sum(SepSizes(BranchHalf(ss, n))) <= Room(psize)
  }

  lemma SplitLeafChecked(all: seq<Entry>, n: nat, psize: nat)
    requires psize >= 4096 && n < |all| && Split.Overflowing(EntrySizes(all), n, Room(psize))
    requires Split.Checked(|all| - 1, EntrySize(all[n]), n, Room(psize))
    ensures SplitLeaf(all, n, psize).Two?
  {
    Split.ThreeNodes(EntrySizes(all), n, Room(psize));
    Split.CheckedSplitFits(EntrySizes(all), n, Room(psize));
    SizesHalves(all, Split.SplitIndex(EntrySizes(all), n, Room(psize)));
  }

  /** The split of an overfull leaf succeeds exactly if the leaf is roomy. */
  lemma SplitLeafIff(all: seq<Entry>, n: nat, psize: nat)
    requires psize >= 4096 && n < |all| && Split.Overflowing(EntrySizes(all), n, Room(psize))
    ensures SplitLeaf(all, n, psize).Full? <==> !LeafRoomy(all, n, psize)
  {
    var s := |all| / 2;
    if Split.Checked(|all| - 1, EntrySize(all[n]), n, Room(psize)) {
      SplitLeafChecked(all, n, psize);
    } else {
      assert Split.SplitIndex(EntrySizes(all), n, Room(psize)) == s;
      Split.WithoutNew(EntrySizes(all), n, Room(psize), s);
      SizesHalves(all, s);
    }
  }

  lemma SplitBranchChecked(ss: seq<Key>, ks: seq<Tree>, n: nat, leaves: int, branches: int, psize: nat)
    requires psize >= 4096 && n < |ss| == |ks| && Split.Overflowing(SepSizes(ss), n, Room(psize))
    requires Split.Checked(|ss| - 1, SepSize(ss[n]), n, Room(psize))
    ensures SplitBranch(ss, ks, n, leaves, branches, psize).Two?
  {
    Split.ThreeNodes(SepSizes(ss), n, Room(psize));
    Split.CheckedSplitFits(SepSizes(ss), n, Room(psize));
    SepSizesHalves(ss, Split.SplitIndex(SepSizes(ss), n, Room(psize)));
  }

  /** In the middle, the half without the new separator always fits. */
  lemma OtherHalfFits(ss: seq<Key>, n: nat, s: nat, psize: nat)
    requires psize >= 4096 && n < |ss| && Split.Overflowing(SepSizes(ss), n, Room(psize)) && s < |ss|
    ensures n < s ==> Sums.Sum(SepSizes([EMPTY] + ss[s + 1..])) <= Room(psize)
    ensures n >= s ==> Sums.Sum(SepSizes(ss[..s])) <= Room(psize)
  {
    Split.WithoutNew(SepSizes(ss), n, Room(psize), s);
    SepSizesHalves(ss, s);
  }

  lemma SplitBranchIs(ss: seq<Key>, ks: seq<Tree>, n: nat, leaves: int, branches: int, s: nat, psize: nat)
    requires psize >= 4096 && n < |ss| == |ks| && 3 <= |ss| && 0 < s < |ss|
    requires Split.SplitIndex(SepSizes(ss), n, Room(psize)) == s
    ensures !SplitBranch(ss, ks, n, leaves, branches, psize).Full? <==>
      Sums.Sum(SepSizes(ss[..s])) <= Room(psize) && Sums.Sum(SepSizes([EMPTY] + ss[s + 1..])) <= Room(psize)
  {
  }

  lemma BranchHalfIs(ss: seq<Key>, n: nat, s: nat)
    requires n < |ss| && s == |ss| / 2
    ensures BranchHalf(ss, n) == if n < s then ss[..s] else [EMPTY] + ss[s + 1..]
  {
  }

  /** A split in the middle succeeds exactly if the half with the new separator fits. */
  lemma SplitBranchMiddle(ss: seq<Key>, ks: seq<Tree>, n: nat, leaves: int, branches: int, s: nat, psize: nat)
    requires psize >= 4096 && n < |ss| == |ks| && 3 <= |ss| && s == |ss| / 2
    requires Split.SplitIndex(SepSizes(ss), n, Room(psize)) == s
    requires Split.Overflowing(SepSizes(ss), n, Room(psize))
    ensures SplitBranch(ss, ks, n, leaves, branches, psize).Full? <==>
      Sums.Sum(SepSizes(BranchHalf(ss, n))) > Room(psize)
  {
    OtherHalfFits(ss, n, s, psize);
    SplitBranchIs(ss, ks, n, leaves, branches, s, psize);
    BranchHalfIs(ss, n, s);
  }

  /** The split of an overfull branch succeeds exactly if the branch is roomy. */
  lemma SplitBranchIff(ss: seq<Key>, ks: seq<Tree>, n: nat, leaves: int, branches: int, psize: nat)
    requires psize >= 4096 && n < |ss| == |ks| && Split.Overflowing(SepSizes(ss), n, Room(psize))
    ensures SplitBranch(ss, ks, n, leaves, branches, psize).Full? <==> !BranchRoomy(ss, n, psize)
  {
    if Split.Checked(|ss| - 1, SepSize(ss[n]), n, Room(psize)) {
      SplitBranchChecked(ss, ks, n, leaves, branches, psize);
    } else {
      Split.ThreeNodes(SepSizes(ss), n, Room(psize));
      SplitBranchMiddle(ss, ks, n, leaves, branches, |ss| / 2, psize);
    }
  }

  // ---------------------------------------------------------------- when an insertion fails

  /** The new data takes the place of the old data of the key. */
  predicate InPlace(es: seq<Entry>, k: Key, v: Val, keep: bool) {
    var n := Before(LeafPairs(es), k.rank);
    n < |es| && es[n].key.rank == k.rank && if es[n].big then keep else |v| == |es[n].val|
  }

  /** The entries of the leaf after the old node of the key, if any, has gone. */
  function LeafBase(es: seq<Entry>, rank: int): seq<Entry> {
    var n := Before(LeafPairs(es), rank);
    if n < |es| && es[n].key.rank == rank then RemoveAt(es, n) else es
  }

  /** The separator that comes up when a leaf gets the entry at n. */
  function RisingFromLeaf(all: seq<Entry>, n: nat, psize: nat): Option<Key>
    requires n < |all| && psize >= 4096
  {
    if Sums.Sum(EntrySizes(all)) <= Room(psize) || |all| < 3 then None else
    var s := Split.SplitIndex(EntrySizes(all), n, Room(psize));
    if 0 < s < |all| then Some(all[s].key) else None
  }

  /** The same when a branch gets the separator at n. */
  function RisingFromBranch(ss: seq<Key>, n: nat, psize: nat): Option<Key>
    requires n < |ss| && psize >= 4096
  {
    if Sums.Sum(SepSizes(ss)) <= Room(psize) || |ss| < 3 then None else
    var s := Split.SplitIndex(SepSizes(ss), n, Room(psize));
    if 0 < s < |ss| then Some(ss[s]) else None
  }

  /** What a branch page hands on of what comes up from child i. */
  function RisesOn(seps: seq<Key>, i: nat, up: Option<Key>, psize: nat): Option<Key>
    requires i < |seps| && psize >= 4096
  {
    if up.None? then None else RisingFromBranch(InsertAt(seps, i + 1, up.value), i + 1, psize)
  }

  /** The separator that comes up from the page when the key is stored below it, told from the pages on the way. */
  function Rising(t: Tree, k: Key, v: Val, keep: bool, psize: nat): Option<Key>
    requires Shape(t) && psize >= 4096
    decreases t
  {
    match t
    case Leaf(es) =>
      var n := Before(LeafPairs(es), k.rank);
      if InPlace(es, k, v, keep) then None
      else RisingFromLeaf(InsertAt(LeafBase(es, k.rank), n, NewEntry(k, v, psize)), n, psize)
    case Branch(seps, kids) =>
      var i := ChildIndex(seps, k.rank);
      RisesOn(seps, i, Rising(kids[i], k, v, keep, psize), psize)
  }

  /** The page is roomy for the separator that comes up from child i, if any. */
  predicate RoomyAbove(seps: seq<Key>, i: nat, up: Option<Key>, psize: nat)
    requires i < |seps| && psize >= 4096
  {
    up.Some? ==> BranchRoomy(InsertAt(seps, i + 1, up.value), i + 1, psize)
  }

  /** Every page on the way to the key that gets a node is roomy. */
  predicate AllRoomy(t: Tree, k: Key, v: Val, keep: bool, psize: nat)
    requires Shape(t) && psize >= 4096
    decreases t
  {
    match t
    case Leaf(es) =>
      var n := Before(LeafPairs(es), k.rank);
      InPlace(es, k, v, keep) || LeafRoomy(InsertAt(LeafBase(es, k.rank), n, NewEntry(k, v, psize)), n, psize)
    case Branch(seps, kids) =>
      var i := ChildIndex(seps, k.rank);
      AllRoomy(kids[i], k, v, keep, psize) && RoomyAbove(seps, i, Rising(kids[i], k, v, keep, psize), psize)
  }

  function SepOf(ins: Ins): Option<Key> { if ins.Two? then Some(ins.sep) else None }

  lemma RisingLeaf(es: seq<Entry>, k: Key, v: Val, keep: bool, psize: nat)
    requires psize >= 4096 && !PutLeaf(es, k, v, keep, psize).Full?
    ensures Rising(Leaf(es), k, v, keep, psize) == SepOf(PutLeaf(es, k, v, keep, psize))
  {
  }

  lemma RisingBranch(seps: seq<Key>, kids: seq<Tree>, i: nat, ins: Ins, psize: nat)
    requires psize >= 4096 && |seps| == |kids| && i < |kids| && ins.Two?
    requires !Absorb(seps, kids, i, ins, psize).Full?
    ensures RisingFromBranch(InsertAt(seps, i + 1, ins.sep), i + 1, psize) == SepOf(Absorb(seps, kids, i, ins, psize))
  {
    AbsorbTwo(seps, kids, i, ins, psize);
  }

  lemma InsertIs(t: Tree, k: Key, v: Val, keep: bool, i: nat, psize: nat)
    requires psize >= 4096 && t.Branch? && Shape(t) && i == ChildIndex(t.seps, k.rank)
    ensures Insert(t, k, v, keep, psize) ==
            Absorb(t.seps, t.kids, i, Insert(t.kids[i], k, v, keep, psize), psize)
  {
  }

  lemma RisingStep(t: Tree, k: Key, v: Val, keep: bool, i: nat, psize: nat)
    requires psize >= 4096 && t.Branch? && Shape(t) && i == ChildIndex(t.seps, k.rank)
    ensures Rising(t, k, v, keep, psize) == RisesOn(t.seps, i, Rising(t.kids[i], k, v, keep, psize), psize)
  {
  }

  /** What the pages tell is what an insertion that does not fail brings up. */
  lemma {:induction false} RisingIs(t: Tree, k: Key, v: Val, keep: bool, psize: nat)
    requires psize >= 4096 && Shape(t) && !Insert(t, k, v, keep, psize).Full?
    ensures Rising(t, k, v, keep, psize) == SepOf(Insert(t, k, v, keep, psize))
    decreases t
  {
    if t.Leaf? {
      RisingLeaf(t.es, k, v, keep, psize);
    } else {
      var i := ChildIndex(t.seps, k.rank);
      var ins := Insert(t.kids[i], k, v, keep, psize);
      InsertIs(t, k, v, keep, i, psize);
      RisingStep(t, k, v, keep, i, psize);
      RisingIs(t.kids[i], k, v, keep, psize);
      if ins.Two? { RisingBranch(t.seps, t.kids, i, ins, psize); }
    }
  }

  lemma PlaceLeafIff(base: seq<Entry>, all: seq<Entry>, n: nat, e: Entry, lo: int, hi: int, psize: nat)
    requires psize >= 4096 && LeafOk(base, lo, hi, psize) && n <= |base| && EntryOk(e, psize)
    requires all == InsertAt(base, n, e)
    ensures PlaceLeaf(all, n, psize).Full? <==> !LeafRoomy(all, n, psize)
  {
    if Sums.Sum(EntrySizes(all)) > Room(psize) {
      InsertOverflows(base, n, e, lo, hi, psize);
      SplitLeafIff(all, n, psize);
    }
  }

  lemma LeafBaseOk(es: seq<Entry>, rank: int, lo: int, hi: int, psize: nat)
    requires LeafOk(es, lo, hi, psize)
    ensures LeafOk(LeafBase(es, rank), lo, hi, psize)
  {
    var n := Before(LeafPairs(es), rank);
    if n < |es| && es[n].key.rank == rank {
      EntriesRemove(es, n, lo, hi, psize);
      SizesRemove(es, n);
    }
  }

  lemma PutLeafIs(es: seq<Entry>, k: Key, v: Val, keep: bool, psize: nat, n: nat, all: seq<Entry>)
    requires psize >= 4096 && n == Before(LeafPairs(es), k.rank)
    requires all == InsertAt(LeafBase(es, k.rank), n, NewEntry(k, v, psize))
    ensures PutLeaf(es, k, v, keep, psize)
         == if InPlace(es, k, v, keep) then One(Leaf(es[n := es[n].(val := v)]), 0, 0) else PlaceLeaf(all, n, psize)
  {
  }

  lemma PutLeafIff(es: seq<Entry>, k: Key, v: Val, keep: bool, lo: int, hi: int, psize: nat)
    requires psize >= 4096 && LeafOk(es, lo, hi, psize) && 1 <= k.size <= MAXKEY
    ensures PutLeaf(es, k, v, keep, psize).Full? <==> !AllRoomy(Leaf(es), k, v, keep, psize)
  {
    var n, base, e := Before(LeafPairs(es), k.rank), LeafBase(es, k.rank), NewEntry(k, v, psize);
    LeafBaseOk(es, k.rank, lo, hi, psize);
    NewEntryOk(k, v, psize);
    PutLeafIs(es, k, v, keep, psize, n, InsertAt(base, n, e));
    PlaceLeafIff(base, InsertAt(base, n, e), n, e, lo, hi, psize);
  }

  lemma PlaceBranchIff(seps: seq<Key>, ss: seq<Key>, n: nat, sep: Key, ks: seq<Tree>, leaves: int, branches: int,
                       lo: int, hi: int, psize: nat)
    requires psize >= 4096 && n <= |seps| && ss == InsertAt(seps, n, sep) && |ks| == |ss| && SepsOk(ss, lo, hi)
    requires Sums.Sum(SepSizes(seps)) <= Room(psize)
    ensures PlaceBranch(ss, ks, n, leaves, branches, psize).Full? <==> !BranchRoomy(ss, n, psize)
  {
    if Sums.Sum(SepSizes(ss)) > Room(psize) {
      SepInsertOverflows(seps, n, sep, lo, hi, psize);
      SplitBranchIff(ss, ks, n, leaves, branches, psize);
    }
  }

  lemma PutBranchIs(seps: seq<Key>, kids: seq<Tree>, i: nat, two: Ins, psize: nat, ss: seq<Key>, ks: seq<Tree>)
    requires psize >= 4096 && |seps| == |kids| && i < |kids| && two.Two?
    requires ss == InsertAt(seps, i + 1, two.sep) && ks == InsertAt(kids[i := two.l], i + 1, two.r)
    ensures PutBranch(seps, kids, i, two, psize) == PlaceBranch(ss, ks, i + 1, two.leaves, two.branches, psize)
  {
  }

  /** A branch page that fits and the separator of a new child after child i. */
  ghost predicate Grows(seps: seq<Key>, i: nat, sep: Key, lo: int, hi: int, psize: nat) {
    && psize >= 4096 && i < |seps| && SepsOk(seps, lo, hi) && Sums.Sum(SepSizes(seps)) <= Room(psize)
    && 1 <= sep.size <= MAXKEY && Lo(seps, i, lo) < sep.rank < Hi(seps, i, hi)
  }

  lemma PutBranchIff(seps: seq<Key>, kids: seq<Tree>, i: nat, two: Ins, lo: int, hi: int, psize: nat)
    requires two.Two? && |seps| == |kids| && Grows(seps, i, two.sep, lo, hi, psize)
    ensures PutBranch(seps, kids, i, two, psize).Full? <==> !BranchRoomy(InsertAt(seps, i + 1, two.sep), i + 1, psize)
  {
    var n, ss, ks := i + 1, InsertAt(seps, i + 1, two.sep), InsertAt(kids[i := two.l], i + 1, two.r);
    GrowSeps(seps, i, two.sep, lo, hi);
    PutBranchIs(seps, kids, i, two, psize, ss, ks);
    PlaceBranchIff(seps, ss, n, two.sep, ks, two.leaves, two.branches, lo, hi, psize);
  }

  /** A page and the outcome for its child i. */
  ghost predicate Outcome(t: Tree, i: nat, ins: Ins, lo: int, hi: int, d: nat, psize: nat) {
    && psize >= 4096 && t.Branch? && WF(t, lo, hi, d, psize) && i < |t.kids|
    && InsOk(ins, Lo(t.seps, i, lo), Hi(t.seps, i, hi), d - 1, psize)
  }

  /** The separator of a child that was split lies between the child's bounds. */
  lemma ChildGrows(t: Tree, i: nat, ins: Ins, lo: int, hi: int, d: nat, psize: nat)
    requires Outcome(t, i, ins, lo, hi, d, psize) && ins.Two?
    ensures Grows(t.seps, i, ins.sep, lo, hi, psize)
  {
  }

  lemma AbsorbTwo(seps: seq<Key>, kids: seq<Tree>, i: nat, two: Ins, psize: nat)
    requires psize >= 4096 && |seps| == |kids| && i < |kids| && two.Two?
    ensures Absorb(seps, kids, i, two, psize) == PutBranch(seps, kids, i, two, psize)
  {
  }

  /** What the outcome for child i does to the page. */
  lemma AbsorbIff(t: Tree, i: nat, ins: Ins, lo: int, hi: int, d: nat, psize: nat)
    requires Outcome(t, i, ins, lo, hi, d, psize)
    ensures Absorb(t.seps, t.kids, i, ins, psize).Full? <==> ins.Full? || !RoomyAbove(t.seps, i, SepOf(ins), psize)
  {
    if ins.Two? {
      ChildGrows(t, i, ins, lo, hi, d, psize);
      AbsorbTwo(t.seps, t.kids, i, ins, psize);
      PutBranchIff(t.seps, t.kids, i, ins, lo, hi, psize);
    }
  }

  /** A well-formed tree and a key that may be stored in it. */
  ghost predicate Target(t: Tree, k: Key, lo: int, hi: int, d: nat, psize: nat) {
    && psize >= 4096 && WF(t, lo, hi, d, psize) && Enough(t) && Shape(t)
    && lo <= k.rank < hi && 1 <= k.size <= MAXKEY
  }

  lemma ChildTarget(t: Tree, k: Key, i: nat, lo: int, hi: int, d: nat, psize: nat)
    requires Target(t, k, lo, hi, d, psize) && t.Branch? && i == ChildIndex(t.seps, k.rank)
    ensures i < |t.kids| && Target(t.kids[i], k, Lo(t.seps, i, lo), Hi(t.seps, i, hi), d - 1, psize)
  {
    ChildCovers(t.seps, k.rank);
  }

  lemma ChildOutcome(t: Tree, k: Key, v: Val, keep: bool, i: nat, ins: Ins, lo: int, hi: int, d: nat, psize: nat)
    requires Target(t, k, lo, hi, d, psize) && t.Branch? && i < |t.kids|
    requires Target(t.kids[i], k, Lo(t.seps, i, lo), Hi(t.seps, i, hi), d - 1, psize)
    requires ins == Insert(t.kids[i], k, v, keep, psize)
    ensures Outcome(t, i, ins, lo, hi, d, psize)
  {
    InsertOk(t.kids[i], k, v, keep, Lo(t.seps, i, lo), Hi(t.seps, i, hi), d - 1, psize);
  }

  lemma AllRoomyIs(t: Tree, k: Key, v: Val, keep: bool, i: nat, ins: Ins, psize: nat)
    requires psize >= 4096 && t.Branch? && Shape(t) && i == ChildIndex(t.seps, k.rank)
    requires ins == Insert(t.kids[i], k, v, keep, psize) && (ins.Full? <==> !AllRoomy(t.kids[i], k, v, keep, psize))
    ensures AllRoomy(t, k, v, keep, psize) <==> !ins.Full? && RoomyAbove(t.seps, i, SepOf(ins), psize)
    ensures Insert(t, k, v, keep, psize) == Absorb(t.seps, t.kids, i, ins, psize)
  {
    if !ins.Full? { RisingIs(t.kids[i], k, v, keep, psize); }
  }

  /** An insertion fails exactly if a page on the way that gets a node is not roomy. */
  lemma {:induction false} InsertFailsIff(t: Tree, k: Key, v: Val, keep: bool, lo: int, hi: int, d: nat, psize: nat)
    requires Target(t, k, lo, hi, d, psize)
    ensures Insert(t, k, v, keep, psize).Full? <==> !AllRoomy(t, k, v, keep, psize)
    decreases d
  {
    if t.Leaf? {
      PutLeafIff(t.es, k, v, keep, lo, hi, psize);
    } else {
      var i := ChildIndex(t.seps, k.rank);
      ChildTarget(t, k, i, lo, hi, d, psize);
      InsertFailsIff(t.kids[i], k, v, keep, Lo(t.seps, i, lo), Hi(t.seps, i, hi), d - 1, psize);
      var ins := Insert(t.kids[i], k, v, keep, psize);
      ChildOutcome(t, k, v, keep, i, ins, lo, hi, d, psize);
      AllRoomyIs(t, k, v, keep, i, ins, psize);
      AbsorbIff(t, i, ins, lo, hi, d, psize);
    }
  }

  // ---------------------------------------------------------------- when a deletion fails

  /** If child i takes a node from its neighbour, the page is roomy for the separator that changes. */
  predicate ShareRoomy(seps: seq<Key>, kids: seq<Tree>, i: nat, j: nat, psize: nat)
    requires psize >= 4096 && |seps| == |kids| && j <= i <= j + 1 < |kids| && Alike(kids[j], kids[j + 1])
  {
    var l, r, ss := kids[j], kids[j + 1], RemoveAt(seps, j + 1);
    if i == j && Spare(r, psize) then BranchRoomy(InsertAt(ss, j + 1, MoveLeft(l, r).sep), j + 1, psize)
    else if i > j && Spare(l, psize) then BranchRoomy(InsertAt(ss, j + 1, MoveRight(l, r).sep), j + 1, psize)
    else true
  }

  predicate UpRoomy(seps: seq<Key>, kids: seq<Tree>, i: nat, below: (Ins, bool), psize: nat)
    requires psize >= 4096 && |seps| == |kids| >= 2 && i < |kids|
    requires forall j, k :: 0 <= j < k < |kids| ==> Alike(kids[j], kids[k])
    requires below.1 ==> below.0.One? && Alike(below.0.t, kids[i])
  {
    if below.1 then
      var ks := kids[i := below.0.t];
      assert forall j, k :: 0 <= j < k < |ks| ==> Alike(kids[j], kids[k]) && Alike(ks[j], ks[k]);
      Low(ks[i], psize) ==> ShareRoomy(seps, ks, i, if i == 0 then 0 else i - 1, psize)
    else RoomyAbove(seps, i, SepOf(below.0), psize)
  }

  /** What comes up to a branch page when a key is deleted below it: nothing it must attend to; a separator;
      or that the child has lost a node, with the bytes and nodes it has left. */
  datatype Falling = Nothing | Sep(key: Key) | Lower(leaf: bool, used: nat, keys: nat)

  /** The child must be rebalanced. */
  predicate Lowered(f: Falling, psize: nat)
    requires f.Lower? && psize >= 4096
  {
    !(1000 * f.used / Room(psize) >= 250 && f.keys >= if f.leaf then 1 else 2)
  }

  /** The separator that changes if child i takes a node from its neighbour, which is child j or j+1. */
  function SharedSep(kids: seq<Tree>, i: nat, j: nat, psize: nat): Option<Key>
    requires psize >= 4096 && j <= i <= j + 1 < |kids|
  {
    var n := if i == j then kids[j + 1] else kids[j];
    if !Spare(n, psize) then None
    else if i == j then Some(if n.Leaf? then n.es[1].key else n.seps[1])
    else Some(if n.Leaf? then n.es[|n.es| - 1].key else n.seps[|n.seps| - 1])
  }

  function FromSep(ss: seq<Key>, n: nat, psize: nat): Falling
    requires n < |ss| && psize >= 4096
  {
    var up := RisingFromBranch(ss, n, psize);
    if up.Some? then Sep(up.value) else Nothing
  }

  /** What a branch page hands on whose child i takes a node from its neighbour or is merged with it. */
  function FallsLow(seps: seq<Key>, kids: seq<Tree>, i: nat, j: nat, psize: nat): Falling
    requires psize >= 4096 && |seps| == |kids| && j <= i <= j + 1 < |kids|
  {
    var ss, sep := RemoveAt(seps, j + 1), SharedSep(kids, i, j, psize);
    if sep.Some? then FromSep(InsertAt(ss, j + 1, sep.value), j + 1, psize)
    else Lower(false, Sums.Sum(SepSizes(ss)), |ss|)
  }

  /** What a branch page hands on. */
  function FallsOn(seps: seq<Key>, kids: seq<Tree>, i: nat, f: Falling, psize: nat): Falling
    requires psize >= 4096 && |seps| == |kids| >= 2 && i < |kids|
  {
    match f
    case Nothing => Nothing
    case Sep(k) => FromSep(InsertAt(seps, i + 1, k), i + 1, psize)
    case Lower(_, _, _) =>
      if !Lowered(f, psize) then Nothing
      else FallsLow(seps, kids, i, if i == 0 then 0 else i - 1, psize)
  }

  /** What comes up from the page when the key is deleted below it, told from the pages on the way and their
      neighbours. */
  function Falls(t: Tree, rank: int, psize: nat): Falling
    requires Uniform(t) && psize >= 4096
    decreases t
  {
    match t
    case Leaf(es) =>
      var n := Before(LeafPairs(es), rank);
      if n < |es| && es[n].key.rank == rank then Lower(true, Sums.Sum(EntrySizes(RemoveAt(es, n))), |es| - 1)
      else Nothing
    case Branch(seps, kids) =>
      var i := ChildIndex(seps, rank);
      FallsOn(seps, kids, i, Falls(kids[i], rank, psize), psize)
  }

  predicate SharedRoomy(seps: seq<Key>, kids: seq<Tree>, i: nat, j: nat, psize: nat)
    requires psize >= 4096 && |seps| == |kids| && j <= i <= j + 1 < |kids|
  {
    var sep := SharedSep(kids, i, j, psize);
    sep.Some? ==> BranchRoomy(InsertAt(RemoveAt(seps, j + 1), j + 1, sep.value), j + 1, psize)
  }

  /** The page is roomy for the separator that it gets. */
  predicate FallRoomy(seps: seq<Key>, kids: seq<Tree>, i: nat, f: Falling, psize: nat)
    requires psize >= 4096 && |seps| == |kids| >= 2 && i < |kids|
  {
    match f
    case Nothing => true
    case Sep(k) => BranchRoomy(InsertAt(seps, i + 1, k), i + 1, psize)
    case Lower(_, _, _) => Lowered(f, psize) ==> SharedRoomy(seps, kids, i, if i == 0 then 0 else i - 1, psize)
  }

  /** Every page on the way to the key that gets a new separator is roomy. */
  predicate DelRoomy(t: Tree, rank: int, psize: nat)
    requires Uniform(t) && psize >= 4096
    decreases t
  {
    t.Branch? ==>
      var i := ChildIndex(t.seps, rank);
      DelRoomy(t.kids[i], rank, psize) && FallRoomy(t.seps, t.kids, i, Falls(t.kids[i], rank, psize), psize)
  }

  function Told(out: (Ins, bool)): Falling
    requires out.1 ==> out.0.One?
  {
    if out.1 then Lower(out.0.t.Leaf?, Used(out.0.t), NumKeys(out.0.t))
    else if out.0.Two? then Sep(out.0.sep)
    else Nothing
  }

  lemma RisingPut(seps: seq<Key>, kids: seq<Tree>, i: nat, two: Ins, psize: nat)
    requires psize >= 4096 && |seps| == |kids| && i < |kids| && two.Two? && !PutBranch(seps, kids, i, two, psize).Full?
    ensures FromSep(InsertAt(seps, i + 1, two.sep), i + 1, psize) == Told((PutBranch(seps, kids, i, two, psize), false))
  {
    AbsorbTwo(seps, kids, i, two, psize);
    RisingBranch(seps, kids, i, two, psize);
  }

  /** The separator that a node moved from the neighbour brings. */
  lemma SharedIs(kids: seq<Tree>, ks: seq<Tree>, i: nat, j: nat, psize: nat)
    requires psize >= 4096 && |ks| == |kids| && j <= i <= j + 1 < |kids| && Alike(ks[j], ks[j + 1])
    requires forall k :: 0 <= k < |kids| && k != i ==> ks[k] == kids[k]
    ensures var sep := SharedSep(kids, i, j, psize);
      && (i == j && Spare(ks[j + 1], psize) ==> sep == Some(MoveLeft(ks[j], ks[j + 1]).sep))
      && (i > j && Spare(ks[j], psize) ==> sep == Some(MoveRight(ks[j], ks[j + 1]).sep))
      && (sep.Some? <==> if i == j then Spare(ks[j + 1], psize) else Spare(ks[j], psize))
  {
  }

  lemma ShareTold(seps: seq<Key>, kids: seq<Tree>, ks: seq<Tree>, i: nat, j: nat, psize: nat)
    requires psize >= 4096 && |seps| == |ks| == |kids| && j <= i <= j + 1 < |kids| && Alike(ks[j], ks[j + 1])
    requires forall k :: 0 <= k < |kids| && k != i ==> ks[k] == kids[k]
    ensures ShareRoomy(seps, ks, i, j, psize) <==> SharedRoomy(seps, kids, i, j, psize)
    ensures var out := Share(seps, ks, i, j, psize);
      !out.0.Full? ==> Told(out) == FallsLow(seps, kids, i, j, psize)
  {
    var ss, ms := RemoveAt(seps, j + 1), RemoveAt(ks, j + 1);
    SharedIs(kids, ks, i, j, psize);
    if !Share(seps, ks, i, j, psize).0.Full? {
      if i == j && Spare(ks[j + 1], psize) {
        RisingPut(ss, ms, j, MoveLeft(ks[j], ks[j + 1]), psize);
      } else if i > j && Spare(ks[j], psize) {
        RisingPut(ss, ms, j, MoveRight(ks[j], ks[j + 1]), psize);
      }
    }
  }

  lemma LowIs(t: Tree, psize: nat)
    requires psize >= 4096
    ensures Low(t, psize) <==> Lowered(Lower(t.Leaf?, Used(t), NumKeys(t)), psize)
  {
  }

  lemma PlusTold(ins: Ins, leaves: int, branches: int, flag: bool)
    requires flag ==> ins.One?
    ensures Told((Plus(ins, leaves, branches), flag)) == Told((ins, flag))
    ensures Plus(ins, leaves, branches).Full? <==> ins.Full?
  {
  }

  lemma UpRoomyLow(seps: seq<Key>, kids: seq<Tree>, ks: seq<Tree>, i: nat, j: nat, below: (Ins, bool), psize: nat)
    requires psize >= 4096 && |seps| == |kids| >= 2 && i < |kids| && j == if i == 0 then 0 else i - 1
    requires forall j, k :: 0 <= j < k < |kids| ==> Alike(kids[j], kids[k])
    requires below.1 && below.0.One? && Alike(below.0.t, kids[i]) && ks == kids[i := below.0.t]
    requires Alike(ks[j], ks[j + 1])
    ensures UpRoomy(seps, kids, i, below, psize) <==> (Low(ks[i], psize) ==> ShareRoomy(seps, ks, i, j, psize))
  {
  }

  lemma FallRoomyLow(seps: seq<Key>, kids: seq<Tree>, i: nat, j: nat, t: Tree, psize: nat)
    requires psize >= 4096 && |seps| == |kids| >= 2 && i < |kids| && j == if i == 0 then 0 else i - 1
    ensures FallRoomy(seps, kids, i, Lower(t.Leaf?, Used(t), NumKeys(t)), psize) <==>
      (Low(t, psize) ==> SharedRoomy(seps, kids, i, j, psize))
  {
    LowIs(t, psize);
  }

  /** A branch page whose child has lost a node. */
  lemma LoweredRoomy(seps: seq<Key>, kids: seq<Tree>, ks: seq<Tree>, i: nat, j: nat, below: (Ins, bool), psize: nat)
    requires psize >= 4096 && |seps| == |kids| >= 2 && i < |kids| && j == if i == 0 then 0 else i - 1
    requires forall j, k :: 0 <= j < k < |kids| ==> Alike(kids[j], kids[k])
    requires below.1 && below.0.One? && Alike(below.0.t, kids[i]) && ks == kids[i := below.0.t]
    requires Alike(ks[j], ks[j + 1])
    ensures UpRoomy(seps, kids, i, below, psize) <==> FallRoomy(seps, kids, i, Told(below), psize)
  {
    UpRoomyLow(seps, kids, ks, i, j, below, psize);
    FallRoomyLow(seps, kids, i, j, below.0.t, psize);
    ShareTold(seps, kids, ks, i, j, psize);
  }

  lemma RebalanceTold(seps: seq<Key>, kids: seq<Tree>, ks: seq<Tree>, i: nat, j: nat, psize: nat)
    requires psize >= 4096 && |seps| == |kids| == |ks| >= 2 && i < |kids| && j == if i == 0 then 0 else i - 1
    requires forall j, k :: 0 <= j < k < |ks| ==> Alike(ks[j], ks[k])
    requires forall k :: 0 <= k < |kids| && k != i ==> ks[k] == kids[k]
    ensures var out, f := Rebalance(seps, ks, i, psize), Lower(ks[i].Leaf?, Used(ks[i]), NumKeys(ks[i]));
      !out.0.Full? ==> Told(out) == FallsOn(seps, kids, i, f, psize)
  {
    LowIs(ks[i], psize);
    if Low(ks[i], psize) {
      RebalanceLow(seps, ks, i, j, psize);
      ShareTold(seps, kids, ks, i, j, psize);
    }
  }

  lemma LoweredTold(seps: seq<Key>, kids: seq<Tree>, i: nat, below: (Ins, bool), psize: nat)
    requires psize >= 4096 && |seps| == |kids| >= 2 && i < |kids|
    requires forall j, k :: 0 <= j < k < |kids| ==> Alike(kids[j], kids[k])
    requires below.1 && below.0.One? && Alike(below.0.t, kids[i])
    ensures UpRoomy(seps, kids, i, below, psize) <==> FallRoomy(seps, kids, i, Told(below), psize)
    ensures var out := DelUp(seps, kids, i, below, psize);
      !out.0.Full? ==> Told(out) == FallsOn(seps, kids, i, Told(below), psize)
  {
    var ks, j := kids[i := below.0.t], if i == 0 then 0 else i - 1;
    assert forall j, k :: 0 <= j < k < |ks| ==> Alike(kids[j], kids[k]) && Alike(ks[j], ks[k]);
    LoweredRoomy(seps, kids, ks, i, j, below, psize);
    RebalanceTold(seps, kids, ks, i, j, psize);
    var out := Rebalance(seps, ks, i, psize);
    PlusTold(out.0, below.0.leaves, below.0.branches, out.1);
  }

  /** A branch page whose child was split, or needs nothing. */
  lemma AbsorbTold(seps: seq<Key>, kids: seq<Tree>, i: nat, below: (Ins, bool), psize: nat)
    requires psize >= 4096 && |seps| == |kids| >= 2 && i < |kids|
    requires forall j, k :: 0 <= j < k < |kids| ==> Alike(kids[j], kids[k])
    requires !below.1 && !below.0.Full?
    ensures UpRoomy(seps, kids, i, below, psize) <==> FallRoomy(seps, kids, i, Told(below), psize)
    ensures var out := DelUp(seps, kids, i, below, psize);
      !out.0.Full? ==> Told(out) == FallsOn(seps, kids, i, Told(below), psize)
  {
    if below.0.Two? && !Absorb(seps, kids, i, below.0, psize).Full? { RisingBranch(seps, kids, i, below.0, psize); }
  }

  lemma DelIs(t: Tree, rank: int, i: nat, psize: nat)
    requires psize >= 4096 && t.Branch? && Uniform(t) && i == ChildIndex(t.seps, rank)
    ensures Del(t, rank, psize) == DelUp(t.seps, t.kids, i, Del(t.kids[i], rank, psize), psize)
    ensures Falls(t, rank, psize) == FallsOn(t.seps, t.kids, i, Falls(t.kids[i], rank, psize), psize)
    ensures Del(t.kids[i], rank, psize).0.Full? ==> Del(t, rank, psize).0.Full?
  {
  }

  /** What the pages tell is what a deletion that does not fail brings up. */
  lemma {:induction false} FallsIs(t: Tree, rank: int, psize: nat)
    requires psize >= 4096 && Uniform(t) && !Del(t, rank, psize).0.Full?
    ensures Falls(t, rank, psize) == Told(Del(t, rank, psize))
    decreases t
  {
    if t.Branch? {
      var i := ChildIndex(t.seps, rank);
      DelIs(t, rank, i, psize);
      FallsIs(t.kids[i], rank, psize);
      var below := Del(t.kids[i], rank, psize);
      if below.1 {
        LoweredTold(t.seps, t.kids, i, below, psize);
      } else {
        AbsorbTold(t.seps, t.kids, i, below, psize);
      }
    }
  }

  /** One level of the condition. */
  lemma DelRoomyIs(t: Tree, rank: int, i: nat, below: (Ins, bool), psize: nat)
    requires psize >= 4096 && t.Branch? && Uniform(t) && i == ChildIndex(t.seps, rank)
    requires below == Del(t.kids[i], rank, psize) && (below.0.Full? <==> !DelRoomy(t.kids[i], rank, psize))
    ensures DelRoomy(t, rank, psize) <==> !below.0.Full? && UpRoomy(t.seps, t.kids, i, below, psize)
  {
    if !below.0.Full? {
      FallsIs(t.kids[i], rank, psize);
      if below.1 {
        LoweredTold(t.seps, t.kids, i, below, psize);
      } else {
        AbsorbTold(t.seps, t.kids, i, below, psize);
      }
    }
  }

  lemma MoveIff(seps: seq<Key>, kids: seq<Tree>, i: nat, j: nat, two: Ins, lo: int, hi: int, d: nat, psize: nat)
    requires psize >= 4096 && LowOk(seps, kids, i, lo, hi, d, psize) && j <= i <= j + 1 < |kids| && two.Two?
    requires InsOk(two, Lo(seps, j, lo), Hi(seps, j + 1, hi), d - 1, psize)
    ensures var ss, ks := RemoveAt(seps, j + 1), RemoveAt(kids, j + 1);
      PutBranch(ss, ks, j, two, psize).Full? <==> !BranchRoomy(InsertAt(ss, j + 1, two.sep), j + 1, psize)
  {
    LowNeighbours(seps, kids, i, j, lo, hi, d, psize);
    DropSep(seps, j, lo, hi);
    DropSizes(seps, j);
    PutBranchIff(RemoveAt(seps, j + 1), RemoveAt(kids, j + 1), j, two, lo, hi, psize);
  }

  lemma ShareIff(seps: seq<Key>, kids: seq<Tree>, i: nat, j: nat, lo: int, hi: int, d: nat, psize: nat)
    requires LowPair(seps, kids, i, j, lo, hi, d, psize) && Low(kids[i], psize) && Alike(kids[j], kids[j + 1])
    ensures Share(seps, kids, i, j, psize).0.Full? <==> !ShareRoomy(seps, kids, i, j, psize)
  {
    var l, r := kids[j], kids[j + 1];
    if i == j && Spare(r, psize) {
      MoveLeftOk(l, r, Lo(seps, j, lo), seps[j + 1].rank, Hi(seps, j + 1, hi), d - 1, psize);
      MoveIff(seps, kids, i, j, MoveLeft(l, r), lo, hi, d, psize);
    } else if i > j && Spare(l, psize) {
      MoveRightOk(l, r, Lo(seps, j, lo), seps[j + 1].rank, Hi(seps, j + 1, hi), d - 1, psize);
      MoveIff(seps, kids, i, j, MoveRight(l, r), lo, hi, d, psize);
    }
  }

  lemma RebalanceLow(seps: seq<Key>, kids: seq<Tree>, i: nat, j: nat, psize: nat)
    requires psize >= 4096 && |seps| == |kids| >= 2 && i < |kids|
    requires forall j, k :: 0 <= j < k < |kids| ==> Alike(kids[j], kids[k])
    requires Low(kids[i], psize) && j == if i == 0 then 0 else i - 1
    ensures Rebalance(seps, kids, i, psize) == Share(seps, kids, i, j, psize)
  {
  }

  lemma RebalanceIff(seps: seq<Key>, kids: seq<Tree>, i: nat, j: nat, lo: int, hi: int, d: nat, psize: nat)
    requires psize >= 4096 && LowOk(seps, kids, i, lo, hi, d, psize) && |kids| >= 2
    requires forall j, k :: 0 <= j < k < |kids| ==> Alike(kids[j], kids[k])
    requires j == if i == 0 then 0 else i - 1
    ensures Rebalance(seps, kids, i, psize).0.Full? <==> Low(kids[i], psize) && !ShareRoomy(seps, kids, i, j, psize)
  {
    if Low(kids[i], psize) {
      LowNeighbours(seps, kids, i, j, lo, hi, d, psize);
      RebalanceLow(seps, kids, i, j, psize);
      ShareIff(seps, kids, i, j, lo, hi, d, psize);
    }
  }

  lemma DelUpIs(seps: seq<Key>, kids: seq<Tree>, ks: seq<Tree>, i: nat, below: (Ins, bool), psize: nat)
    requires psize >= 4096 && |seps| == |kids| >= 2 && i < |kids|
    requires forall j, k :: 0 <= j < k < |kids| ==> Alike(kids[j], kids[k])
    requires below.1 && below.0.One? && Alike(below.0.t, kids[i]) && ks == kids[i := below.0.t]
    requires forall j, k :: 0 <= j < k < |ks| ==> Alike(ks[j], ks[k])
    ensures DelUp(seps, kids, i, below, psize).0.Full? <==> Rebalance(seps, ks, i, psize).0.Full?
  {
  }

  lemma DelUpIff(t: Tree, i: nat, below: (Ins, bool), lo: int, hi: int, d: nat, psize: nat)
    requires psize >= 4096 && t.Branch? && WF(t, lo, hi, d, psize) && Enough(t) && Uniform(t) && i < |t.kids|
    requires below.1 ==> below.0.One? && Alike(below.0.t, t.kids[i])
    requires DelOk(below, Lo(t.seps, i, lo), Hi(t.seps, i, hi), d - 1, psize)
    ensures DelUp(t.seps, t.kids, i, below, psize).0.Full?
       <==> below.0.Full? || !UpRoomy(t.seps, t.kids, i, below, psize)
  {
    if below.1 {
      var ks := t.kids[i := below.0.t];
      assert LowOk(t.seps, ks, i, lo, hi, d, psize);
      KidsAlike(t.seps, ks, i, lo, hi, d, psize);
      DelUpIs(t.seps, t.kids, ks, i, below, psize);
      RebalanceIff(t.seps, ks, i, if i == 0 then 0 else i - 1, lo, hi, d, psize);
    } else {
      AbsorbIff(t, i, below.0, lo, hi, d, psize);
    }
  }

  /** A deletion fails exactly if a page on the way that gets a new separator is not roomy. */
  lemma {:induction false} DelFailsIff(t: Tree, rank: int, lo: int, hi: int, d: nat, psize: nat)
    requires psize >= 4096 && WF(t, lo, hi, d, psize) && Enough(t)
    ensures Uniform(t) && (Del(t, rank, psize).0.Full? <==> !DelRoomy(t, rank, psize))
    decreases d
  {
    WFUniform(t, lo, hi, d, psize);
    if t.Branch? {
      var i := ChildIndex(t.seps, rank);
      var l, h := Lo(t.seps, i, lo), Hi(t.seps, i, hi);
      DelFailsIff(t.kids[i], rank, l, h, d - 1, psize);
      DelKeepsForm(t.kids[i], rank, l, h, d - 1, psize);
      DelRoomyIs(t, rank, i, Del(t.kids[i], rank, psize), psize);
      DelUpIff(t, i, Del(t.kids[i], rank, psize), lo, hi, d, psize);
    }
  }

  // ---------------------------------------------------------------- an insertion that fails

  /** Ten nodes of 12 bytes and ten of 396 that fill a page of 4096 bytes; key 10 is missing. */
  function FullLeaf(): (es: seq<Entry>)
    ensures |es| == 20
    ensures forall i :: 0 <= i < 10 ==> es[i].key == Key(i, 2) && |es[i].val| == 0 && !es[i].big
    ensures forall i :: 10 <= i < 20 ==> es[i].key == Key(i + 1, 2) && |es[i].val| == 384 && !es[i].big
  {
    seq(10, i => Entry(Key(i, 2), [], false)) + seq(10, i => Entry(Key(i + 11, 2), seq(384, _ => 0), false))
  }

  lemma FullLeafEntries(es: seq<Entry>)
    requires es == FullLeaf()
    ensures EntriesOk(es, 0, 21, 4096)
  {
    forall i | 0 <= i < |es| ensures 0 <= es[i].key.rank < 21 && EntryOk(es[i], 4096) {
      assert EntrySize(es[i]) == if i < 10 then 12 else 396;
    }
  }

  lemma LopsidedAt(i: nat)
    requires i < 21
    ensures |Split.Lopsided()| == 21 && Split.Lopsided()[i] == if i < 10 then 12 else if i == 10 then 254 else 396
  {
  }

  lemma FullLeafAt(es: seq<Entry>, e: Entry, i: nat)
    requires es == FullLeaf() && EntrySize(e) == 254 && i < 21
    ensures EntrySize(InsertAt(es, 10, e)[i]) == if i < 10 then 12 else if i == 10 then 254 else 396
  {
    if i < 10 {
      assert InsertAt(es, 10, e)[i] == es[i];
    } else if i > 10 {
      assert InsertAt(es, 10, e)[i] == es[i - 1];
    }
  }

  lemma FullLeafSizes(es: seq<Entry>, e: Entry, sizes: seq<nat>)
    requires es == FullLeaf() && EntrySize(e) == 254 && sizes == EntrySizes(InsertAt(es, 10, e))
    ensures sizes == Split.Lopsided()
  {
    LopsidedAt(0);
    forall i | 0 <= i < 21 ensures sizes[i] == Split.Lopsided()[i] {
      LopsidedAt(i);
      FullLeafAt(es, e, i);
    }
  }

  lemma FullLeafFits(es: seq<Entry>, e: Entry)
    requires es == FullLeaf() && EntrySize(e) == 254
    ensures LeafOk(es, 0, 21, 4096)
  {
    FullLeafEntries(es);
    FullLeafSizes(es, e, EntrySizes(InsertAt(es, 10, e)));
    Split.UncheckedCanOverflow();
    SizesInsert(es, 10, e);
  }

  lemma FullLeafSplit(e: Entry)
    requires EntrySize(e) == 254
    ensures PlaceLeaf(InsertAt(FullLeaf(), 10, e), 10, 4096) == Full
  {
    var all := InsertAt(FullLeaf(), 10, e);
    FullLeafSizes(FullLeaf(), e, EntrySizes(all));
    Split.UncheckedCanOverflow();
    SizesHalves(all, 10);
  }

  /** Storing 242 bytes under key 10 fails: the right half would need 4214 of 4080 bytes. */
  lemma InsertCanFail(v: Val)
    requires |v| == 242
    ensures WF(Leaf(FullLeaf()), 0, 21, 1, 4096)
    ensures Insert(Leaf(FullLeaf()), Key(10, 2), v, false, 4096) == Full
  {
    var es, e := FullLeaf(), NewEntry(Key(10, 2), v, 4096);
    FullLeafFits(es, e);
    FullLeafSplit(e);
    BeforeUnique(LeafPairs(es), 10, 10);
  }

  // ---------------------------------------------------------------- trees of short keys

  /** Any ten nodes take at least as much as a node of this size. */
  const SMALL_NODE: nat := 100

  /** The separator of a key of at most this size is such a node. */
  const SHORT_KEY: nat := 90

  predicate ShortEntries(es: seq<Entry>) { forall i :: 0 <= i < |es| ==> es[i].key.size <= SHORT_KEY }

  predicate ShortSeps(ss: seq<Key>) { forall i :: 0 <= i < |ss| ==> ss[i].size <= SHORT_KEY }

  /** All keys and separators are short. */
  predicate Short(t: Tree) {
    match t
    case Leaf(es) => ShortEntries(es)
    case Branch(seps, kids) => ShortSeps(seps) && forall i :: 0 <= i < |kids| ==> Short(kids[i])
  }

  predicate ShortKids(ks: seq<Tree>) { forall i :: 0 <= i < |ks| ==> Short(ks[i]) }

  predicate ShortIns(ins: Ins) {
    match ins
    case Full => true
    case One(t, _, _) => Short(t)
    case Two(l, sep, r, _, _) => Short(l) && sep.size <= SHORT_KEY && Short(r)
  }

  /** A short key whose node is small, or large enough for the split to look at sizes. */
  predicate Tame(k: Key, v: Val, psize: nat) {
    && k.size <= SHORT_KEY
    && (EntrySize(NewEntry(k, v, psize)) <= SMALL_NODE || EntrySize(NewEntry(k, v, psize)) > Room(psize) / 16)
  }

  lemma PlaceLeafShort(all: seq<Entry>, n: nat, psize: nat)
    requires n < |all| && psize >= 4096 && ShortEntries(all)
    ensures ShortIns(PlaceLeaf(all, n, psize))
  {
  }

  lemma NewLeafShort(es: seq<Entry>, rank: int, n: nat, e: Entry)
    requires ShortEntries(es) && n == Before(LeafPairs(es), rank) && e.key.size <= SHORT_KEY
    ensures n <= |LeafBase(es, rank)| && ShortEntries(InsertAt(LeafBase(es, rank), n, e))
  {
    assert ShortEntries(LeafBase(es, rank));
  }

  lemma PutLeafShort(es: seq<Entry>, k: Key, v: Val, keep: bool, psize: nat)
    requires psize >= 4096 && ShortEntries(es) && k.size <= SHORT_KEY
    ensures ShortIns(PutLeaf(es, k, v, keep, psize))
  {
    var n := Before(LeafPairs(es), k.rank);
    var all := InsertAt(LeafBase(es, k.rank), n, NewEntry(k, v, psize));
    PutLeafIs(es, k, v, keep, psize, n, all);
    if InPlace(es, k, v, keep) {
      assert ShortEntries(es[n := es[n].(val := v)]);
    } else {
      NewLeafShort(es, k.rank, n, NewEntry(k, v, psize));
      PlaceLeafShort(all, n, psize);
    }
  }

  lemma SplitBranchShort(ss: seq<Key>, ks: seq<Tree>, n: nat, leaves: int, branches: int, psize: nat)
    requires |ss| == |ks| && n < |ss| && psize >= 4096 && ShortSeps(ss) && ShortKids(ks)
    ensures ShortIns(SplitBranch(ss, ks, n, leaves, branches, psize))
  {
  }

  lemma PlaceBranchShort(ss: seq<Key>, ks: seq<Tree>, n: nat, leaves: int, branches: int, psize: nat)
    requires |ss| == |ks| && n < |ss| && psize >= 4096 && ShortSeps(ss) && ShortKids(ks)
    ensures ShortIns(PlaceBranch(ss, ks, n, leaves, branches, psize))
  {
    SplitBranchShort(ss, ks, n, leaves, branches, psize);
  }

  lemma GrownShort(kids: seq<Tree>, i: nat, l: Tree, r: Tree)
    requires i < |kids| && ShortKids(kids) && Short(l) && Short(r)
    ensures ShortKids(InsertAt(kids[i := l], i + 1, r))
  {
  }

  lemma GrownSepsShort(seps: seq<Key>, n: nat, sep: Key)
    requires n <= |seps| && ShortSeps(seps) && sep.size <= SHORT_KEY
    ensures ShortSeps(InsertAt(seps, n, sep))
  {
  }

  lemma PutBranchShort(seps: seq<Key>, kids: seq<Tree>, i: nat, two: Ins, psize: nat)
    requires psize >= 4096 && |seps| == |kids| && i < |kids| && two.Two?
    requires ShortSeps(seps) && ShortKids(kids) && ShortIns(two)
    ensures ShortIns(PutBranch(seps, kids, i, two, psize))
  {
    var ss, ks := InsertAt(seps, i + 1, two.sep), InsertAt(kids[i := two.l], i + 1, two.r);
    GrownBoth(seps, kids, i, two, ss, ks);
    PlaceBranchShort(ss, ks, i + 1, two.leaves, two.branches, psize);
    PutBranchIs(seps, kids, i, two, psize, ss, ks);
  }

  lemma GrownBoth(seps: seq<Key>, kids: seq<Tree>, i: nat, two: Ins, ss: seq<Key>, ks: seq<Tree>)
    requires |seps| == |kids| && i < |kids| && two.Two? && ShortSeps(seps) && ShortKids(kids) && ShortIns(two)
    requires ss == InsertAt(seps, i + 1, two.sep) && ks == InsertAt(kids[i := two.l], i + 1, two.r)
    ensures |ss| == |ks| == |kids| + 1 && ShortSeps(ss) && ShortKids(ks)
  {
    GrownSepsShort(seps, i + 1, two.sep);
    GrownShort(kids, i, two.l, two.r);
  }

  lemma AbsorbShort(seps: seq<Key>, kids: seq<Tree>, i: nat, ins: Ins, psize: nat)
    requires psize >= 4096 && |seps| == |kids| && i < |kids|
    requires ShortSeps(seps) && ShortKids(kids) && ShortIns(ins)
    ensures ShortIns(Absorb(seps, kids, i, ins, psize))
  {
    if ins.Two? { PutBranchShort(seps, kids, i, ins, psize); }
  }

  /** Storing a short key keeps all keys short. */
  lemma {:induction false} InsertShort(t: Tree, k: Key, v: Val, keep: bool, psize: nat)
    requires psize >= 4096 && Shape(t) && Short(t) && k.size <= SHORT_KEY
    ensures ShortIns(Insert(t, k, v, keep, psize))
    decreases t
  {
    match t
    case Leaf(es) => PutLeafShort(es, k, v, keep, psize);
    case Branch(seps, kids) =>
      var i := ChildIndex(seps, k.rank);
      InsertShort(kids[i], k, v, keep, psize);
      AbsorbShort(seps, kids, i, Insert(kids[i], k, v, keep, psize), psize);
  }

  lemma {:induction false} LowestShort(t: Tree)
    requires Short(t)
    ensures Lowest(t).size <= SHORT_KEY
    decreases t
  {
    if t.Branch? && t.kids != [] { LowestShort(t.kids[0]); }
  }

  lemma MergeShort(l: Tree, r: Tree)
    requires Alike(l, r) && Short(l) && Short(r)
    ensures Short(Merge(l, r))
  {
    LowestShort(r);
  }

  lemma MoveLeftShort(l: Tree, r: Tree)
    requires Alike(l, r) && NumKeys(r) > MinKeys(r) && Short(l) && Short(r)
    ensures ShortIns(MoveLeft(l, r))
  {
    LowestShort(r);
  }

  lemma MoveRightShort(l: Tree, r: Tree)
    requires Alike(l, r) && NumKeys(l) > MinKeys(l) && Short(l) && Short(r)
    ensures ShortIns(MoveRight(l, r))
  {
    LowestShort(r);
  }

  lemma ShareShort(seps: seq<Key>, kids: seq<Tree>, i: nat, j: nat, psize: nat)
    requires psize >= 4096 && |seps| == |kids| && j <= i <= j + 1 < |kids| && Alike(kids[j], kids[j + 1])
    requires ShortSeps(seps) && ShortKids(kids)
    ensures ShortIns(Share(seps, kids, i, j, psize).0)
  {
    var l, r, ss, ks := kids[j], kids[j + 1], RemoveAt(seps, j + 1), RemoveAt(kids, j + 1);
    assert ShortSeps(ss) && ShortKids(ks);
    if i == j && Spare(r, psize) {
      MoveLeftShort(l, r);
      PutBranchShort(ss, ks, j, MoveLeft(l, r), psize);
    } else if i > j && Spare(l, psize) {
      MoveRightShort(l, r);
      PutBranchShort(ss, ks, j, MoveRight(l, r), psize);
    } else {
      MergeShort(l, r);
    }
  }

  lemma RebalanceShort(seps: seq<Key>, kids: seq<Tree>, i: nat, psize: nat)
    requires psize >= 4096 && |seps| == |kids| >= 2 && i < |kids| && ShortSeps(seps) && ShortKids(kids)
    requires forall j, k :: 0 <= j < k < |kids| ==> Alike(kids[j], kids[k])
    ensures ShortIns(Rebalance(seps, kids, i, psize).0)
  {
    if Low(kids[i], psize) {
      var j := if i == 0 then 0 else i - 1;
      RebalanceLow(seps, kids, i, j, psize);
      ShareShort(seps, kids, i, j, psize);
    }
  }

  lemma DelUpShort(seps: seq<Key>, kids: seq<Tree>, i: nat, below: (Ins, bool), psize: nat)
    requires psize >= 4096 && |seps| == |kids| >= 2 && i < |kids| && ShortSeps(seps) && ShortKids(kids)
    requires forall j, k :: 0 <= j < k < |kids| ==> Alike(kids[j], kids[k])
    requires (below.1 ==> below.0.One? && Alike(below.0.t, kids[i])) && ShortIns(below.0)
    ensures ShortIns(DelUp(seps, kids, i, below, psize).0)
  {
    if below.1 {
      var ks := kids[i := below.0.t];
      assert forall j, k :: 0 <= j < k < |ks| ==> Alike(kids[j], kids[k]) && Alike(ks[j], ks[k]);
      RebalanceShort(seps, ks, i, psize);
    } else {
      AbsorbShort(seps, kids, i, below.0, psize);
    }
  }

  /** Deleting keeps all keys short. */
  lemma {:induction false} DelShort(t: Tree, rank: int, psize: nat)
    requires psize >= 4096 && Uniform(t) && Short(t)
    ensures ShortIns(Del(t, rank, psize).0)
    decreases t
  {
    if t.Branch? {
      var i := ChildIndex(t.seps, rank);
      DelShort(t.kids[i], rank, psize);
      DelUpShort(t.seps, t.kids, i, Del(t.kids[i], rank, psize), psize);
    }
  }

  // ---------------------------------------------------------------- nothing fails on short keys

  lemma {:induction false} SumAtLeast(s: seq<nat>)
    requires forall i :: 0 <= i < |s| ==> s[i] >= 10
    ensures Sums.Sum(s) >= 10 * |s|
  {
    if s != [] { SumAtLeast(s[..|s| - 1]); }
  }

  /** Both halves get ten nodes, so the half without a small new node outweighs it. */
  lemma SmallFits(sizes: seq<nat>, n: nat, pmax: nat, s: nat)
    requires Split.Overflowing(sizes, n, pmax) && sizes[n] <= SMALL_NODE && 10 <= s <= |sizes| - 10
    requires forall i :: 0 <= i < |sizes| ==> sizes[i] >= 10
    ensures Sums.Sum(sizes[..s]) <= pmax && Sums.Sum(sizes[s..]) <= pmax
  {
    Split.WithoutNew(sizes, n, pmax, s);
    Sums.SumSplit(sizes, s);
    SumAtLeast(sizes[..s]);
    SumAtLeast(sizes[s..]);
  }

  lemma TameLeaf(base: seq<Entry>, all: seq<Entry>, n: nat, e: Entry, lo: int, hi: int, psize: nat)
    requires psize >= 4096 && LeafOk(base, lo, hi, psize) && n <= |base| && EntryOk(e, psize)
    requires all == InsertAt(base, n, e)
    requires EntrySize(e) <= SMALL_NODE || EntrySize(e) > Room(psize) / 16
    ensures LeafRoomy(all, n, psize)
  {
    if Sums.Sum(EntrySizes(all)) > Room(psize) && !Split.Checked(|all| - 1, EntrySize(all[n]), n, Room(psize)) {
      InsertOverflows(base, n, e, lo, hi, psize);
      SmallFits(EntrySizes(all), n, Room(psize), |all| / 2);
      SizesHalves(all, |all| / 2);
    }
  }

  lemma SepsTen(ss: seq<Key>)
    ensures forall i :: 0 <= i < |ss| ==> SepSizes(ss)[i] >= 10
  {
  }

  lemma SmallSepHalf(ss: seq<Key>, sizes: seq<nat>, n: nat, s: nat, pmax: nat)
    requires n < |ss| && sizes == SepSizes(ss) && Split.Overflowing(sizes, n, pmax) && sizes[n] <= SMALL_NODE
    requires |ss| >= 21 && s == |ss| / 2
    ensures Sums.Sum(SepSizes(ss[..s])) <= pmax && Sums.Sum(SepSizes([EMPTY] + ss[s + 1..])) <= pmax
  {
    SepsTen(ss);
    SmallFits(sizes, n, pmax, s);
    SepSizesHalves(ss, s);
  }

  lemma SmallSep(ss: seq<Key>, n: nat, psize: nat)
    requires psize >= 4096 && n < |ss| && Split.Overflowing(SepSizes(ss), n, Room(psize))
    requires SepSize(ss[n]) <= SMALL_NODE
    ensures BranchRoomy(ss, n, psize)
  {
    if |ss| >= 21 { SmallSepHalf(ss, SepSizes(ss), n, |ss| / 2, Room(psize)); }
  }

  lemma GrownOverflows(seps: seq<Key>, ss: seq<Key>, n: nat, i: nat, sep: Key, lo: int, hi: int, psize: nat)
    requires Grows(seps, i, sep, lo, hi, psize) && n == i + 1 && ss == InsertAt(seps, n, sep)
    requires Sums.Sum(SepSizes(ss)) > Room(psize)
    ensures Split.Overflowing(SepSizes(ss), n, Room(psize))
  {
    GrowSeps(seps, i, sep, lo, hi);
    SepInsertOverflows(seps, n, sep, lo, hi, psize);
  }

  lemma ShortIsSmall(k: Key)
    requires k.size <= SHORT_KEY
    ensures SepSize(k) <= SMALL_NODE
  {
  }

  lemma ShortSep(seps: seq<Key>, ss: seq<Key>, n: nat, i: nat, sep: Key, lo: int, hi: int, psize: nat)
    requires Grows(seps, i, sep, lo, hi, psize) && sep.size <= SHORT_KEY && n == i + 1 && ss == InsertAt(seps, n, sep)
    ensures BranchRoomy(ss, n, psize)
  {
    if Sums.Sum(SepSizes(ss)) > Room(psize) {
      GrownOverflows(seps, ss, n, i, sep, lo, hi, psize);
      ShortIsSmall(sep);
      SmallSep(ss, n, psize);
    }
  }

  lemma ShortSepAbove(seps: seq<Key>, i: nat, sep: Key, lo: int, hi: int, psize: nat)
    requires Grows(seps, i, sep, lo, hi, psize) && sep.size <= SHORT_KEY
    ensures i < |seps| && RoomyAbove(seps, i, Some(sep), psize)
  {
    ShortSep(seps, InsertAt(seps, i + 1, sep), i + 1, i, sep, lo, hi, psize);
  }

  lemma ShortAbove(t: Tree, i: nat, ins: Ins, lo: int, hi: int, d: nat, psize: nat)
    requires Outcome(t, i, ins, lo, hi, d, psize) && ShortIns(ins)
    ensures RoomyAbove(t.seps, i, SepOf(ins), psize)
  {
    if ins.Two? {
      ChildGrows(t, i, ins, lo, hi, d, psize);
      ShortSepAbove(t.seps, i, ins.sep, lo, hi, psize);
    }
  }

  lemma TameOnLeaf(es: seq<Entry>, k: Key, v: Val, keep: bool, lo: int, hi: int, psize: nat)
    requires psize >= 4096 && LeafOk(es, lo, hi, psize) && 1 <= k.size && Tame(k, v, psize)
    ensures AllRoomy(Leaf(es), k, v, keep, psize)
  {
    var n, base, e := Before(LeafPairs(es), k.rank), LeafBase(es, k.rank), NewEntry(k, v, psize);
    LeafBaseOk(es, k.rank, lo, hi, psize);
    NewEntryOk(k, v, psize);
    TameLeaf(base, InsertAt(base, n, e), n, e, lo, hi, psize);
  }

  /** On a tree of short keys storing a tame key does not fail. */
  lemma {:induction false} TameRoomy(t: Tree, k: Key, v: Val, keep: bool, lo: int, hi: int, d: nat, psize: nat)
    requires Target(t, k, lo, hi, d, psize) && Short(t) && Tame(k, v, psize)
    ensures AllRoomy(t, k, v, keep, psize)
    decreases d
  {
    if t.Leaf? {
      TameOnLeaf(t.es, k, v, keep, lo, hi, psize);
    } else {
      var i := ChildIndex(t.seps, k.rank);
      ChildTarget(t, k, i, lo, hi, d, psize);
      TameRoomy(t.kids[i], k, v, keep, Lo(t.seps, i, lo), Hi(t.seps, i, hi), d - 1, psize);
      var ins := Insert(t.kids[i], k, v, keep, psize);
      ChildOutcome(t, k, v, keep, i, ins, lo, hi, d, psize);
      InsertShort(t.kids[i], k, v, keep, psize);
      InsertFailsIff(t.kids[i], k, v, keep, Lo(t.seps, i, lo), Hi(t.seps, i, hi), d - 1, psize);
      AllRoomyIs(t, k, v, keep, i, ins, psize);
      ShortAbove(t, i, ins, lo, hi, d, psize);
    }
  }

  lemma MoveRoomy(seps: seq<Key>, kids: seq<Tree>, i: nat, j: nat, two: Ins, lo: int, hi: int, d: nat, psize: nat)
    requires psize >= 4096 && LowOk(seps, kids, i, lo, hi, d, psize) && j <= i <= j + 1 < |kids| && two.Two?
    requires InsOk(two, Lo(seps, j, lo), Hi(seps, j + 1, hi), d - 1, psize) && two.sep.size <= SHORT_KEY
    ensures BranchRoomy(InsertAt(RemoveAt(seps, j + 1), j + 1, two.sep), j + 1, psize)
  {
    LowNeighbours(seps, kids, i, j, lo, hi, d, psize);
    DropSep(seps, j, lo, hi);
    DropSizes(seps, j);
    var ss := RemoveAt(seps, j + 1);
    ShortSep(ss, InsertAt(ss, j + 1, two.sep), j + 1, j, two.sep, lo, hi, psize);
  }

  lemma ShortShare(seps: seq<Key>, kids: seq<Tree>, i: nat, j: nat, lo: int, hi: int, d: nat, psize: nat)
    requires LowPair(seps, kids, i, j, lo, hi, d, psize) && Low(kids[i], psize) && Alike(kids[j], kids[j + 1])
    requires ShortKids(kids)
    ensures ShareRoomy(seps, kids, i, j, psize)
  {
    var l, r := kids[j], kids[j + 1];
    if i == j && Spare(r, psize) {
      MoveLeftOk(l, r, Lo(seps, j, lo), seps[j + 1].rank, Hi(seps, j + 1, hi), d - 1, psize);
      MoveLeftShort(l, r);
      MoveRoomy(seps, kids, i, j, MoveLeft(l, r), lo, hi, d, psize);
    } else if i > j && Spare(l, psize) {
      MoveRightOk(l, r, Lo(seps, j, lo), seps[j + 1].rank, Hi(seps, j + 1, hi), d - 1, psize);
      MoveRightShort(l, r);
      MoveRoomy(seps, kids, i, j, MoveRight(l, r), lo, hi, d, psize);
    }
  }

  lemma ShortLow(seps: seq<Key>, kids: seq<Tree>, i: nat, j: nat, lo: int, hi: int, d: nat, psize: nat)
    requires psize >= 4096 && LowOk(seps, kids, i, lo, hi, d, psize) && Low(kids[i], psize) && ShortKids(kids)
    requires |kids| >= 2 && j == (if i == 0 then 0 else i - 1) && Alike(kids[j], kids[j + 1])
    ensures ShareRoomy(seps, kids, i, j, psize)
  {
    LowNeighbours(seps, kids, i, j, lo, hi, d, psize);
    ShortShare(seps, kids, i, j, lo, hi, d, psize);
  }

  lemma ShortUp(t: Tree, i: nat, below: (Ins, bool), lo: int, hi: int, d: nat, psize: nat)
    requires psize >= 4096 && t.Branch? && WF(t, lo, hi, d, psize) && Enough(t) && Uniform(t)
    requires i < |t.kids| && Short(t)
    requires below.1 ==> below.0.One? && Alike(below.0.t, t.kids[i])
    requires DelOk(below, Lo(t.seps, i, lo), Hi(t.seps, i, hi), d - 1, psize) && ShortIns(below.0)
    ensures UpRoomy(t.seps, t.kids, i, below, psize)
  {
    if below.1 {
      var ks, j := t.kids[i := below.0.t], if i == 0 then 0 else i - 1;
      ShortLowered(t, i, j, below.0.t, ks, lo, hi, d, psize);
    } else {
      ShortAbove(t, i, below.0, lo, hi, d, psize);
    }
  }

  lemma ShortLowered(t: Tree, i: nat, j: nat, c: Tree, ks: seq<Tree>, lo: int, hi: int, d: nat, psize: nat)
    requires psize >= 4096 && t.Branch? && WF(t, lo, hi, d, psize) && Enough(t) && Uniform(t) && Short(t)
    requires i < |t.kids| && j == (if i == 0 then 0 else i - 1) && ks == t.kids[i := c] && Short(c)
    requires LowOk(t.seps, ks, i, lo, hi, d, psize) && Alike(c, t.kids[i])
    ensures |ks| >= 2 && Alike(ks[j], ks[j + 1]) && (Low(ks[i], psize) ==> ShareRoomy(t.seps, ks, i, j, psize))
  {
    KidsAlike(t.seps, ks, i, lo, hi, d, psize);
    assert ShortKids(ks);
    if Low(ks[i], psize) { ShortLow(t.seps, ks, i, j, lo, hi, d, psize); }
  }

  /** On a tree of short keys a deletion does not fail. */
  lemma {:induction false} ShortRoomy(t: Tree, rank: int, lo: int, hi: int, d: nat, psize: nat)
    requires psize >= 4096 && WF(t, lo, hi, d, psize) && Enough(t) && Uniform(t) && Short(t)
    ensures DelRoomy(t, rank, psize)
    decreases d
  {
    if t.Branch? {
      var i := ChildIndex(t.seps, rank);
      var l, h := Lo(t.seps, i, lo), Hi(t.seps, i, hi);
      ShortRoomy(t.kids[i], rank, l, h, d - 1, psize);
      DelKeepsForm(t.kids[i], rank, l, h, d - 1, psize);
      DelShort(t.kids[i], rank, psize);
      ShortUp(t, i, Del(t.kids[i], rank, psize), lo, hi, d, psize);
      DelFailsIff(t.kids[i], rank, l, h, d - 1, psize);
      DelRoomyIs(t, rank, i, Del(t.kids[i], rank, psize), psize);
    }
  }
}
