/**
One database in a transaction (MDB_db and the operations on it): the tree, its depth and the counters
kept beside it.  Every operation is the corresponding one on a map, and stays so over any run.
*/
module Database {
  import opened Common
  import opened BTree
  import opened BTreePut
  import opened BTreeDel
  import opened Capacity
  import NodeSearch
  import opened PageFormat
  import Split
  import Sums

  // ---------------------------------------------------------------- sorted pairs as a map

  ghost function MapOf(s: seq<Pair>): map<int, Val>
    requires Sorted(s)
  {
    map p | p in s :: p.rank := p.val
  }

  lemma MapLookup(s: seq<Pair>, x: int)
    requires Sorted(s)
    ensures Lookup(s, x) == if x in MapOf(s) then Some(MapOf(s)[x]) else None
  {
    var n := Before(s, x);
    BeforeIs(s, x);
    if x in MapOf(s) {
      var p :| p in s && p.rank == x;
      var i :| 0 <= i < |s| && s[i] == p;
      assert s[n].rank >= x;
    } else if n < |s| {
      assert s[n] in s;
    }
  }

  lemma SameMap(a: map<int, Val>, b: map<int, Val>)
    requires forall x :: (if x in a then Some(a[x]) else None) == if x in b then Some(b[x]) else None
    ensures a == b
  {
    forall x ensures x in a <==> x in b {
      assert (if x in a then Some(a[x]) else None) == if x in b then Some(b[x]) else None;
    }
    forall x | x in a ensures a[x] == b[x] {
      assert (if x in a then Some(a[x]) else None) == if x in b then Some(b[x]) else None;
    }
  }

  lemma UpsertMap(s: seq<Pair>, rank: int, v: Val)
    requires Sorted(s)
    ensures Sorted(Upsert(s, rank, v)) && MapOf(Upsert(s, rank, v)) == MapOf(s)[rank := v]
    ensures |Upsert(s, rank, v)| == |s| + if rank in MapOf(s) then 0 else 1
  {
    UpsertSorted(s, rank, v);
    MapLookup(s, rank);
    var a, b := MapOf(Upsert(s, rank, v)), MapOf(s)[rank := v];
    forall x ensures (if x in a then Some(a[x]) else None) == if x in b then Some(b[x]) else None {
      UpsertLookup(s, rank, v, x);
      MapLookup(s, x);
      MapLookup(Upsert(s, rank, v), x);
    }
    SameMap(a, b);
  }

  lemma RemoveMap(s: seq<Pair>, rank: int)
    requires Sorted(s)
    ensures Sorted(Remove(s, rank)) && MapOf(Remove(s, rank)) == MapOf(s) - {rank}
    ensures |Remove(s, rank)| == |s| - if rank in MapOf(s) then 1 else 0
  {
    RemoveSorted(s, rank);
    MapLookup(s, rank);
    var a, b := MapOf(Remove(s, rank)), MapOf(s) - {rank};
    forall x ensures (if x in a then Some(a[x]) else None) == if x in b then Some(b[x]) else None {
      RemoveLookup(s, rank, x);
      MapLookup(s, x);
      MapLookup(Remove(s, rank), x);
    }
    SameMap(a, b);
  }

  // ---------------------------------------------------------------- the root

  /** A lower bound may be lowered. */
  lemma {:induction false} Lower(t: Tree, lo: int, lo': int, hi: int, d: nat, psize: nat)
    requires WF(t, lo, hi, d, psize) && lo' <= lo
    ensures WF(t, lo', hi, d, psize)
    decreases d
  {
    if t.Branch? {
      Lower(t.kids[0], lo, lo', Hi(t.seps, 0, hi), d - 1, psize);
      forall i | 1 <= i < |t.kids| ensures Lo(t.seps, i, lo') == Lo(t.seps, i, lo) {}
    }
  }

  function Min(a: int, b: int): int { if a <= b then a else b }
  function Max(a: int, b: int): int { if a >= b then a else b }

  /** Bounds that take in one more key. */
  lemma Stretch(t: Tree, lo: int, hi: int, rank: int, d: nat, psize: nat)
    requires WF(t, lo, hi, d, psize)
    ensures WF(t, Min(lo, rank), Max(hi, rank + 1), d, psize)
  {
    Widen(t, lo, hi, Max(hi, rank + 1), d, psize);
    Lower(t, lo, Min(lo, rank), Max(hi, rank + 1), d, psize);
  }

  /** A root that was split gets a new root above it. */
  function NewRoot(two: Ins): Tree
    requires two.Two?
  {
    Branch([EMPTY, two.sep], [two.l, two.r])
  }

  lemma NewRootOk(two: Ins, lo: int, hi: int, d: nat, psize: nat)
    requires psize >= 4096 && two.Two? && InsOk(two, lo, hi, d, psize) && d > 0
    ensures WF(NewRoot(two), lo, hi, d + 1, psize) && Enough(NewRoot(two))
  {
    var seps, kids := [EMPTY, two.sep], [two.l, two.r];
    assert SepSizes(seps) == [SepSize(EMPTY)] + [SepSize(two.sep)];
    Sums.SumConcat([SepSize(EMPTY)], [SepSize(two.sep)]);
    Sums.SumOne(SepSize(EMPTY));
    Sums.SumOne(SepSize(two.sep));
    forall i | 0 <= i < |kids|
      ensures Enough(kids[i]) && WF(kids[i], Lo(seps, i, lo), Hi(seps, i, hi), d, psize)
    {
    }
  }

  lemma NewRootKeeps(two: Ins)
    requires two.Two?
    ensures Pairs(NewRoot(two)) == InsPairs(two)
    ensures Leaves(NewRoot(two)) == Leaves(two.l) + Leaves(two.r)
    ensures Branches(NewRoot(two)) == Branches(two.l) + Branches(two.r) + 1
  {
    var kids := [two.l, two.r];
    assert kids == [two.l] + [two.r];
    AllPairsConcat([two.l], [two.r]);
    AllPairsOne(two.l);
    AllPairsOne(two.r);
    CountConcat([two.l], [two.r]);
    CountOne(two.l);
    CountOne(two.r);
  }

  lemma OnlyChild(t: Tree)
    requires t.Branch? && |t.kids| == 1
    ensures Pairs(t) == Pairs(t.kids[0]) && Leaves(t) == Leaves(t.kids[0]) && Branches(t) == Branches(t.kids[0]) + 1
  {
    assert t.kids == [t.kids[0]];
    AllPairsOne(t.kids[0]);
    CountOne(t.kids[0]);
  }

  // ---------------------------------------------------------------- the record

  /** MDB_db: the root, the depth of the tree and the counters. */
  datatype Record = Record(root: Option<Tree>, depth: nat, leafPages: int, branchPages: int, entries: int)

  function Stored(db: Record): seq<Pair> {
    if db.root.None? then [] else Pairs(db.root.value)
  }

  ghost predicate Sound(db: Record, lo: int, hi: int, psize: nat) {
    match db.root
    case None => db.depth == 0 && db.leafPages == 0 && db.branchPages == 0 && db.entries == 0
    case Some(t) =>
      && WF(t, lo, hi, db.depth, psize) && Enough(t)
      && db.leafPages == Leaves(t) && db.branchPages == Branches(t) && db.entries == |Pairs(t)|
  }

  lemma StoredSorted(db: Record, lo: int, hi: int, psize: nat)
    requires Sound(db, lo, hi, psize)
    ensures Sorted(Stored(db))
  {
    if db.root.Some? { PairsSorted(db.root.value, lo, hi, db.depth, psize); }
  }

  /** The tree an insertion starts from: an empty database first gets an empty root leaf. */
  function Start(db: Record): Record {
    if db.root.Some? then db else db.(root := Some(Leaf([])), depth := db.depth + 1, leafPages := db.leafPages + 1)
  }

  /** The record after an operation on its root page. */
  function Installed(db: Record, ins: Ins): Record
    requires !ins.Full?
  {
    match ins
    case One(t, leaves, branches) =>
      db.(root := Some(t), leafPages := db.leafPages + leaves, branchPages := db.branchPages + branches)
    case Two(_, _, _, leaves, branches) =>
      db.(root := Some(NewRoot(ins)), depth := db.depth + 1, leafPages := db.leafPages + leaves,
          branchPages := db.branchPages + branches + 1)
  }

  lemma InstalledOk(db: Record, ins: Ins, t: Tree, after: seq<Pair>, lo: int, hi: int, psize: nat)
    requires psize >= 4096 && !ins.Full? && db.depth > 0 && InsOk(ins, lo, hi, db.depth, psize) && Became(ins, t, after)
    requires db.leafPages == Leaves(t) && db.branchPages == Branches(t)
    ensures Sound(Installed(db, ins).(entries := |after|), lo, hi, psize) && Stored(Installed(db, ins)) == after
  {
    if ins.Two? {
      NewRootOk(ins, lo, hi, db.depth, psize);
      NewRootKeeps(ins);
    }
  }

  /** Storing into an empty leaf always succeeds. */
  lemma FirstEntry(k: Key, v: Val, keep: bool, lo: int, hi: int, psize: nat)
    requires psize >= 4096 && lo <= k.rank < hi && 1 <= k.size <= MAXKEY
    ensures var ins := Insert(Leaf([]), k, v, keep, psize);
      InsOk(ins, lo, hi, 1, psize) && Became(ins, Leaf([]), Upsert([], k.rank, v))
  {
    PutLeafOk([], k, v, keep, lo, hi, psize);
    assert LeafPairs([]) == [];
  }

  /** mdb_rebalance on the root: an emptied tree goes, a root with one child is replaced by it. */
  function Settled(db: Record, t: Tree): Record {
    if NumKeys(t) == 0 then db.(root := None, depth := 0, leafPages := 0)
    else if t.Branch? && |t.kids| == 1 then
      db.(root := Some(t.kids[0]), depth := if db.depth > 0 then db.depth - 1 else 0, branchPages := db.branchPages - 1)
    else db.(root := Some(t))
  }

  lemma OnlyKid(t: Tree, lo: int, hi: int, d: nat, psize: nat)
    requires WF(t, lo, hi, d, psize) && t.Branch? && |t.kids| == 1
    ensures d > 1 && WF(t.kids[0], lo, hi, d - 1, psize) && Enough(t.kids[0])
  {
    assert Lo(t.seps, 0, lo) == lo && Hi(t.seps, 0, hi) == hi;
  }

  lemma CollapsedOk(db: Record, t: Tree, lo: int, hi: int, psize: nat)
    requires t.Branch? && |t.kids| == 1 && NumKeys(t) == 1 && db.depth > 1
    requires WF(t.kids[0], lo, hi, db.depth - 1, psize) && Enough(t.kids[0])
    requires db.leafPages == Leaves(t) && db.branchPages == Branches(t)
    ensures Sound(Settled(db, t).(entries := |Pairs(t)|), lo, hi, psize) && Stored(Settled(db, t)) == Pairs(t)
  {
    OnlyChild(t);
  }

  lemma SettledOk(db: Record, t: Tree, lo: int, hi: int, psize: nat)
    requires WF(t, lo, hi, db.depth, psize) && db.leafPages == Leaves(t) && db.branchPages == Branches(t)
    ensures Sound(Settled(db, t).(entries := |Pairs(t)|), lo, hi, psize) && Stored(Settled(db, t)) == Pairs(t)
  {
    if t.Branch? && |t.kids| == 1 {
      OnlyKid(t, lo, hi, db.depth, psize);
      CollapsedOk(db, t, lo, hi, psize);
    }
  }

  /** The record after an insertion holds the old contents with the new pair. */
  lemma PutSound(db: Record, k: Key, v: Val, keep: bool, lo: int, hi: int, psize: nat)
    requires psize >= 4096 && Sound(db, lo, hi, psize) && lo <= k.rank < hi && 1 <= k.size <= MAXKEY
    ensures Shape(Start(db).root.value)
    ensures var ins, after := Insert(Start(db).root.value, k, v, keep, psize), Upsert(Stored(db), k.rank, v);
      !ins.Full? ==>
        && Sound(Installed(Start(db), ins).(entries := |after|), lo, hi, psize)
        && Stored(Installed(Start(db), ins)) == after
  {
    var t := Start(db).root.value;
    if db.root.Some? { WFShape(t, lo, hi, db.depth, psize); }
    var ins := Insert(t, k, v, keep, psize);
    if db.root.None? {
      FirstEntry(k, v, keep, lo, hi, psize);
    } else {
      InsertOk(t, k, v, keep, lo, hi, db.depth, psize);
      InsertKeeps(t, k, v, keep, lo, hi, db.depth, psize);
    }
    if !ins.Full? { InstalledOk(Start(db), ins, t, Upsert(Stored(db), k.rank, v), lo, hi, psize); }
  }

  /** The record after a deletion holds the old contents without the key. */
  function Deleted(db: Record, out: (Ins, bool)): Record
    requires !out.0.Full? && (out.1 ==> out.0.One?)
  {
    if out.1 then
      Settled(db.(leafPages := db.leafPages + out.0.leaves, branchPages := db.branchPages + out.0.branches), out.0.t)
    else Installed(db, out.0)
  }

  lemma DeletedOk(db: Record, out: (Ins, bool), t: Tree, after: seq<Pair>, lo: int, hi: int, psize: nat)
    requires psize >= 4096 && !out.0.Full? && db.depth > 0
    requires DelOk(out, lo, hi, db.depth, psize) && Became(out.0, t, after)
    requires db.leafPages == Leaves(t) && db.branchPages == Branches(t)
    ensures Sound(Deleted(db, out).(entries := |after|), lo, hi, psize) && Stored(Deleted(db, out)) == after
  {
    if out.1 {
      var leaves, branches := db.leafPages + out.0.leaves, db.branchPages + out.0.branches;
      SettledOk(db.(leafPages := leaves, branchPages := branches), out.0.t, lo, hi, psize);
    } else {
      InstalledOk(db, out.0, t, after, lo, hi, psize);
    }
  }

  lemma DelSound(db: Record, rank: int, lo: int, hi: int, psize: nat)
    requires psize >= 4096 && Sound(db, lo, hi, psize) && lo <= rank < hi && db.root.Some?
    ensures Uniform(db.root.value)
    ensures var out, after := Del(db.root.value, rank, psize), Remove(Stored(db), rank);
      !out.0.Full? ==> Sound(Deleted(db, out).(entries := |after|), lo, hi, psize) && Stored(Deleted(db, out)) == after
  {
    var t := db.root.value;
    DelKeepsForm(t, rank, lo, hi, db.depth, psize);
    DelKeeps(t, rank, lo, hi, db.depth, psize);
    var out := Del(t, rank, psize);
    if !out.0.Full? { DeletedOk(db, out, t, Remove(Stored(db), rank), lo, hi, psize); }
  }

  ghost function MapOfDb(db: Record, lo: int, hi: int, psize: nat): map<int, Val>
    requires Sound(db, lo, hi, psize)
  {
    StoredSorted(db, lo, hi, psize);
    MapOf(Stored(db))
  }

  /** The record after storing a key and counting it if it is new. */
  function PutRecord(db: Record, ins: Ins, isNew: bool): Record
    requires !ins.Full?
  {
    var out := Installed(Start(db), ins);
    if isNew then out.(entries := out.entries + 1) else out
  }

  lemma PutStep(db: Record, k: Key, v: Val, keep: bool, lo: int, hi: int, psize: nat)
    requires psize >= 4096 && Sound(db, lo, hi, psize) && lo <= k.rank < hi && 1 <= k.size <= MAXKEY
    ensures Shape(Start(db).root.value)
    ensures var ins := Insert(Start(db).root.value, k, v, keep, psize);
      !ins.Full? ==>
        var was := MapOfDb(db, lo, hi, psize);
        var out := PutRecord(db, ins, k.rank !in was);
        Sound(out, lo, hi, psize) && MapOfDb(out, lo, hi, psize) == was[k.rank := v]
  {
    PutSound(db, k, v, keep, lo, hi, psize);
    StoredSorted(db, lo, hi, psize);
    UpsertMap(Stored(db), k.rank, v);
  }

  lemma DelStep(db: Record, rank: int, lo: int, hi: int, psize: nat)
    requires psize >= 4096 && Sound(db, lo, hi, psize) && lo <= rank < hi
    requires rank in MapOfDb(db, lo, hi, psize)
    ensures db.root.Some? && Uniform(db.root.value)
    ensures var d := Del(db.root.value, rank, psize);
      !d.0.Full? ==>
        var out := Deleted(db, d).(entries := db.entries - 1);
        Sound(out, lo, hi, psize) && MapOfDb(out, lo, hi, psize) == MapOfDb(db, lo, hi, psize) - {rank}
  {
    StoredSorted(db, lo, hi, psize);
    RemoveMap(Stored(db), rank);
    DelSound(db, rank, lo, hi, psize);
  }

  // ---------------------------------------------------------------- when operations succeed

  /** A single entry fits a page. */
  lemma OneFits(e: Entry, psize: nat)
    requires psize >= 4096 && EntryOk(e, psize)
    ensures PlaceLeaf([e], 0, psize) == One(Leaf([e]), 0, 0)
  {
    assert EntrySizes([e]) == [EntrySize(e)];
    Sums.SumOne(EntrySize(e));
  }

  lemma FirstPut(k: Key, v: Val, keep: bool, e: Entry, psize: nat)
    requires psize >= 4096 && e == NewEntry(k, v, psize)
    ensures PutLeaf([], k, v, keep, psize) == PlaceLeaf([e], 0, psize)
  {
    assert LeafPairs([]) == [] && InsertAt([], 0, e) == [e];
  }

  lemma FirstSucceeds(k: Key, v: Val, keep: bool, psize: nat)
    requires psize >= 4096 && 1 <= k.size <= MAXKEY
    ensures !Insert(Leaf([]), k, v, keep, psize).Full?
  {
    var e := NewEntry(k, v, psize);
    NewEntryOk(k, v, psize);
    OneFits(e, psize);
    FirstPut(k, v, keep, e, psize);
  }

  /** The pages on the way to the key that get a node are roomy. */
  ghost predicate RoomFor(root: Option<Tree>, k: Key, v: Val, keep: bool, psize: nat)
    requires psize >= 4096
  {
    root.Some? ==> Shape(root.value) && AllRoomy(root.value, k, v, keep, psize)
  }

  /** The pages on the way to the key that get a new separator are roomy. */
  ghost predicate RoomWithout(root: Option<Tree>, rank: int, psize: nat)
    requires psize >= 4096
  {
    root.Some? ==> Uniform(root.value) && DelRoomy(root.value, rank, psize)
  }

  lemma PutFailsIff(db: Record, k: Key, v: Val, keep: bool, lo: int, hi: int, psize: nat)
    requires psize >= 4096 && Sound(db, lo, hi, psize) && lo <= k.rank < hi && 1 <= k.size <= MAXKEY
    ensures Shape(Start(db).root.value)
    ensures Insert(Start(db).root.value, k, v, keep, psize).Full? <==> !RoomFor(db.root, k, v, keep, psize)
  {
    if db.root.None? {
      FirstSucceeds(k, v, keep, psize);
    } else {
      WFShape(db.root.value, lo, hi, db.depth, psize);
      InsertFailsIff(db.root.value, k, v, keep, lo, hi, db.depth, psize);
    }
  }

  /** All keys of the database are short. */
  predicate ShortRoot(root: Option<Tree>) { root.Some? ==> Short(root.value) }

  lemma TameRoom(db: Record, k: Key, v: Val, keep: bool, lo: int, hi: int, psize: nat)
    requires psize >= 4096 && Sound(db, lo, hi, psize) && lo <= k.rank < hi && 1 <= k.size <= MAXKEY
    requires ShortRoot(db.root) && Tame(k, v, psize)
    ensures RoomFor(db.root, k, v, keep, psize)
  {
    if db.root.Some? {
      WFShape(db.root.value, lo, hi, db.depth, psize);
      TameRoomy(db.root.value, k, v, keep, lo, hi, db.depth, psize);
    }
  }

  lemma InstalledShort(db: Record, ins: Ins)
    requires !ins.Full? && ShortIns(ins)
    ensures ShortRoot(Installed(db, ins).root)
  {
    if ins.Two? {
      var t := NewRoot(ins);
      assert forall i :: 0 <= i < |t.kids| ==> t.kids[i] == ins.l || t.kids[i] == ins.r;
    }
  }

  lemma PutShort(db: Record, k: Key, v: Val, keep: bool, isNew: bool, psize: nat)
    requires psize >= 4096 && ShortRoot(db.root) && k.size <= SHORT_KEY && Shape(Start(db).root.value)
    requires !Insert(Start(db).root.value, k, v, keep, psize).Full?
    ensures ShortRoot(PutRecord(db, Insert(Start(db).root.value, k, v, keep, psize), isNew).root)
  {
    InsertShort(Start(db).root.value, k, v, keep, psize);
    InstalledShort(Start(db), Insert(Start(db).root.value, k, v, keep, psize));
  }

  lemma DelFails(db: Record, rank: int, lo: int, hi: int, psize: nat)
    requires psize >= 4096 && Sound(db, lo, hi, psize) && db.root.Some?
    ensures Uniform(db.root.value)
    ensures Del(db.root.value, rank, psize).0.Full? <==> !RoomWithout(db.root, rank, psize)
    ensures ShortRoot(db.root) ==> RoomWithout(db.root, rank, psize)
  {
    DelFailsIff(db.root.value, rank, lo, hi, db.depth, psize);
    if Short(db.root.value) { ShortRoomy(db.root.value, rank, lo, hi, db.depth, psize); }
  }

  lemma DeletedShort(db: Record, rank: int, psize: nat)
    requires psize >= 4096 && db.root.Some? && Uniform(db.root.value) && ShortRoot(db.root)
    ensures var out := Del(db.root.value, rank, psize);
      !out.0.Full? ==> ShortRoot(Deleted(db, out).(entries := db.entries - 1).root)
  {
    Capacity.DelShort(db.root.value, rank, psize);
    var out := Del(db.root.value, rank, psize);
    if !out.1 && !out.0.Full? { InstalledShort(db, out.0); }
  }

  /** The record after a deletion that succeeded. */
  ghost predicate Erased(db: Record, after: Record, rank: int, lo: int, hi: int, psize: nat)
    requires Sound(db, lo, hi, psize)
  {
    && Sound(after, lo, hi, psize) && MapOfDb(after, lo, hi, psize) == MapOfDb(db, lo, hi, psize) - {rank}
    && (ShortRoot(db.root) ==> ShortRoot(after.root))
  }

  lemma EraseStep(db: Record, rank: int, out: (Ins, bool), lo: int, hi: int, psize: nat)
    requires psize >= 4096 && Sound(db, lo, hi, psize) && lo <= rank < hi && rank in MapOfDb(db, lo, hi, psize)
    requires db.root.Some? && Uniform(db.root.value) && out == Del(db.root.value, rank, psize)
    ensures out.0.Full? <==> !RoomWithout(db.root, rank, psize)
    ensures ShortRoot(db.root) ==> !out.0.Full?
    ensures !out.0.Full? ==> Erased(db, Deleted(db, out).(entries := db.entries - 1), rank, lo, hi, psize)
  {
    DelStep(db, rank, lo, hi, psize);
    DelFails(db, rank, lo, hi, psize);
    if ShortRoot(db.root) { DeletedShort(db, rank, psize); }
  }

  // ---------------------------------------------------------------- operations

  datatype Code = Success | KeyExist | NotFound | BadValSize | BadTxn | Failed

  const MAXDATASIZE: nat := 0xffff_ffff

  /** The page is sound and looking the key up from it answers `r`. */
  ghost predicate Answers(t: Tree, rank: int, r: Option<Val>, lo: int, hi: int, d: nat, psize: nat) {
    WF(t, lo, hi, d, psize) && Enough(t) && Shape(t) && BTree.Get(t, rank) == r
  }

  /** One step down: the child that covers the key. */
  method Down(t: Tree, rank: int, ghost r: Option<Val>, ghost lo: int, ghost hi: int, ghost d: nat, psize: nat)
    returns (c: Tree, ghost bot: int, ghost top: int)
    requires t.Branch? && Answers(t, rank, r, lo, hi, d, psize)
    ensures d > 0 && Answers(c, rank, r, bot, top, d - 1, psize)
  {
    var i := NodeSearch.Follow(t.seps, rank);
    c, bot, top := t.kids[i], Lo(t.seps, i, lo), Hi(t.seps, i, hi);
  }

  method AtLeaf(t: Tree, rank: int, ghost r: Option<Val>, ghost lo: int, ghost hi: int, ghost d: nat, psize: nat)
    returns (v: Option<Val>)
    requires t.Leaf? && Answers(t, rank, r, lo, hi, d, psize)
    ensures v == r
  {
    var i, exact := NodeSearch.Locate(t.es, rank);
    v := if exact then Some(t.es[i].val) else None;
  }

  /** Descends from a page to the leaf that covers the key, and looks it up there. */
  method Descend(root: Tree, rank: int, ghost r: Option<Val>, ghost lo: int, ghost hi: int, ghost depth: nat,
                 psize: nat)
    returns (v: Option<Val>)
    requires Answers(root, rank, r, lo, hi, depth, psize)
    ensures v == r
  {
    var t := root;
    ghost var bot, top, d := lo, hi, depth;
    while t.Branch?
      invariant Answers(t, rank, r, bot, top, d, psize)
      decreases d
    {
      t, bot, top := Down(t, rank, r, bot, top, d, psize);
      d := d - 1;
    }
    v := AtLeaf(t, rank, r, bot, top, d, psize);
  }

  class Db {
    const psize: nat
    var root: Option<Tree>
    var depth: nat
    var leafPages: int
    var branchPages: int
    var entries: int
    /** MDB_TXN_ERROR: an operation failed halfway, the transaction can only be aborted. */
    var broken: bool
    ghost var lo: int
    ghost var hi: int

    ghost function Rec(): Record
      reads this
    {
      Record(root, depth, leafPages, branchPages, entries)
    }

    ghost predicate Valid()
      reads this
    {
      psize >= 4096 && (!broken ==> Sound(Rec(), lo, hi, psize))
    }

    ghost function Contents(): map<int, Val>
      requires Valid() && !broken
      reads this
    {
      MapOfDb(Rec(), lo, hi, psize)
    }

    /** A new database is empty. */
    constructor (psize: nat)
      requires psize >= 4096
      ensures Valid() && !broken && Contents() == map[] && this.psize == psize && ShortRoot(root)
    {
      this.psize := psize;
      root, depth, leafPages, branchPages, entries, broken := None, 0, 0, 0, 0, false;
    }

    method Find(rank: int) returns (r: Option<Val>)
      requires Valid() && !broken
      ensures r == if rank in Contents() then Some(Contents()[rank]) else None
    {
      StoredSorted(Rec(), lo, hi, psize);
      MapLookup(Stored(Rec()), rank);
      if root.None? { return None; }
      ghost var bot, top := Min(lo, rank), Max(hi, rank + 1);
      Stretch(root.value, lo, hi, rank, depth, psize);
      GetIsLookup(root.value, bot, top, depth, psize, rank);
      r := Descend(root.value, rank, BTree.Get(root.value, rank), bot, top, depth, psize);
    }

    method Get(k: Key) returns (code: Code, v: Val)
      requires Valid()
      ensures broken ==> code == BadTxn
      ensures !broken && k.size == 0 ==> code == BadValSize
      ensures !broken && k.size > 0 ==>
        if k.rank in Contents() then code == Success && v == Contents()[k.rank] else code == NotFound
    {
      v := [];
      if broken { return BadTxn, v; }
      if k.size == 0 { return BadValSize, v; }
      var r := Find(k.rank);
      if r.None? { return NotFound, v; }
      return Success, r.value;
    }

    /** Makes what an operation did to the root page the new root. */
    method Install(ins: Ins)
      requires !ins.Full?
      modifies this
      ensures Rec() == Installed(old(Rec()), ins) && broken == old(broken) && lo == old(lo) && hi == old(hi)
    {
      leafPages := leafPages + ins.leaves;
      branchPages := branchPages + ins.branches;
      if ins.One? {
        root := Some(ins.t);
      } else {
        root := Some(NewRoot(ins));
        depth := depth + 1;
        branchPages := branchPages + 1;
      }
    }

    /** Takes the key into the bounds. */
    ghost method Include(rank: int)
      requires Valid() && !broken
      modifies this`lo, this`hi
      ensures Valid() && Contents() == old(Contents()) && lo <= rank < hi
    {
      if root.Some? { Stretch(root.value, lo, hi, rank, depth, psize); }
      lo, hi := Min(lo, rank), Max(hi, rank + 1);
    }

    /** An empty database gets an empty root leaf. */
    method Begin()
      requires root.None?
      modifies this
      ensures Rec() == Start(old(Rec())) && broken == old(broken) && lo == old(lo) && hi == old(hi)
    {
      root, depth, leafPages := Some(Leaf([])), depth + 1, leafPages + 1;
    }

    /** The new root and counters after an insertion. */
    method Grow(ins: Ins, isNew: bool)
      requires !ins.Full? && root.Some?
      modifies this
      ensures Rec() == PutRecord(old(Rec()), ins, isNew) && broken == old(broken) && lo == old(lo) && hi == old(hi)
    {
      Install(ins);
      if isNew { entries := entries + 1; }
    }

    /** The part of mdb_cursor_put that changes the tree. */
    method Store(k: Key, v: Val, keep: bool, isNew: bool) returns (code: Code)
      requires Valid() && !broken && 1 <= k.size <= MAXKEY && (isNew <==> k.rank !in Contents())
      modifies this
      ensures Valid() && (broken <==> code == Failed) && (code == Success || code == Failed)
      ensures !broken ==> Contents() == old(Contents())[k.rank := v]
      ensures broken <==> !RoomFor(old(root), k, v, keep, psize)
      ensures old(ShortRoot(root)) && Tame(k, v, psize) ==> !broken && ShortRoot(root)
    {
      Include(k.rank);
      ghost var was := Rec();
      PutStep(was, k, v, keep, lo, hi, psize);
      PutFailsIff(was, k, v, keep, lo, hi, psize);
      if ShortRoot(was.root) && Tame(k, v, psize) { TameRoom(was, k, v, keep, lo, hi, psize); }
      if root.None? { Begin(); }
      var ins := Insert(root.value, k, v, keep, psize);
      if ins.Full? {
        broken := true;
        return Failed;
      }
      if ShortRoot(was.root) && k.size <= SHORT_KEY { PutShort(was, k, v, keep, isNew, psize); }
      Grow(ins, isNew);
      return Success;
    }

    /** mdb_put without MDB_APPEND on a database without duplicates.  `keep` says whether overflow
        pages that hold the key's data can be reused for the new data. */
    method Put(k: Key, v: Val, noOverwrite: bool, keep: bool) returns (code: Code)
      requires Valid()
      modifies this
      ensures Valid() && (broken <==> old(broken) || code == Failed)
      ensures old(broken) ==> code == BadTxn
      ensures !old(broken) && !(1 <= k.size <= MAXKEY && |v| <= MAXDATASIZE) ==> code == BadValSize
      ensures !old(broken) && 1 <= k.size <= MAXKEY && |v| <= MAXDATASIZE ==>
        code == if noOverwrite && k.rank in old(Contents()) then KeyExist
                else if RoomFor(old(root), k, v, keep, psize) then Success else Failed
      ensures !broken ==>
        Contents() == if code == Success then old(Contents())[k.rank := v] else old(Contents())
      ensures !old(broken) && old(ShortRoot(root)) && (Storable(k, v) ==> Tame(k, v, psize)) ==>
        code != Failed && ShortRoot(root)
    {
      if broken { return BadTxn; }
      if k.size == 0 || k.size > MAXKEY || |v| > MAXDATASIZE { return BadValSize; }
      var r := Find(k.rank);
      if r.Some? && noOverwrite { return KeyExist; }
      code := Store(k, v, keep, r.None?);
    }

    /** mdb_del on a database without duplicates. */
    method Del(k: Key) returns (code: Code)
      requires Valid()
      modifies this
      ensures Valid() && (broken <==> old(broken) || code == Failed)
      ensures old(broken) ==> code == BadTxn
      ensures !old(broken) && k.size == 0 ==> code == BadValSize
      ensures !old(broken) && k.size > 0 ==>
        code == if k.rank !in old(Contents()) then NotFound
                else if RoomWithout(old(root), k.rank, psize) then Success else Failed
      ensures !broken ==>
        Contents() == if code == Success then old(Contents()) - {k.rank} else old(Contents())
      ensures !old(broken) && old(ShortRoot(root)) ==> code != Failed && ShortRoot(root)
    {
      if broken { return BadTxn; }
      if k.size == 0 { return BadValSize; }
      var r := Find(k.rank);
      if r.None? { return NotFound; }
      code := Erase(k);
    }

    /** The new root and counters after a deletion. */
    method Shrink(out: (Ins, bool))
      requires !out.0.Full? && (out.1 ==> out.0.One?)
      modifies this
      ensures Rec() == Deleted(old(Rec()), out).(entries := old(entries) - 1)
      ensures broken == old(broken) && lo == old(lo) && hi == old(hi)
    {
      if out.1 { Settle(out.0); } else { Install(out.0); }
      entries := entries - 1;
    }

    /** mdb_cursor_del0. */
    method Erase(k: Key) returns (code: Code)
      requires Valid() && !broken && k.rank in Contents()
      modifies this
      ensures Valid() && (broken <==> code == Failed) && (code == Success || code == Failed)
      ensures !broken ==> Contents() == old(Contents()) - {k.rank}
      ensures broken <==> !RoomWithout(old(root), k.rank, psize)
      ensures old(ShortRoot(root)) ==> !broken && ShortRoot(root)
    {
      Include(k.rank);
      ghost var was := Rec();
      DelFails(was, k.rank, lo, hi, psize);
      var out := BTreeDel.Del(root.value, k.rank, psize);
      EraseStep(was, k.rank, out, lo, hi, psize);
      if out.0.Full? {
        broken := true;
        return Failed;
      }
      Shrink(out);
      return Success;
    }

    /** The root page after a deletion that may have left it too small. */
    method Settle(ins: Ins)
      requires ins.One?
      modifies this
      ensures Rec() == Deleted(old(Rec()), (ins, true)) && broken == old(broken) && lo == old(lo) && hi == old(hi)
    {
      leafPages, branchPages := leafPages + ins.leaves, branchPages + ins.branches;
      var t := ins.t;
      if NumKeys(t) == 0 {
        root, depth, leafPages := None, 0, 0;
      } else if t.Branch? && |t.kids| == 1 {
        root, branchPages := Some(t.kids[0]), branchPages - 1;
        if depth > 0 { depth := depth - 1; }
      } else {
        root := Some(t);
      }
    }

    /** Any run of operations answers and ends as the same run on a map, until one fails.  With short keys and
        tame values none fails. */
    method Run(ops: seq<Op>) returns (replies: seq<Reply>)
      requires Valid() && !broken
      modifies this
      ensures Valid() && |replies| <= |ops|
      ensures !broken ==> |replies| == |ops|
      ensures !broken ==> replies == Replies(old(Contents()), ops) && Contents() == After(old(Contents()), ops)
      ensures broken ==> Stopped(old(Contents()), ops, replies)
      ensures !broken ==> entries == |Stored(Rec())|
      ensures old(ShortRoot(root)) && TameOps(ops, psize) ==> !broken && ShortRoot(root)
    {
      replies := [];
      ghost var was := Contents();
      var i := 0;
      while i < |ops|
        invariant 0 <= i <= |ops| && |replies| == i && Valid() && !broken
        invariant old(ShortRoot(root)) && TameOps(ops, psize) ==> ShortRoot(root)
        invariant replies == Replies(was, ops[..i]) && Contents() == After(was, ops[..i])
      {
        Extend(was, ops, i);
        ghost var before := replies;
        var reply := Do(ops[i]);
        replies := replies + [reply];
        if broken {
          StoppedAt(was, ops, i, before, replies);
          return;
        }
        i := i + 1;
      }
      assert ops[..i] == ops;
    }

    method Do(op: Op) returns (reply: Reply)
      requires Valid() && !broken
      modifies this
      ensures Valid()
      ensures !broken ==> reply == Answer(old(Contents()), op) && Contents() == Changed(old(Contents()), op)
      ensures broken ==> reply == Reply(Failed, [])
      ensures old(ShortRoot(root)) && TameOp(op, psize) ==> !broken && ShortRoot(root)
    {
      match op
      case Fetch(k) =>
        var code, v := Get(k);
        reply := Reply(code, if code == Success then v else []);
      case Assign(_, _, _, _) => reply := DoAssign(op);
      case Drop(_) => reply := DoDrop(op);
    }

    method DoAssign(op: Op) returns (reply: Reply)
      requires Valid() && !broken && op.Assign?
      modifies this
      ensures Valid()
      ensures !broken ==> reply == Answer(old(Contents()), op) && Contents() == Changed(old(Contents()), op)
      ensures broken ==> reply == Reply(Failed, [])
      ensures old(ShortRoot(root)) && TameOp(op, psize) ==> !broken && ShortRoot(root)
    {
      var code := Put(op.k, op.v, op.noOverwrite, op.keep);
      reply := Reply(code, []);
    }

    method DoDrop(op: Op) returns (reply: Reply)
      requires Valid() && !broken && op.Drop?
      modifies this
      ensures Valid()
      ensures !broken ==> reply == Answer(old(Contents()), op) && Contents() == Changed(old(Contents()), op)
      ensures broken ==> reply == Reply(Failed, [])
      ensures old(ShortRoot(root)) ==> !broken && ShortRoot(root)
    {
      var code := Del(op.k);
      reply := Reply(code, []);
    }
  }

  // ---------------------------------------------------------------- the same operations on a map

  datatype Op = Fetch(k: Key) | Assign(k: Key, v: Val, noOverwrite: bool, keep: bool) | Drop(k: Key)
  datatype Reply = Reply(code: Code, v: Val)

  predicate Storable(k: Key, v: Val) { 1 <= k.size <= MAXKEY && |v| <= MAXDATASIZE }

  /** The operation cannot fail on a database of short keys. */
  predicate TameOp(op: Op, psize: nat) { op.Assign? && Storable(op.k, op.v) ==> Tame(op.k, op.v, psize) }

  predicate TameOps(ops: seq<Op>, psize: nat) { forall i :: 0 <= i < |ops| ==> TameOp(ops[i], psize) }

  function Answer(m: map<int, Val>, op: Op): Reply {
    match op
    case Fetch(k) =>
      if k.size == 0 then Reply(BadValSize, [])
      else if k.rank in m then Reply(Success, m[k.rank]) else Reply(NotFound, [])
    case Assign(k, v, noOverwrite, _) =>
      Reply(if !Storable(k, v) then BadValSize else if noOverwrite && k.rank in m then KeyExist else Success, [])
    case Drop(k) => Reply(if k.size == 0 then BadValSize else if k.rank in m then Success else NotFound, [])
  }

  function Changed(m: map<int, Val>, op: Op): map<int, Val> {
    match op
    case Fetch(_) => m
    case Assign(k, v, noOverwrite, _) =>
      if Storable(k, v) && !(noOverwrite && k.rank in m) then m[k.rank := v] else m
    case Drop(k) => if k.size == 0 then m else m - {k.rank}
  }

  function After(m: map<int, Val>, ops: seq<Op>): map<int, Val> {
    if ops == [] then m else Changed(After(m, ops[..|ops| - 1]), ops[|ops| - 1])
  }

  function Replies(m: map<int, Val>, ops: seq<Op>): seq<Reply> {
    if ops == [] then []
    else Replies(m, ops[..|ops| - 1]) + [Answer(After(m, ops[..|ops| - 1]), ops[|ops| - 1])]
  }

  /** All replies are those of the map, except that the last operation failed. */
  ghost predicate Stopped(m: map<int, Val>, ops: seq<Op>, replies: seq<Reply>) {
    && 0 < |replies| <= |ops|
    && replies == Replies(m, ops[..|replies| - 1]) + [Reply(Failed, [])]
  }

  lemma StoppedAt(m: map<int, Val>, ops: seq<Op>, i: nat, before: seq<Reply>, replies: seq<Reply>)
    requires i < |ops| && |before| == i && before == Replies(m, ops[..i]) && replies == before + [Reply(Failed, [])]
    ensures Stopped(m, ops, replies)
  {
    assert |replies| - 1 == i;
  }

  lemma Extend(m: map<int, Val>, ops: seq<Op>, i: nat)
    requires i < |ops|
    ensures After(m, ops[..i + 1]) == Changed(After(m, ops[..i]), ops[i])
    ensures Replies(m, ops[..i + 1]) == Replies(m, ops[..i]) + [Answer(After(m, ops[..i]), ops[i])]
  {
    assert ops[..i + 1][..i] == ops[..i];
  }
}
