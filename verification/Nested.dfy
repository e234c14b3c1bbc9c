/**
Nested write transactions (mdb_txn_begin with a parent, mdb_txn_commit, mdb_txn_abort): each has its own
dirty and spill lists, a page is looked up from the innermost transaction outwards, commit folds the
lists into the parent's and abort puts the environment back.
*/
module Nested {
  import opened Common
  import opened DirtyList
  import IdList
  import IdSort
  import SpillList

  /** me_pgstate: the pages reclaimed from the free-page database and the last record read. */
  datatype PgState = PgState(head: Option<seq<nat>>, last: nat)

  /** A write transaction.  `dbs` are its database records, `saved` the environment's page state when it
      began. */
  datatype Txn = Txn(
    dirty: seq<Id2>, spill: seq<nat>, dbs: seq<int>, freed: seq<nat>, next: nat, room: int, saved: PgState)

  /** The environment as the writers see it; the innermost transaction is the last one. */
  datatype Env = Env(pg: PgState, stack: seq<Txn>)

  ghost predicate TxnOk(t: Txn) {
    && Asc(t.dirty) && Positive(t.dirty) && SpillList.SpillOrder(t.spill)
    && forall i :: 0 <= i < |t.dirty| ==> 2 * t.dirty[i].mid < IdList.ID_MAX
  }

  // ---------------------------------------------------------------- looking a page up

  /** Where a page is found: in the map, in memory, or nowhere. */
  datatype Where = Mapped | Dirty(page: int) | Missing

  /** One transaction's version of a page, or else what is below it. */
  function Layer(t: Txn, p: nat, below: Where): Where {
    if 2 * p in t.spill then Mapped
    else if Find(t.dirty, p).Some? then Dirty(Find(t.dirty, p).value)
    else below
  }

  /** The innermost version of a page (mdb_page_get). */
  function Lookup(stack: seq<Txn>, p: nat, next: nat): Where {
    if stack == [] then (if p < next then Mapped else Missing)
    else Layer(stack[|stack| - 1], p, Lookup(stack[..|stack| - 1], p, next))
  }

  /** What the innermost transaction reads. */
  function View(e: Env, p: nat): Where
    requires e.stack != []
  {
    Lookup(e.stack, p, e.stack[|e.stack| - 1].next)
  }

  predicate Has(t: Txn, p: nat) { 2 * p in t.spill || Find(t.dirty, p).Some? }

  /** mdb_page_get: walks outwards through the transactions.  `level` tells which one has the page,
      counted from the innermost; 0 means that it is in the map only. */
  method PageGet(stack: seq<Txn>, p: nat, next: nat) returns (w: Where, level: nat)
    ensures w == Lookup(stack, p, next)
    ensures level <= |stack| && (level > 0 ==> Has(stack[|stack| - level], p))
    ensures forall j :: (if level == 0 then 0 else |stack| - level + 1) <= j < |stack| ==> !Has(stack[j], p)
  {
    var i: nat := |stack|;
    assert stack[..i] == stack;
    while i > 0
      invariant i <= |stack| && Lookup(stack, p, next) == Lookup(stack[..i], p, next)
      invariant forall j :: i <= j < |stack| ==> !Has(stack[j], p)
    {
      var t := stack[i - 1];
      assert stack[..i][..i - 1] == stack[..i - 1];
      if 2 * p in t.spill { return Mapped, |stack| - i + 1; }
      var found := Find(t.dirty, p);
      if found.Some? { return Dirty(found.value), |stack| - i + 1; }
      i := i - 1;
    }
    w, level := if p < next then Mapped else Missing, 0;
  }

  // ---------------------------------------------------------------- beginning, aborting, committing

  function Begin(e: Env): Env
    requires e.stack != []
  {
    var parent := e.stack[|e.stack| - 1];
    e.(stack := e.stack + [Txn([], [], parent.dbs, [], parent.next, parent.room, e.pg)])
  }

  function Abort(e: Env): Env
    requires |e.stack| >= 2
  {
    Env(e.stack[|e.stack| - 1].saved, e.stack[..|e.stack| - 1])
  }

  /** Twice the page numbers of a dirty list: what its pages are called on a spill list. */
  function Doubled(dirty: seq<Id2>): (m: seq<nat>)
    ensures |m| == |dirty| && forall i :: 0 <= i < |m| ==> m[i] == 2 * dirty[i].mid
  {
    seq(|dirty|, i requires 0 <= i < |dirty| => 2 * dirty[i].mid)
  }

  /** The spill list a commit leaves in the parent: without the pages the child has dirty, and with those
      it has spilled itself. */
  ghost predicate Joined(before: seq<nat>, child: Txn, after: seq<nat>) {
    && SpillList.SpillOrder(after)
    && SpillList.Live(after) ==
       SpillList.Live(before) - (set v | v in Doubled(child.dirty)) + SpillList.Live(child.spill)
  }

  /** The parent after its child has committed. */
  function Folded(parent: Txn, child: Txn, spill: seq<nat>): Txn {
    Txn(Override(parent.dirty, child.dirty), spill, child.dbs, parent.freed + child.freed, child.next, child.room,
        parent.saved)
  }

  function Commit(e: Env, spill: seq<nat>): Env
    requires |e.stack| >= 2
  {
    var n := |e.stack|;
    Env(e.pg, e.stack[..n - 2] + [Folded(e.stack[n - 2], e.stack[n - 1], spill)])
  }

  // ---------------------------------------------------------------- commit keeps the view

  lemma SpillAfter(before: seq<nat>, child: Txn, after: seq<nat>, p: nat)
    requires Joined(before, child, after)
    ensures 2 * p in after <==> 2 * p in child.spill || (2 * p in before && Find(child.dirty, p).None?)
  {
    FindIn(child.dirty, p);
    assert 2 * p in after <==> 2 * p in SpillList.Live(after);
    assert 2 * p in before <==> 2 * p in SpillList.Live(before);
    assert 2 * p in child.spill <==> 2 * p in SpillList.Live(child.spill);
    if Find(child.dirty, p).Some? {
      var i :| 0 <= i < |child.dirty| && child.dirty[i].mid == p;
      assert Doubled(child.dirty)[i] == 2 * p;
    }
  }

  /** After the commit of a child, whatever it has spilled, its parent reads what the child read. */
  lemma CommitKeepsView(e: Env, spill: seq<nat>, p: nat)
    requires |e.stack| >= 2 && TxnOk(e.stack[|e.stack| - 2]) && TxnOk(e.stack[|e.stack| - 1])
    requires Joined(e.stack[|e.stack| - 2].spill, e.stack[|e.stack| - 1], spill)
    ensures View(Commit(e, spill), p) == View(e, p)
  {
    var n := |e.stack|;
    var parent, child, rest := e.stack[n - 2], e.stack[n - 1], e.stack[..n - 2];
    var inner, after := e.stack[..n - 1], Commit(e, spill).stack;
    assert inner[..n - 2] == rest && inner[n - 2] == parent;
    assert after[..n - 2] == rest && after[n - 2] == Folded(parent, child, spill);
    var below := Lookup(rest, p, child.next);
    assert Lookup(inner, p, child.next) == Layer(parent, p, below);
    assert Lookup(e.stack, p, child.next) == Layer(child, p, Layer(parent, p, below));
    assert Lookup(after, p, child.next) == Layer(Folded(parent, child, spill), p, below);
    SpillAfter(parent.spill, child, spill, p);
    OverrideFind(parent.dirty, child.dirty, p);
  }

  /** No page is on both lists of the transaction. */
  ghost predicate Apart(t: Txn) { forall p: nat :: 2 * p in t.spill ==> Find(t.dirty, p).None? }

  /** The lists of the parent stay apart exactly if the child has spilled no page that the parent has dirty. */
  lemma CommitKeepsApart(parent: Txn, child: Txn, spill: seq<nat>)
    requires Asc(parent.dirty) && Asc(child.dirty) && Apart(parent) && Apart(child)
    requires Joined(parent.spill, child, spill)
    ensures Apart(Folded(parent, child, spill)) <==>
      forall p: nat :: 2 * p in child.spill ==> Find(parent.dirty, p).None?
  {
    var after := Folded(parent, child, spill);
    forall p: nat
      ensures 2 * p in after.spill && Find(after.dirty, p).Some? <==>
        2 * p in child.spill && Find(parent.dirty, p).Some?
    {
      SpillAfter(parent.spill, child, spill, p);
      OverrideFind(parent.dirty, child.dirty, p);
    }
  }

  /** What a page of the transaction holds, given what the map holds. */
  function Content(t: Txn, disk: map<nat, int>, p: nat): Option<int> {
    if 2 * p !in t.spill && Find(t.dirty, p).Some? then Find(t.dirty, p)
    else if p in disk then Some(disk[p]) else None
  }

  /** mdb_page_flush: every page of the dirty list goes to the map. */
  function Flushed(dirty: seq<Id2>, disk: map<nat, int>): map<nat, int> {
    if dirty == [] then disk
    else Flushed(dirty[..|dirty| - 1], disk)[dirty[|dirty| - 1].mid := dirty[|dirty| - 1].page]
  }

  lemma {:induction false} FlushedAt(dirty: seq<Id2>, disk: map<nat, int>, p: nat)
    requires Asc(dirty)
    ensures var after := Flushed(dirty, disk);
      if Find(dirty, p).Some? then p in after && after[p] == Find(dirty, p).value
      else (p in after <==> p in disk) && (p in disk ==> after[p] == disk[p])
  {
    if dirty != [] { FlushedAt(dirty[..|dirty| - 1], disk, p); }
  }

  /** A flush changes what is read of a page exactly if the page is on both lists, with another content on
      the dirty one than in the map. */
  lemma FlushKeepsContent(t: Txn, disk: map<nat, int>, p: nat)
    requires Asc(t.dirty)
    ensures Content(t.(dirty := []), Flushed(t.dirty, disk), p) == Content(t, disk, p) <==>
      2 * p in t.spill && Find(t.dirty, p).Some? ==> p in disk && disk[p] == Find(t.dirty, p).value
  {
    FlushedAt(t.dirty, disk, p);
  }

  /** A child copies page 9 of its parent, changes it, spills the copy to the map and commits.  The parent
      reads the new content, and its flush puts the old one back. */
  lemma FlushCanOverwrite(parent: Txn, child: Txn, spill: seq<nat>, disk: map<nat, int>)
    requires parent.dirty == [Id2(9, 1)] && parent.spill == [] && child.dirty == [] && child.spill == [18]
    requires Joined(parent.spill, child, spill) && disk == map[9 := 2]
    ensures var t := Folded(parent, child, spill);
      && Content(t, disk, 9) == Some(2)
      && Content(t.(dirty := []), Flushed(t.dirty, disk), 9) == Some(1)
  {
    SpillAfter(parent.spill, child, spill, 9);
    assert Find(parent.dirty, 9) == Some(1) && Flushed([Id2(9, 1)][..0], disk) == disk;
  }

  lemma DoubledOk(dirty: seq<Id2>)
    requires Asc(dirty) && forall i :: 0 <= i < |dirty| ==> 2 * dirty[i].mid < IdList.ID_MAX
    ensures SpillList.Doubles(Doubled(dirty))
  {
  }

  /** The length a commit takes for the merged list: counted, or from the room left. */
  method MergedLength(dst: array<Id2>, x: nat, src: array<Id2>, grandparent: bool, room: int) returns (len: int)
    requires x < dst.Length && Opened(dst[..], dst[1..x + 1])
    requires Valid(src) && Asc(Entries(src)) && Positive(Entries(src))
    ensures len == if grandparent then |Override(dst[1..x + 1], Entries(src))| else UM_MAX - room
  {
    if grandparent { len := CountUnion(dst, x, src); } else { len := UM_MAX - room; }
  }

  /** The dirty lists of a commit: the parent's becomes the union, with nothing lost or overwritten, or
      the length was not right, and then the loop leaves the list or the assertion behind it fails. */
  method FoldDirty(dst: array<Id2>, src: array<Id2>, grandparent: bool, room: int) returns (ok: bool)
    requires src != dst && Valid(dst) && Asc(Entries(dst)) && Positive(Entries(dst))
    requires Valid(src) && Asc(Entries(src)) && Positive(Entries(src))
    requires |Override(Entries(dst), Entries(src))| < dst.Length
    requires !grandparent ==> 0 <= UM_MAX - room < dst.Length
    modifies dst
    ensures ok <==> grandparent || UM_MAX - room == |old(Override(Entries(dst), Entries(src)))|
    ensures ok ==> Valid(dst) && Entries(dst) == Override(old(Entries(dst)), old(Entries(src)))
  {
    ghost var d, s := Entries(dst), Entries(src);
    var x := dst[0].mid;
    dst[0] := dst[0].(mid := 0);
    assert dst[1..x + 1] == d;
    var len := MergedLength(dst, x, src, grandparent, room);
    var i, x', inside := Merge(dst, x, src, len);
    ok := inside && i == x';
  }

  /** The lists of a commit: the child's dirty pages come off the parent's spill list and into its
      dirty list, and the child's spill list joins the parent's. */
  method FoldLists(spill: array<IdList.Id>, own: array<IdList.Id>, dst: array<Id2>, src: array<Id2>,
                   grandparent: bool, room: int, ghost child: Txn)
    returns (ok: bool, out: array<IdList.Id>)
    requires src != dst && Valid(dst) && Asc(Entries(dst)) && Positive(Entries(dst))
    requires Valid(src) && Asc(Entries(src)) && Positive(Entries(src))
    requires forall i :: 0 <= i < |Entries(src)| ==> 2 * Entries(src)[i].mid < IdList.ID_MAX
    requires |Override(Entries(dst), Entries(src))| < dst.Length
    requires !grandparent ==> 0 <= UM_MAX - room < dst.Length
    requires spill != own && IdList.Valid(spill) && SpillList.SpillOrder(IdList.Ids(spill))
    requires IdList.Valid(own) && SpillList.SpillOrder(IdList.Ids(own))
    requires SpillList.Live(IdList.Ids(spill)) !! SpillList.Live(IdList.Ids(own))
    requires child.dirty == Entries(src) && child.spill == IdList.Ids(own)
    modifies spill, dst
    ensures ok ==> Valid(dst) && Entries(dst) == Override(old(Entries(dst)), old(Entries(src)))
    ensures ok ==> IdList.Valid(out) && Joined(old(IdList.Ids(spill)), child, IdList.Ids(out))
    ensures old(spill[0] + own[0]) <= IdSort.MAX_SORT ==>
      (ok <==> grandparent || UM_MAX - room == |old(Override(Entries(dst), Entries(src)))|)
  {
    var dirty := src[1..src[0].mid + 1];
    DoubledOk(dirty);
    SpillList.Unlist(spill, Doubled(dirty));
    ok := FoldDirty(dst, src, grandparent, room);
    out := spill;
    if ok { ok, out := SpillList.Join(spill, own); }
  }

  /** The parent's lists stay in order. */
  lemma CommitKeepsOrder(parent: Txn, child: Txn, spill: seq<nat>)
    requires TxnOk(parent) && TxnOk(child) && Joined(parent.spill, child, spill)
    ensures TxnOk(Folded(parent, child, spill))
  {
    OverrideAsc(parent.dirty, child.dirty);
    OverrideEach(parent.dirty, child.dirty);
    var u := Override(parent.dirty, child.dirty);
    forall i | 0 <= i < |u| ensures u[i].mid > 0 && 2 * u[i].mid < IdList.ID_MAX {
      assert u[i] in u;
    }
  }

  lemma {:induction false} OverrideEach(d: seq<Id2>, s: seq<Id2>)
    ensures forall e :: e in Override(d, s) ==> e in d || e in s
    decreases |d| + |s|
  {
    if s != [] && d != [] {
      var a, b := d[|d| - 1], s[|s| - 1];
      if b.mid < a.mid { OverrideEach(d[..|d| - 1], s); }
      else if b.mid == a.mid { OverrideEach(d[..|d| - 1], s[..|s| - 1]); }
      else { OverrideEach(d, s[..|s| - 1]); }
    }
  }

  // ---------------------------------------------------------------- abort undoes any run

  /** A step: the innermost transaction works, in any way at all, on its own lists, records and page
      state; or a transaction begins, commits or aborts. */
  datatype Step = Work(t: Txn, pg: PgState) | BeginChild | CommitChild(spill: seq<nat>) | AbortChild

  predicate Enabled(e: Env, step: Step) {
    match step
    case Work(t, _) => e.stack != [] && t.saved == e.stack[|e.stack| - 1].saved
    case BeginChild => e.stack != []
    case CommitChild(_) => |e.stack| >= 2
    case AbortChild => |e.stack| >= 2
  }

  function Apply(e: Env, step: Step): Env
    requires Enabled(e, step)
  {
    match step
    case Work(t, pg) => Env(pg, e.stack[|e.stack| - 1 := t])
    case BeginChild => Begin(e)
    case CommitChild(spill) => Commit(e, spill)
    case AbortChild => Abort(e)
  }

  /** A run of steps in which the first n transactions are never the innermost one. */
  predicate RunAbove(e: Env, steps: seq<Step>, n: nat)
    decreases |steps|
  {
    |e.stack| > n && (steps != [] ==> Enabled(e, steps[0]) && RunAbove(Apply(e, steps[0]), steps[1..], n))
  }

  function After(e: Env, steps: seq<Step>, n: nat): Env
    requires RunAbove(e, steps, n)
    decreases |steps|
  {
    if steps == [] then e else After(Apply(e, steps[0]), steps[1..], n)
  }

  lemma StepAbove(e: Env, step: Step, n: nat)
    requires |e.stack| > n && Enabled(e, step) && |Apply(e, step).stack| > n
    ensures Apply(e, step).stack[..n] == e.stack[..n] && Apply(e, step).stack[n].saved == e.stack[n].saved
  {
  }

  lemma {:induction false} RunKeepsBelow(e: Env, steps: seq<Step>, n: nat)
    requires RunAbove(e, steps, n)
    ensures var out := After(e, steps, n);
      |out.stack| > n && out.stack[..n] == e.stack[..n] && out.stack[n].saved == e.stack[n].saved
    decreases |steps|
  {
    if steps != [] {
      StepAbove(e, steps[0], n);
      RunKeepsBelow(Apply(e, steps[0]), steps[1..], n);
    }
  }

  /** Whatever a child and its own children do, aborting it leaves the environment as it was: the
      parent's lists, records and page state, and so all it reads. */
  lemma AbortRestores(e: Env, steps: seq<Step>)
    requires e.stack != [] && RunAbove(Begin(e), steps, |e.stack|)
    requires |After(Begin(e), steps, |e.stack|).stack| == |e.stack| + 1
    ensures Abort(After(Begin(e), steps, |e.stack|)) == e
  {
    RunKeepsBelow(Begin(e), steps, |e.stack|);
  }
}
