/**
The room left in the dirty list (mt_dirty_room) of a write transaction and of its children, and the
length that a commit into a transaction without a parent derives from it for the merged list.
*/
module DirtyRoom {
  import opened Common
  import opened DirtyList

  /** A write transaction: its dirty list, the pages it has spilled, and the room it counts.  The source
      does not have the other two: the dirty overflow runs given back so far; and the pages spilled, less
      the ones brought back, that an ancestor has on its dirty list too. */
  datatype Level = Level(dirty: seq<Id2>, spilled: set<nat>, room: int, freed: nat, copies: int)

  /** What changes the lists of the innermost transaction: a page is allocated; a dirty page of an
      ancestor is copied; a page is spilled, or brought back; an overflow run that was dirty or spilled is
      given back to the list of reclaimed pages, which is there once a record was read; a child begins,
      commits or aborts. */
  datatype Act =
    | NewPage(id: Id2) | CopyPage(id: Id2) | SpillPage(p: nat) | Unspill(id: Id2)
    | FreeRun(p: nat) | FreeSpilled(p: nat) | StartChild | CommitChild | AbortChild

  /** The transactions, the innermost one last. */
  type Stack = s: seq<Level> | |s| > 0 witness [Level([], {}, UM_MAX, 0, 0)]

  function Inner(s: Stack): Level { s[|s| - 1] }

  function Outer(s: Stack): seq<Level> { s[..|s| - 1] }

  /** The pages on the dirty lists. */
  ghost function Dirty(s: seq<Level>): set<nat> {
    if s == [] then {} else Dirty(Outer(s)) + Mids(Inner(s).dirty)
  }

  function Spilled(s: seq<Level>): set<nat> {
    if s == [] then {} else Spilled(Outer(s)) + Inner(s).spilled
  }

  /** Looking the page up finds a dirty page, not a spilled one. */
  ghost predicate ReadsDirty(s: seq<Level>, p: nat) {
    s != [] && p !in Inner(s).spilled && (p in Mids(Inner(s).dirty) || ReadsDirty(Outer(s), p))
  }

  function Without(s: seq<Id2>, p: nat): seq<Id2> {
    if s == [] then []
    else if s[|s| - 1].mid == p then s[..|s| - 1]
    else Without(s[..|s| - 1], p) + [s[|s| - 1]]
  }

  /** The length a commit takes for the merged list where the parent has no parent. */
  function Shortcut(s: Stack): int { UM_MAX - Inner(s).room }

  /** The merged list. */
  function Merged(s: Stack): seq<Id2>
    requires |s| >= 2
  {
    Override(s[|s| - 2].dirty, Inner(s).dirty)
  }

  /** A page is not spilled twice; a run comes off the list only where there is no parent; a commit whose
      merged list does not get the right length fails. */
  ghost predicate CanAct(s: Stack, act: Act) {
    var t := Inner(s);
    match act
    case NewPage(id) => t.room > 0 && id.mid !in Dirty(s) && id.mid !in Spilled(s)
    case CopyPage(id) => id.mid !in Mids(t.dirty) && ReadsDirty(s, id.mid)
    case SpillPage(p) => p in Mids(t.dirty) && p !in Spilled(Outer(s))
    case Unspill(id) => t.room > 0 && id.mid !in Mids(t.dirty) && id.mid in Spilled(s) && !ReadsDirty(s, id.mid)
    case FreeRun(p) => |s| == 1 && ReadsDirty(s, p)
    case FreeSpilled(p) => |s| == 1 && p in t.spilled
    case StartChild => true
    case CommitChild => |s| >= 2 && (|s| == 2 ==> Shortcut(s) == |Merged(s)|)
    case AbortChild => |s| >= 2
  }

  /** 1 if an ancestor has the page on its dirty list, too. */
  ghost function Twice(s: Stack, p: nat): nat { if p in Dirty(Outer(s)) then 1 else 0 }

  ghost function Acted(s: Stack, act: Act): Stack
    requires CanAct(s, act)
  {
    var t := Inner(s);
    match act
    case NewPage(id) => Outer(s) + [t.(dirty := Override(t.dirty, [id]), room := t.room - 1)]
    case CopyPage(id) => Outer(s) + [t.(dirty := Override(t.dirty, [id]))]
    case SpillPage(p) =>
      Outer(s) + [Level(Without(t.dirty, p), t.spilled + {p}, t.room + 1, t.freed, t.copies + Twice(s, p))]
    case Unspill(id) =>
      Outer(s)
      + [Level(Override(t.dirty, [id]), t.spilled - {id.mid}, t.room - 1, t.freed, t.copies - Twice(s, id.mid))]
    case FreeRun(p) => Outer(s) + [t.(dirty := Without(t.dirty, p), freed := t.freed + 1)]
    case FreeSpilled(p) => Outer(s) + [t.(spilled := t.spilled - {p})]
    case StartChild => s + [Level([], {}, t.room, t.freed, t.copies)]
    case CommitChild =>
      var parent := s[|s| - 2];
      s[..|s| - 2] + [t.(dirty := Merged(s), spilled := parent.spilled - Mids(t.dirty) + t.spilled)]
    case AbortChild => Outer(s)
  }

  ghost predicate CanRun(s: Stack, acts: seq<Act>)
    decreases |acts|
  {
    acts == [] || (CanAct(s, acts[0]) && CanRun(Acted(s, acts[0]), acts[1..]))
  }

  ghost function Ran(s: Stack, acts: seq<Act>): Stack
    requires CanRun(s, acts)
    decreases |acts|
  {
    if acts == [] then s else Ran(Acted(s, acts[0]), acts[1..])
  }

  // ---------------------------------------------------------------- one page more or less

  lemma OneMore(s: seq<Id2>, id: Id2)
    requires Asc(s) && id.mid !in Mids(s)
    ensures Asc(Override(s, [id])) && Mids(Override(s, [id])) == Mids(s) + {id.mid}
  {
    OverrideAsc(s, [id]);
    OverrideMids(s, [id]);
    assert Mids([id]) == {id.mid};
  }

  lemma LastGone(t: seq<Id2>, b: Id2)
    requires Asc(t + [b])
    ensures Asc(t) && b.mid !in Mids(t) && Mids(t) == Mids(t + [b]) - {b.mid}
  {
    forall e | e in t ensures e.mid < b.mid {
      var j :| 0 <= j < |t| && t[j] == e;
      assert (t + [b])[j].mid < (t + [b])[|t|].mid;
    }
    forall i, j | 0 <= i < j < |t| ensures t[i].mid < t[j].mid {
      assert (t + [b])[i].mid < (t + [b])[j].mid;
    }
    MidsSnoc(t, b);
  }

  lemma {:induction false} WithoutOne(s: seq<Id2>, p: nat)
    requires Asc(s) && p in Mids(s)
    ensures Asc(Without(s, p)) && Mids(Without(s, p)) == Mids(s) - {p}
  {
    var t, b := s[..|s| - 1], s[|s| - 1];
    assert s == t + [b];
    LastGone(t, b);
    if b.mid != p {
      WithoutOne(t, p);
      WithoutStep(t, b, Without(t, p), p);
    }
  }

  lemma WithoutStep(t: seq<Id2>, b: Id2, w: seq<Id2>, p: nat)
    requires Asc(t + [b]) && Asc(w) && Mids(w) == Mids(t) - {p} && b.mid != p
    ensures Asc(w + [b]) && Mids(w + [b]) == Mids(t + [b]) - {p}
  {
    MidsSnoc(t, b);
    MidsSnoc(w, b);
    Snoc(w, t, b);
  }

  lemma Snoc(w: seq<Id2>, t: seq<Id2>, b: Id2)
    requires Asc(w) && Mids(w) <= Mids(t) && Asc(t + [b])
    ensures Asc(w + [b])
  {
    forall i | 0 <= i < |w| ensures w[i].mid < b.mid {
      assert w[i].mid in Mids(w);
      var j :| 0 <= j < |t| && t[j].mid == w[i].mid;
      assert (t + [b])[j].mid < (t + [b])[|t|].mid;
    }
  }

  // ---------------------------------------------------------------- what the room says

  /** The room is what the dirty pages leave, short by the runs freed, and too much by the copies spilled. */
  ghost predicate Counts(s: Stack) {
    Asc(Inner(s).dirty) && Shortcut(s) == |Dirty(s)| + Inner(s).freed - Inner(s).copies
  }

  ghost predicate RoomOk(s: seq<Level>) { s != [] ==> Counts(s) && RoomOk(Outer(s)) }

  lemma Topped(rest: seq<Level>, t: Level)
    ensures Inner(rest + [t]) == t && Outer(rest + [t]) == rest
    ensures Dirty(rest + [t]) == Dirty(rest) + Mids(t.dirty)
  {
  }

  lemma SetMore(d: set<nat>, m: set<nat>, p: nat)
    requires p !in m
    ensures |d + (m + {p})| == |d + m| + if p in d then 0 else 1
  {
    assert d + (m + {p}) == (d + m) + {p};
    if p in d { assert (d + m) + {p} == d + m; }
  }

  lemma SetLess(d: set<nat>, m: set<nat>, p: nat)
    requires p in m
    ensures |d + (m - {p})| == |d + m| - if p in d then 0 else 1
  {
    SetMore(d, m - {p}, p);
    assert (m - {p}) + {p} == m;
  }

  lemma CountsTop(rest: seq<Level>, t: Level)
    requires RoomOk(rest) && Asc(t.dirty) && UM_MAX - t.room == |Dirty(rest) + Mids(t.dirty)| + t.freed - t.copies
    ensures RoomOk(rest + [t])
  {
    Topped(rest, t);
  }

  lemma AddPage(s: Stack, id: Id2, t: Level)
    requires RoomOk(s) && id.mid !in Mids(Inner(s).dirty) && t.dirty == Override(Inner(s).dirty, [id])
    requires UM_MAX - t.room - t.freed + t.copies
          == Shortcut(s) - Inner(s).freed + Inner(s).copies + if id.mid in Dirty(Outer(s)) then 0 else 1
    ensures RoomOk(Outer(s) + [t])
  {
    OneMore(Inner(s).dirty, id);
    SetMore(Dirty(Outer(s)), Mids(Inner(s).dirty), id.mid);
    CountsTop(Outer(s), t);
  }

  lemma DropPage(s: Stack, p: nat, t: Level)
    requires RoomOk(s) && p in Mids(Inner(s).dirty) && t.dirty == Without(Inner(s).dirty, p)
    requires UM_MAX - t.room - t.freed + t.copies
          == Shortcut(s) - Inner(s).freed + Inner(s).copies - if p in Dirty(Outer(s)) then 0 else 1
    ensures RoomOk(Outer(s) + [t])
  {
    WithoutOne(Inner(s).dirty, p);
    SetLess(Dirty(Outer(s)), Mids(Inner(s).dirty), p);
    CountsTop(Outer(s), t);
  }

  lemma {:induction false} DirtyRead(s: seq<Level>, p: nat)
    requires ReadsDirty(s, p)
    ensures p in Dirty(s)
  {
    if p !in Mids(Inner(s).dirty) { DirtyRead(Outer(s), p); }
  }

  lemma CommitKeepsRoom(s: Stack)
    requires RoomOk(s) && CanAct(s, CommitChild)
    ensures RoomOk(Acted(s, CommitChild))
  {
    var rest, parent, t := s[..|s| - 2], s[|s| - 2], Inner(s);
    assert Outer(s) == rest + [parent];
    Topped(rest, parent);
    OverrideAsc(parent.dirty, t.dirty);
    OverrideMids(parent.dirty, t.dirty);
    Topped(rest, Inner(Acted(s, CommitChild)));
    assert Dirty(s) == Dirty(rest) + (Mids(parent.dirty) + Mids(t.dirty));
  }

  /** Each act keeps it. */
  lemma ActKeepsRoom(s: Stack, act: Act)
    requires RoomOk(s) && CanAct(s, act)
    ensures RoomOk(Acted(s, act))
  {
    var t, out := Inner(s), Acted(s, act);
    match act
    case NewPage(id) => AddPage(s, id, Inner(out));
    case CopyPage(id) =>
      DirtyRead(s, id.mid);
      AddPage(s, id, Inner(out));
    case SpillPage(p) => DropPage(s, p, Inner(out));
    case Unspill(id) => AddPage(s, id, Inner(out));
    case FreeRun(p) =>
      DirtyRead(s, p);
      DropPage(s, p, Inner(out));
    case FreeSpilled(p) => Topped(Outer(s), Inner(out));
    case StartChild => Topped(s, Inner(out));
    case CommitChild => CommitKeepsRoom(s);
    case AbortChild =>
  }

  lemma {:induction false} RunKeepsRoom(s: Stack, acts: seq<Act>)
    requires RoomOk(s) && CanRun(s, acts)
    ensures RoomOk(Ran(s, acts))
    decreases |acts|
  {
    if acts != [] {
      ActKeepsRoom(s, acts[0]);
      RunKeepsRoom(Acted(s, acts[0]), acts[1..]);
    }
  }

  // ---------------------------------------------------------------- the shortcut

  const START: Stack := [Level([], {}, UM_MAX, 0, 0)]

  lemma MergedSize(s: Stack)
    requires RoomOk(s) && |s| == 2
    ensures |Merged(s)| == |Dirty(s)|
  {
    assert Outer(s) == [] + [s[0]] && s == [s[0]] + [Inner(s)];
    Topped([], s[0]);
    Topped([s[0]], Inner(s));
    UnionSize(s[0].dirty, Inner(s).dirty);
  }

  /** Over any run of nested transactions: the length that the commit of a child into a transaction
      without a parent takes for the merged list is that of the list exactly if as many dirty overflow
      runs were given back as copies were spilled. */
  lemma ShortcutLength(acts: seq<Act>)
    requires CanRun(START, acts)
    ensures var s := Ran(START, acts);
      && Shortcut(s) == |Dirty(s)| + Inner(s).freed - Inner(s).copies
      && (|s| == 2 ==>
           && Shortcut(s) == |Merged(s)| + Inner(s).freed - Inner(s).copies
           && (Shortcut(s) == |Merged(s)| <==> Inner(s).freed == Inner(s).copies))
  {
    var s := Ran(START, acts);
    assert Dirty(START) == {};
    RunKeepsRoom(START, acts);
    if |s| == 2 { MergedSize(s); }
  }

  // ---------------------------------------------------------------- cases

  lemma RunStep(s: Stack, act: Act, rest: seq<Act>)
    requires CanAct(s, act) && CanRun(Acted(s, act), rest)
    ensures CanRun(s, [act] + rest) && Ran(s, [act] + rest) == Ran(Acted(s, act), rest)
  {
    assert ([act] + rest)[1..] == rest;
  }

  /** A transaction without a parent. */
  function Alone(dirty: seq<Id2>, room: int, freed: nat): Stack { [Level(dirty, {}, room, freed, 0)] }

  /** The same with a child. */
  function WithChild(dirty: seq<Id2>, room: int, freed: nat, child: Level): Stack {
    [Level(dirty, {}, room, freed, 0), child]
  }

  lemma FirstPage(id: Id2, room: int, freed: nat)
    requires room > 0
    ensures CanAct(Alone([], room, freed), NewPage(id))
    ensures Acted(Alone([], room, freed), NewPage(id)) == Alone([id], room - 1, freed)
  {
    var s := Alone([], room, freed);
    assert Outer(s) == [] && Dirty(s) == {} && Spilled(s) == {};
  }

  lemma FreeIt(id: Id2, room: int, freed: nat)
    ensures CanAct(Alone([id], room, freed), FreeRun(id.mid))
    ensures Acted(Alone([id], room, freed), FreeRun(id.mid)) == Alone([], room, freed + 1)
  {
    var s := Alone([id], room, freed);
    assert id in Inner(s).dirty && Outer(s) == [];
    assert Without([id], id.mid) == [];
  }

  lemma Begin(dirty: seq<Id2>, room: int, freed: nat)
    ensures CanAct(Alone(dirty, room, freed), StartChild)
    ensures Acted(Alone(dirty, room, freed), StartChild)
         == WithChild(dirty, room, freed, Level([], {}, room, freed, 0))
  {
  }

  lemma CopyIt(id: Id2, copy: Id2, room: int)
    requires copy.mid == id.mid
    ensures var s := WithChild([id], room, 0, Level([], {}, room, 0, 0));
      && CanAct(s, CopyPage(copy))
      && Acted(s, CopyPage(copy)) == WithChild([id], room, 0, Level([copy], {}, room, 0, 0))
  {
    var s := WithChild([id], room, 0, Level([], {}, room, 0, 0));
    assert Outer(s) == [s[0]] && Outer([s[0]]) == [] && id in s[0].dirty;
    assert ReadsDirty([s[0]], id.mid);
  }

  lemma SpillIt(id: Id2, copy: Id2, room: int)
    requires copy.mid == id.mid
    ensures var s := WithChild([id], room, 0, Level([copy], {}, room, 0, 0));
      && CanAct(s, SpillPage(id.mid))
      && Acted(s, SpillPage(id.mid)) == WithChild([id], room, 0, Level([], {id.mid}, room + 1, 0, 1))
  {
    var s := WithChild([id], room, 0, Level([copy], {}, room, 0, 0));
    assert Outer(s) == [s[0]] && Outer([s[0]]) == [] && id in s[0].dirty && copy in s[1].dirty;
    assert id.mid in Dirty([s[0]]) && Spilled([s[0]]) == {};
    assert Without([copy], id.mid) == [] && {} + {id.mid} == {id.mid};
  }

  lemma NewInChild(id: Id2, room: int, freed: nat)
    requires room > 0
    ensures var s := WithChild([], room, freed, Level([], {}, room, freed, 0));
      && CanAct(s, NewPage(id))
      && Acted(s, NewPage(id)) == WithChild([], room, freed, Level([id], {}, room - 1, freed, 0))
  {
    var s := WithChild([], room, freed, Level([], {}, room, freed, 0));
    assert Outer(s) == [s[0]] && Outer([s[0]]) == [];
    assert Dirty([s[0]]) == {} && Dirty(s) == {} && Spilled([s[0]]) == {} && Spilled(s) == {};
  }

  /** Too large: a page is freed again, and the child has another one. */
  lemma ShortcutTooLong()
    ensures var acts := [NewPage(Id2(9, 1)), FreeRun(9), StartChild, NewPage(Id2(5, 2))];
      CanRun(START, acts) && var s := Ran(START, acts); |s| == 2 && Shortcut(s) == 2 && |Merged(s)| == 1
  {
    var a, b, room := Id2(9, 1), Id2(5, 2), UM_MAX - 1;
    FirstPage(a, UM_MAX, 0);
    FreeIt(a, room, 0);
    Begin([], room, 1);
    NewInChild(b, room, 1);
    assert Override([], [b]) == [b];
    RunStep(WithChild([], room, 1, Level([], {}, room, 1, 0)), NewPage(b), []);
    RunStep(Alone([], room, 1), StartChild, [NewPage(b)] + []);
    RunStep(Alone([a], room, 0), FreeRun(9), [StartChild] + ([NewPage(b)] + []));
    RunStep(START, NewPage(a), [FreeRun(9)] + ([StartChild] + ([NewPage(b)] + [])));
    assert [NewPage(a)] + ([FreeRun(9)] + ([StartChild] + ([NewPage(b)] + [])))
        == [NewPage(a), FreeRun(9), StartChild, NewPage(b)];
  }

  /** How many pages mdb_page_spill expects an operation to take, in a database of this depth, with a key and
      data of this size.  It spills when the room left is not more than that. */
  function Estimate(depth: nat, size: nat): nat { 2 * (depth + (size + 4096) / 4096) }

  /** Too small: the child copies a page of its parent and spills the copy.  The room it has then is less than
      the estimate for a value of 256 megabytes, so storing one makes it spill. */
  lemma ShortcutTooShort()
    ensures var copied := [NewPage(Id2(9, 1)), StartChild, CopyPage(Id2(9, 2))];
      CanRun(START, copied) && Inner(Ran(START, copied)).room <= Estimate(1, 0x1000_0000)
    ensures var acts := [NewPage(Id2(9, 1)), StartChild, CopyPage(Id2(9, 2)), SpillPage(9)];
      CanRun(START, acts) && var s := Ran(START, acts); |s| == 2 && Shortcut(s) == 0 && |Merged(s)| == 1
  {
    var a, b, room := Id2(9, 1), Id2(9, 2), UM_MAX - 1;
    SpillIt(a, b, room);
    assert Override([a], []) == [a];
    RunStep(WithChild([a], room, 0, Level([b], {}, room, 0, 0)), SpillPage(9), []);
    Copied(a, b, []);
    Copied(a, b, [SpillPage(9)] + []);
    assert [NewPage(a), StartChild, CopyPage(b)] + [] == [NewPage(a), StartChild, CopyPage(b)];
    assert [NewPage(a), StartChild, CopyPage(b)] + ([SpillPage(9)] + [])
        == [NewPage(a), StartChild, CopyPage(b), SpillPage(9)];
  }

  /** The child copies a page of its parent, and the run goes on. */
  lemma Copied(a: Id2, b: Id2, rest: seq<Act>)
    requires a.mid == b.mid && CanRun(WithChild([a], UM_MAX - 1, 0, Level([b], {}, UM_MAX - 1, 0, 0)), rest)
    ensures var acts := [NewPage(a), StartChild, CopyPage(b)] + rest;
      && CanRun(START, acts)
      && Ran(START, acts) == Ran(WithChild([a], UM_MAX - 1, 0, Level([b], {}, UM_MAX - 1, 0, 0)), rest)
  {
    var room := UM_MAX - 1;
    FirstPage(a, UM_MAX, 0);
    Begin([a], room, 0);
    CopyIt(a, b, room);
    RunStep(WithChild([a], room, 0, Level([], {}, room, 0, 0)), CopyPage(b), rest);
    RunStep(Alone([a], room, 0), StartChild, [CopyPage(b)] + rest);
    RunStep(START, NewPage(a), [StartChild] + ([CopyPage(b)] + rest));
    assert [NewPage(a)] + ([StartChild] + ([CopyPage(b)] + rest)) == [NewPage(a), StartChild, CopyPage(b)] + rest;
  }
}
