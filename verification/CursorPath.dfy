/**
Where a cursor is: a stack of pages from the root to a leaf with an index on each, and the position in
the whole database that this stands for; and the move to a sibling page (mdb_cursor_sibling).
*/
module CursorPath {
  import opened Common
  import opened BTree

  /** All leaves are at depth d and no page is empty. */
  ghost predicate Level(t: Tree, d: nat) {
    match t
    case Leaf(es) => d == 1 && |es| > 0
    case Branch(seps, kids) =>
      d > 1 && |seps| == |kids| > 0 && forall i :: 0 <= i < |kids| ==> Level(kids[i], d - 1)
  }

  lemma {:induction false} WFLevel(t: Tree, lo: int, hi: int, d: nat, psize: nat)
    requires WF(t, lo, hi, d, psize) && Enough(t)
    ensures Level(t, d)
    decreases d
  {
    if t.Branch? {
      forall i | 0 <= i < |t.kids| ensures Level(t.kids[i], d - 1) {
        WFLevel(t.kids[i], Lo(t.seps, i, lo), Hi(t.seps, i, hi), d - 1, psize);
      }
    }
  }

  function Size(t: Tree): nat { |Pairs(t)| }

  /** How many entries are under the first i children. */
  function Under(t: Tree, i: nat): nat
    requires t.Branch? && i <= |t.kids|
  {
    |AllPairs(t.kids[..i])|
  }

  lemma UnderStep(t: Tree, i: nat)
    requires t.Branch? && i < |t.kids|
    ensures Under(t, i + 1) == Under(t, i) + Size(t.kids[i])
  {
    assert t.kids[..i + 1] == t.kids[..i] + [t.kids[i]];
    AllPairsConcat(t.kids[..i], [t.kids[i]]);
    AllPairsOne(t.kids[i]);
  }

  lemma UnderAll(t: Tree)
    requires t.Branch?
    ensures Under(t, 0) == 0 && Under(t, |t.kids|) == Size(t)
  {
    assert t.kids[..0] == [] && t.kids[..|t.kids|] == t.kids;
  }

  lemma {:induction false} LevelSize(t: Tree, d: nat)
    requires Level(t, d)
    ensures Size(t) > 0
    decreases d
  {
    if t.Branch? {
      LevelSize(t.kids[0], d - 1);
      assert AllPairs(t.kids) == Pairs(t.kids[0]) + AllPairs(t.kids[1..]);
    }
  }

  // ---------------------------------------------------------------- the stack

  /** The pages from the root down and the index on each. */
  datatype Spot = Spot(pg: seq<Tree>, ki: seq<nat>)

  function Top(s: Spot): Tree
    requires |s.pg| > 0
  {
    s.pg[|s.pg| - 1]
  }

  function Index(s: Spot): nat
    requires |s.ki| > 0
  {
    s.ki[|s.ki| - 1]
  }

  /** mdb_cursor_pop. */
  function Pop(s: Spot): Spot
    requires |s.pg| == |s.ki| > 0
  {
    Spot(s.pg[..|s.pg| - 1], s.ki[..|s.ki| - 1])
  }

  /** mdb_cursor_push. */
  function Push(s: Spot, t: Tree, i: nat): Spot { Spot(s.pg + [t], s.ki + [i]) }

  lemma PushPop(s: Spot, t: Tree, i: nat)
    requires |s.pg| == |s.ki|
    ensures Pop(Push(s, t, i)) == s && Top(Push(s, t, i)) == t && Index(Push(s, t, i)) == i
  {
  }

  /** The stack follows the tree from its root; d is the depth of the root, e that of the top page. */
  ghost predicate Path(root: Tree, d: nat, s: Spot, e: nat)
    decreases |s.pg|
  {
    && |s.pg| == |s.ki| > 0
    && if |s.pg| == 1 then s.pg[0] == root && e == d && Level(root, d)
       else
         var up := Pop(s);
         && Path(root, d, up, e + 1) && Top(up).Branch? && Index(up) < |Top(up).kids|
         && Top(s) == Top(up).kids[Index(up)]
  }

  /** How many entries come before the top page. */
  function Start(s: Spot): nat
    requires |s.pg| == |s.ki|
    decreases |s.pg|
  {
    if |s.pg| <= 1 then 0
    else
      var up := Pop(s);
      Start(up) + if Top(up).Branch? && Index(up) <= |Top(up).kids| then Under(Top(up), Index(up)) else 0
  }

  lemma {:induction false} PathLevel(root: Tree, d: nat, s: Spot, e: nat)
    requires Path(root, d, s, e)
    ensures Level(Top(s), e)
    decreases |s.pg|
  {
    if |s.pg| > 1 { PathLevel(root, d, Pop(s), e + 1); }
  }

  /** The entries of the top page are the ones from Start on. */
  lemma {:induction false} Located(root: Tree, d: nat, s: Spot, e: nat)
    requires Path(root, d, s, e)
    ensures Start(s) + Size(Top(s)) <= Size(root)
    ensures Pairs(root)[Start(s)..Start(s) + Size(Top(s))] == Pairs(Top(s))
    decreases |s.pg|
  {
    if |s.pg| > 1 {
      var up := Pop(s);
      Located(root, d, up, e + 1);
      Inside(Top(up), Index(up));
      Within2(Pairs(root), Start(up), Pairs(Top(up)), Under(Top(up), Index(up)), Pairs(Top(s)));
    } else {
      assert Pairs(root)[0..Size(root)] == Pairs(root);
    }
  }

  lemma Inside(t: Tree, i: nat)
    requires t.Branch? && i < |t.kids|
    ensures Under(t, i) + Size(t.kids[i]) <= Size(t)
    ensures Pairs(t)[Under(t, i)..Under(t, i) + Size(t.kids[i])] == Pairs(t.kids[i])
  {
    AllPairsAt(t.kids, i);
  }

  lemma Within2(s: seq<Pair>, a: nat, m: seq<Pair>, b: nat, n: seq<Pair>)
    requires a + |m| <= |s| && s[a..a + |m|] == m && b + |n| <= |m| && m[b..b + |n|] == n
    ensures s[a + b..a + b + |n|] == n
  {
    forall i | 0 <= i < |n| ensures s[a + b + i] == n[i] {
      assert m[b + i] == m[b..b + |n|][i];
      assert s[a + (b + i)] == s[a..a + |m|][b + i];
    }
  }

  // ---------------------------------------------------------------- siblings

  /** The page at the same depth to the right or left, if there is one. */
  function Sibling(s: Spot, right: bool): Option<Spot>
    requires |s.pg| == |s.ki| > 0
    decreases |s.pg|
  {
    if |s.pg| < 2 then None
    else
      var up := Pop(s);
      if !Top(up).Branch? then None
      else if (if right then Index(up) + 1 >= |Top(up).kids| else Index(up) == 0) then
        match Sibling(up, right)
        case None => None
        case Some(u) => Enter(u, right)
      else Enter(Moved(up, right), right)
  }

  /** The index on the top page changed by one. */
  function Moved(s: Spot, right: bool): (u: Spot)
    requires |s.pg| == |s.ki| > 0 && (right || Index(s) > 0)
    ensures |u.pg| == |u.ki| == |s.pg|
  {
    Spot(s.pg, s.ki[|s.ki| - 1 := if right then Index(s) + 1 else Index(s) - 1])
  }

  function NumNodes(t: Tree): nat { if t.Leaf? then |t.es| else |t.kids| }

  /** The child the index points to is pushed, with its first or last index. */
  function Enter(s: Spot, right: bool): Option<Spot>
  {
    if |s.pg| == |s.ki| > 0 && Top(s).Branch? && Index(s) < |Top(s).kids| then
      var c := Top(s).kids[Index(s)];
      Some(Push(s, c, if right || NumNodes(c) == 0 then 0 else NumNodes(c) - 1))
    else None
  }

  lemma EnterOk(root: Tree, d: nat, s: Spot, e: nat, right: bool)
    requires Path(root, d, s, e) && Top(s).Branch? && Index(s) < |Top(s).kids|
    ensures Enter(s, right).Some? && e > 1
    ensures var u := Enter(s, right).value;
      && Path(root, d, u, e - 1) && |u.pg| == |s.pg| + 1 && Top(u) == Top(s).kids[Index(s)]
      && Start(u) == Start(s) + Under(Top(s), Index(s))
      && Index(u) == if right then 0 else NumNodes(Top(u)) - 1
  {
    PathLevel(root, d, s, e);
    var c := Top(s).kids[Index(s)];
    assert Level(c, e - 1);
    PushPop(s, c, Index(Enter(s, right).value));
  }

  lemma MovedOk(root: Tree, d: nat, s: Spot, e: nat, right: bool)
    requires Path(root, d, s, e) && (right || Index(s) > 0)
    ensures var u := Moved(s, right);
      && Path(root, d, u, e) && Top(u) == Top(s) && Start(u) == Start(s)
      && Index(u) == if right then Index(s) + 1 else Index(s) - 1
  {
    assert Pop(Moved(s, right)) == Pop(s);
  }

  /** The right sibling starts where the page ends; there is none only at the end of the database. */
  ghost predicate IsRight(root: Tree, d: nat, s: Spot, e: nat, r: Option<Spot>)
    requires |s.pg| == |s.ki| > 0
  {
    match r
    case None => Start(s) + Size(Top(s)) == Size(root)
    case Some(u) => Path(root, d, u, e) && |u.pg| == |s.pg| && Start(u) == Start(s) + Size(Top(s)) && Index(u) == 0
  }

  /** The left sibling ends where the page starts; there is none only at the start of the database. */
  ghost predicate IsLeft(root: Tree, d: nat, s: Spot, e: nat, r: Option<Spot>)
    requires |s.pg| == |s.ki| > 0
  {
    match r
    case None => Start(s) == 0
    case Some(u) =>
      && Path(root, d, u, e) && |u.pg| == |s.pg| && Start(u) + Size(Top(u)) == Start(s)
      && Index(u) == NumNodes(Top(u)) - 1
  }

  lemma RightBelow(root: Tree, d: nat, u: Spot, e: nat)
    requires Path(root, d, u, e) && Index(u) == 0 && e > 1
    ensures Enter(u, true).Some?
    ensures var v := Enter(u, true).value;
      Path(root, d, v, e - 1) && |v.pg| == |u.pg| + 1 && Start(v) == Start(u) && Index(v) == 0
  {
    PathLevel(root, d, u, e);
    EnterOk(root, d, u, e, true);
    UnderAll(Top(u));
  }

  lemma LeftBelow(root: Tree, d: nat, u: Spot, e: nat)
    requires Path(root, d, u, e) && Index(u) == NumNodes(Top(u)) - 1 && e > 1
    ensures Enter(u, false).Some?
    ensures var v := Enter(u, false).value;
      && Path(root, d, v, e - 1) && |v.pg| == |u.pg| + 1 && Start(v) + Size(Top(v)) == Start(u) + Size(Top(u))
      && Index(v) == NumNodes(Top(v)) - 1
  {
    PathLevel(root, d, u, e);
    EnterOk(root, d, u, e, false);
    UnderAll(Top(u));
    UnderStep(Top(u), Index(u));
  }

  /** The page above, moved to another index. */
  ghost predicate IsMoved(root: Tree, d: nat, up: Spot, v: Spot, e: nat, i: int) {
    && Path(root, d, up, e) && Path(root, d, v, e) && |v.pg| == |up.pg| && Top(v) == Top(up) && Start(v) == Start(up)
    && Index(v) == i
  }

  lemma NextChild(root: Tree, d: nat, s: Spot, e: nat, up: Spot, v: Spot)
    requires Path(root, d, s, e) && |s.pg| > 1 && up == Pop(s) && Index(up) + 1 < |Top(up).kids|
    requires IsMoved(root, d, up, v, e + 1, Index(up) + 1)
    ensures IsRight(root, d, s, e, Enter(v, true))
  {
    UnderStep(Top(up), Index(up));
    EnterOk(root, d, v, e + 1, true);
  }

  lemma LastEnds(root: Tree, d: nat, s: Spot, e: nat)
    requires Path(root, d, s, e) && |s.pg| > 1 && Index(Pop(s)) + 1 >= |Top(Pop(s)).kids|
    ensures e > 0 && Start(s) + Size(Top(s)) == Start(Pop(s)) + Size(Top(Pop(s)))
  {
    PathLevel(root, d, s, e);
    UnderStep(Top(Pop(s)), Index(Pop(s)));
    UnderAll(Top(Pop(s)));
  }

  lemma RightEdge(root: Tree, d: nat, s: Spot, e: nat, r: Option<Spot>)
    requires Path(root, d, s, e) && |s.pg| > 1 && Index(Pop(s)) + 1 >= |Top(Pop(s)).kids|
    requires IsRight(root, d, Pop(s), e + 1, r)
    ensures IsRight(root, d, s, e, if r.None? then None else Enter(r.value, true))
  {
    LastEnds(root, d, s, e);
    if r.Some? { RightBelow(root, d, r.value, e + 1); }
  }

  lemma {:induction false} SiblingRight(root: Tree, d: nat, s: Spot, e: nat)
    requires Path(root, d, s, e)
    ensures IsRight(root, d, s, e, Sibling(s, true))
    decreases |s.pg|
  {
    if |s.pg| > 1 {
      if Index(Pop(s)) + 1 >= |Top(Pop(s)).kids| {
        SiblingRight(root, d, Pop(s), e + 1);
        RightEdge(root, d, s, e, Sibling(Pop(s), true));
      } else {
        MovedOk(root, d, Pop(s), e + 1, true);
        NextChild(root, d, s, e, Pop(s), Moved(Pop(s), true));
      }
    }
  }

  lemma PrevChild(root: Tree, d: nat, s: Spot, e: nat, up: Spot, v: Spot)
    requires Path(root, d, s, e) && |s.pg| > 1 && up == Pop(s) && Index(up) > 0
    requires IsMoved(root, d, up, v, e + 1, Index(up) - 1)
    ensures IsLeft(root, d, s, e, Enter(v, false))
  {
    EnterOk(root, d, v, e + 1, false);
    UnderStep(Top(up), Index(up) - 1);
  }

  lemma FirstStarts(root: Tree, d: nat, s: Spot, e: nat)
    requires Path(root, d, s, e) && |s.pg| > 1 && Index(Pop(s)) == 0
    ensures e > 0 && Start(s) == Start(Pop(s))
  {
    PathLevel(root, d, s, e);
    UnderAll(Top(Pop(s)));
  }

  lemma LeftEdge(root: Tree, d: nat, s: Spot, e: nat, r: Option<Spot>)
    requires Path(root, d, s, e) && |s.pg| > 1 && Index(Pop(s)) == 0 && IsLeft(root, d, Pop(s), e + 1, r)
    ensures IsLeft(root, d, s, e, if r.None? then None else Enter(r.value, false))
  {
    FirstStarts(root, d, s, e);
    if r.Some? { LeftBelow(root, d, r.value, e + 1); }
  }

  lemma {:induction false} SiblingLeft(root: Tree, d: nat, s: Spot, e: nat)
    requires Path(root, d, s, e)
    ensures IsLeft(root, d, s, e, Sibling(s, false))
    decreases |s.pg|
  {
    if |s.pg| > 1 {
      if Index(Pop(s)) == 0 {
        SiblingLeft(root, d, Pop(s), e + 1);
        LeftEdge(root, d, s, e, Sibling(Pop(s), false));
      } else {
        MovedOk(root, d, Pop(s), e + 1, false);
        PrevChild(root, d, s, e, Pop(s), Moved(Pop(s), false));
      }
    }
  }

  // ---------------------------------------------------------------- a position has one path

  lemma {:induction false} UnderMono(t: Tree, i: nat, j: nat)
    requires t.Branch? && i <= j <= |t.kids|
    ensures Under(t, i) <= Under(t, j)
  {
    if i < j {
      UnderMono(t, i, j - 1);
      UnderStep(t, j - 1);
    }
  }

  lemma OneChild(t: Tree, i: nat, j: nat, x: nat)
    requires t.Branch? && i < |t.kids| && j < |t.kids|
    requires Under(t, i) <= x < Under(t, i) + Size(t.kids[i]) && Under(t, j) <= x < Under(t, j) + Size(t.kids[j])
    ensures i == j
  {
    UnderStep(t, i);
    UnderStep(t, j);
    if i < j { UnderMono(t, i + 1, j); } else if j < i { UnderMono(t, j + 1, i); }
  }

  lemma {:induction false} PathLength(root: Tree, d: nat, s: Spot, e: nat)
    requires Path(root, d, s, e)
    ensures |s.pg| + e == d + 1
    decreases |s.pg|
  {
    if |s.pg| > 1 { PathLength(root, d, Pop(s), e + 1); }
  }

  /** A position on a page is a position on the page above. */
  lemma PosAbove(root: Tree, d: nat, s: Spot, e: nat, x: nat)
    requires Path(root, d, s, e) && |s.pg| > 1 && Start(s) <= x < Start(s) + Size(Top(s))
    ensures var up := Pop(s);
      && Start(up) <= x < Start(up) + Size(Top(up))
      && Under(Top(up), Index(up)) <= x - Start(up) < Under(Top(up), Index(up)) + Size(Top(up).kids[Index(up)])
  {
    Inside(Top(Pop(s)), Index(Pop(s)));
  }

  lemma SameBelow(root: Tree, d: nat, s: Spot, u: Spot, e: nat)
    requires Path(root, d, s, e) && Path(root, d, u, e) && |s.pg| > 1 && |u.pg| > 1 && Pop(s) == Pop(u)
    ensures s.pg == u.pg && Start(s) == Start(u)
  {
    assert s.pg == Pop(s).pg + [Top(s)] && u.pg == Pop(u).pg + [Top(u)];
  }

  /** Two paths to pages of one level that hold the same position are the same path. */
  lemma {:induction false} SamePath(root: Tree, d: nat, s: Spot, u: Spot, e: nat, x: nat)
    requires Path(root, d, s, e) && Path(root, d, u, e)
    requires Start(s) <= x < Start(s) + Size(Top(s)) && Start(u) <= x < Start(u) + Size(Top(u))
    ensures s.pg == u.pg && Pop(s) == Pop(u) && Start(s) == Start(u)
    decreases |s.pg|
  {
    PathLength(root, d, s, e);
    PathLength(root, d, u, e);
    if |s.pg| > 1 {
      PosAbove(root, d, s, e, x);
      PosAbove(root, d, u, e, x);
      SamePath(root, d, Pop(s), Pop(u), e + 1, x);
      OneChild(Top(Pop(s)), Index(Pop(s)), Index(Pop(u)), x - Start(Pop(s)));
      Rejoin(Pop(s), Pop(u));
      SameBelow(root, d, s, u, e);
    }
  }

  lemma Rejoin(a: Spot, b: Spot)
    requires |a.pg| == |a.ki| > 0 && |b.pg| == |b.ki| > 0 && a.pg == b.pg && Pop(a) == Pop(b) && Index(a) == Index(b)
    ensures a == b
  {
    assert a.ki == Pop(a).ki + [Index(a)] && b.ki == Pop(b).ki + [Index(b)];
  }
}
