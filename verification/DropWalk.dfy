/**
Dropping a database (mdb_drop0): a walk along each level of the tree, from the leaves up, that puts
every page and every overflow run on the free list.
*/
module DropWalk {
  import opened Common
  import IdList

  /** A run of overflow pages. */
  datatype Run = Run(first: nat, count: nat)

  /** Pages with their numbers; of a leaf only the overflow runs it refers to matter. */
  datatype Page = Leaf(no: nat, runs: seq<Run>) | Branch(no: nat, kids: seq<Page>)

  /** All leaves are at depth d and every branch page has children. */
  ghost predicate Level(t: Page, d: nat) {
    match t
    case Leaf(_, _) => d == 1
    case Branch(_, kids) => d > 1 && |kids| > 0 && forall i :: 0 <= i < |kids| ==> Level(kids[i], d - 1)
  }

  // ---------------------------------------------------------------- rows of pages

  function Kids(t: Page): seq<Page> { if t.Leaf? then [] else t.kids }

  /** The pages one level below the given ones, from left to right. */
  function Next(row: seq<Page>): seq<Page> {
    if row == [] then [] else Kids(row[0]) + Next(row[1..])
  }

  /** The pages h levels below the given ones. */
  function Row(row: seq<Page>, h: nat): seq<Page>
    decreases h
  {
    if h == 0 then row else Row(Next(row), h - 1)
  }

  lemma NextTail(a: seq<Page>, b: seq<Page>)
    requires a != []
    ensures Next(a + b) == Kids(a[0]) + Next(a[1..] + b) && Next(a) == Kids(a[0]) + Next(a[1..])
  {
    TailConcat(a, b);
  }

  lemma {:induction false} NextConcat(a: seq<Page>, b: seq<Page>)
    ensures Next(a + b) == Next(a) + Next(b)
  {
    if a == [] {
      assert a + b == b;
    } else {
      NextConcat(a[1..], b);
      NextTail(a, b);
      ConcatAssoc(Kids(a[0]), Next(a[1..]), Next(b));
    }
  }

  lemma {:induction false} RowConcat(a: seq<Page>, b: seq<Page>, h: nat)
    ensures Row(a + b, h) == Row(a, h) + Row(b, h)
    decreases h
  {
    if h > 0 {
      NextConcat(a, b);
      RowConcat(Next(a), Next(b), h - 1);
    }
  }

  lemma NextOne(t: Page)
    ensures Next([t]) == Kids(t)
  {
    assert [t][1..] == [];
  }

  lemma {:induction false} RowEmpty(h: nat)
    ensures Row([], h) == []
    decreases h
  {
    if h > 0 { RowEmpty(h - 1); }
  }

  lemma {:induction false} RowDeeper(row: seq<Page>, h: nat)
    ensures Row(row, h + 1) == Next(Row(row, h))
    decreases h
  {
    if h > 0 { RowDeeper(Next(row), h - 1); }
  }

  // ---------------------------------------------------------------- the stack

  /** The pages from the root down and the index on each. */
  datatype Spot = Spot(pg: seq<Page>, ki: seq<nat>)

  predicate Stacked(s: Spot) { |s.pg| == |s.ki| > 0 }

  function Top(s: Spot): Page
    requires Stacked(s)
  {
    s.pg[|s.pg| - 1]
  }

  function Index(s: Spot): nat
    requires Stacked(s)
  {
    s.ki[|s.ki| - 1]
  }

  function Pop(s: Spot): Spot
    requires Stacked(s)
  {
    Spot(s.pg[..|s.pg| - 1], s.ki[..|s.ki| - 1])
  }

  function Push(s: Spot, t: Page): Spot { Spot(s.pg + [t], s.ki + [0]) }

  /** Each page is the child that the page above it points to. */
  ghost predicate Path(s: Spot)
    decreases |s.pg|
  {
    Stacked(s) && (|s.pg| > 1 ==>
      Path(Pop(s)) && Index(Pop(s)) < |Kids(Top(Pop(s)))| && Top(s) == Kids(Top(Pop(s)))[Index(Pop(s))])
  }

  /** What lies h levels below the top page's level, to the right of the top page. */
  function After(s: Spot, h: nat): seq<Page>
    decreases |s.pg|
  {
    if !Stacked(s) || |s.pg| == 1 then []
    else
      var up := Pop(s);
      Row(if Index(up) + 1 <= |Kids(Top(up))| then Kids(Top(up))[Index(up) + 1..] else [], h) + After(up, h + 1)
  }

  /** mdb_cursor_sibling to the right. */
  function Sibling(s: Spot): Option<Spot>
    requires Stacked(s)
    decreases |s.pg|
  {
    if |s.pg| < 2 then None
    else
      var up := Pop(s);
      if Index(up) + 1 >= |Kids(Top(up))| then
        match Sibling(up)
        case None => None
        case Some(v) => if Stacked(v) && Index(v) < |Kids(Top(v))| then Some(Push(v, Kids(Top(v))[Index(v)])) else None
      else
        Some(Push(MoveTo(up, Index(up) + 1), Kids(Top(up))[Index(up) + 1]))
  }

  function MoveTo(s: Spot, i: nat): Spot
    requires Stacked(s)
  {
    Spot(s.pg, s.ki[|s.ki| - 1 := i])
  }

  lemma MoveKeeps(s: Spot, i: nat, h: nat)
    requires Path(s)
    ensures Path(MoveTo(s, i)) && Top(MoveTo(s, i)) == Top(s) && Index(MoveTo(s, i)) == i
    ensures After(MoveTo(s, i), h) == After(s, h)
  {
    assert Pop(MoveTo(s, i)) == Pop(s);
  }

  lemma PushAfter(v: Spot, t: Page, h: nat)
    requires Stacked(v) && Index(v) < |Kids(Top(v))|
    ensures Stacked(Push(v, t)) && Top(Push(v, t)) == t && Index(Push(v, t)) == 0 && Pop(Push(v, t)) == v
    ensures After(Push(v, t), h) == Row(Kids(Top(v))[Index(v) + 1..], h) + After(v, h + 1)
  {
    assert Pop(Push(v, t)) == v;
  }

  /** A page's children, taken apart at the first one. */
  lemma RowSplit(ts: seq<Page>, i: nat, h: nat)
    requires i < |ts|
    ensures Row(ts[i..], h) == Row([ts[i]], h) + Row(ts[i + 1..], h)
  {
    assert ts[i..] == [ts[i]] + ts[i + 1..];
    RowConcat([ts[i]], ts[i + 1..], h);
  }

  /** The right sibling is the first thing to the right, on its own level and on every level below. */
  ghost predicate IsNext(s: Spot, r: Option<Spot>, h: nat) {
    match r
    case None => After(s, h) == []
    case Some(u) =>
      Path(u) && |u.pg| == |s.pg| && Index(u) == 0 && After(s, h) == Row([Top(u)], h) + After(u, h)
  }

  lemma Assoc(a: seq<Page>, b: seq<Page>, c: seq<Page>)
    ensures a + b + c == a + (b + c)
  {
  }

  /** Pushing the child the index points to, when it is the first page to the right. */
  lemma PushNext(s: Spot, v: Spot, h: nat)
    requires Stacked(s) && Path(v) && Index(v) < |Kids(Top(v))| && |v.pg| + 1 == |s.pg|
    requires After(s, h) == Row(Kids(Top(v))[Index(v)..], h) + After(v, h + 1)
    ensures IsNext(s, Some(Push(v, Kids(Top(v))[Index(v)])), h)
  {
    var ks, i := Kids(Top(v)), Index(v);
    PushAfter(v, ks[i], h);
    RowSplit(ks, i, h);
    Assoc(Row([ks[i]], h), Row(ks[i + 1..], h), After(v, h + 1));
  }

  lemma AfterIs(s: Spot, h: nat)
    requires Stacked(s) && |s.pg| > 1 && Index(Pop(s)) + 1 <= |Kids(Top(Pop(s)))|
    ensures After(s, h) == Row(Kids(Top(Pop(s)))[Index(Pop(s)) + 1..], h) + After(Pop(s), h + 1)
  {
  }

  lemma SiblingIs(s: Spot)
    requires Stacked(s) && |s.pg| > 1 && Index(Pop(s)) + 1 < |Kids(Top(Pop(s)))|
    ensures var up := Pop(s);
      Sibling(s) == Some(Push(MoveTo(up, Index(up) + 1), Kids(Top(up))[Index(up) + 1]))
  {
  }

  lemma NextChild(s: Spot, up: Spot, v: Spot, i: nat, h: nat)
    requires Path(s) && |s.pg| > 1 && up == Pop(s) && i == Index(up) + 1 < |Kids(Top(up))|
    requires Path(v) && |v.pg| == |up.pg| && Top(v) == Top(up) && Index(v) == i && After(v, h + 1) == After(up, h + 1)
    ensures IsNext(s, Some(Push(v, Kids(Top(v))[i])), h)
  {
    AfterIs(s, h);
    PushNext(s, v, h);
  }

  lemma FirstChild(s: Spot, v: Spot, h: nat)
    requires Path(s) && |s.pg| > 1 && Index(Pop(s)) + 1 >= |Kids(Top(Pop(s)))|
    requires IsNext(Pop(s), Some(v), h + 1) && |Kids(Top(v))| > 0
    ensures IsNext(s, Some(Push(v, Kids(Top(v))[0])), h)
  {
    RowEmpty(h);
    NextOne(Top(v));
    assert Kids(Top(v))[0..] == Kids(Top(v));
    EndAfter(s, h);
    PushNext(s, v, h);
  }

  lemma EndAfter(s: Spot, h: nat)
    requires Path(s) && |s.pg| > 1 && Index(Pop(s)) + 1 >= |Kids(Top(Pop(s)))|
    ensures After(s, h) == After(Pop(s), h + 1)
  {
    RowEmpty(h);
    assert Kids(Top(Pop(s)))[Index(Pop(s)) + 1..] == [];
  }

  /** The pages on the stack are of depth d, d - 1, ... */
  lemma {:induction false} PathLevel(s: Spot, d: nat)
    requires Path(s) && Level(s.pg[0], d)
    ensures |s.pg| <= d && Level(Top(s), d + 1 - |s.pg|)
    decreases |s.pg|
  {
    if |s.pg| > 1 { PathLevel(Pop(s), d); }
  }

  lemma SiblingEdge(s: Spot)
    requires Stacked(s) && |s.pg| > 1 && Index(Pop(s)) + 1 >= |Kids(Top(Pop(s)))|
    ensures match Sibling(Pop(s))
      case None => Sibling(s) == None
      case Some(v) =>
        Stacked(v) && Index(v) == 0 < |Kids(Top(v))| ==> Sibling(s) == Some(Push(v, Kids(Top(v))[0]))
  {
  }

  lemma {:induction false} SiblingIsNext(s: Spot, d: nat, h: nat) returns (r: Option<Spot>)
    requires Path(s) && Level(s.pg[0], d)
    ensures r == Sibling(s) && IsNext(s, r, h) && (r.Some? ==> r.value.pg[0] == s.pg[0])
    decreases |s.pg|
  {
    if |s.pg| == 1 {
      r := None;
    } else if Index(Pop(s)) + 1 < |Kids(Top(Pop(s)))| {
      r := InnerSibling(s, Pop(s), h);
    } else {
      PathLevel(s, d);
      var v := SiblingIsNext(Pop(s), d, h + 1);
      r := EdgeSibling(s, v, d, h);
    }
  }

  lemma InnerSibling(s: Spot, up: Spot, h: nat) returns (r: Option<Spot>)
    requires Path(s) && |s.pg| > 1 && up == Pop(s) && Index(up) + 1 < |Kids(Top(up))|
    ensures r == Sibling(s) && IsNext(s, r, h) && r.Some? && r.value.pg[0] == s.pg[0]
  {
    var v := MoveTo(up, Index(up) + 1);
    r := Some(Push(v, Kids(Top(v))[Index(up) + 1]));
    SiblingIs(s);
    MoveKeeps(up, Index(up) + 1, h + 1);
    NextChild(s, up, v, Index(up) + 1, h);
  }

  lemma EdgeSibling(s: Spot, v: Option<Spot>, d: nat, h: nat) returns (r: Option<Spot>)
    requires Path(s) && |s.pg| > 1 && Index(Pop(s)) + 1 >= |Kids(Top(Pop(s)))| && Level(s.pg[0], d) && |s.pg| <= d
    requires v == Sibling(Pop(s)) && IsNext(Pop(s), v, h + 1) && (v.Some? ==> v.value.pg[0] == s.pg[0])
    ensures r == Sibling(s) && IsNext(s, r, h) && (r.Some? ==> r.value.pg[0] == s.pg[0])
  {
    SiblingEdge(s);
    if v.None? {
      EndAfter(s, h);
      r := None;
    } else {
      PathLevel(v.value, d);
      FirstChild(s, v.value, h);
      r := Some(Push(v.value, Kids(Top(v.value))[0]));
    }
  }

  // ---------------------------------------------------------------- what is freed

  /** The page numbers of a run, in the order in which they are appended. */
  function RunIds(r: Run): seq<nat> { IdList.RangeDown(r.first, r.count) }

  function AllRunIds(runs: seq<Run>): seq<nat> {
    if runs == [] then [] else AllRunIds(runs[..|runs| - 1]) + RunIds(runs[|runs| - 1])
  }

  function Numbers(row: seq<Page>): seq<nat> {
    if row == [] then [] else [row[0].no] + Numbers(row[1..])
  }

  /** A leaf's visit frees its overflow runs, a branch page's visit frees its children. */
  function PageFrees(t: Page): seq<nat> {
    if t.Leaf? then AllRunIds(t.runs) else Numbers(t.kids)
  }

  function Frees(row: seq<Page>): seq<nat> {
    if row == [] then [] else PageFrees(row[0]) + Frees(row[1..])
  }

  /** The visits of the level h below and of all levels above it. */
  function FreesUp(row: seq<Page>, h: nat): seq<nat>
    decreases h
  {
    Frees(Row(row, h)) + if h > 0 then FreesUp(row, h - 1) else []
  }

  /** Every page number of a tree with its overflow pages, once for each occurrence. */
  function AllNumbers(t: Page): multiset<nat>
    decreases t, 0
  {
    multiset{t.no} + if t.Leaf? then multiset(AllRunIds(t.runs)) else ForestNumbers(t.kids)
  }

  function ForestNumbers(row: seq<Page>): multiset<nat>
    decreases row, |row|
  {
    if row == [] then multiset{} else AllNumbers(row[0]) + ForestNumbers(row[1..])
  }

  lemma NumbersTail(a: seq<Page>, b: seq<Page>)
    requires a != []
    ensures Numbers(a + b) == [a[0].no] + Numbers(a[1..] + b) && Numbers(a) == [a[0].no] + Numbers(a[1..])
  {
    TailConcat(a, b);
  }

  lemma {:induction false} NumbersConcat(a: seq<Page>, b: seq<Page>)
    ensures Numbers(a + b) == Numbers(a) + Numbers(b)
  {
    if a == [] {
      assert a + b == b;
    } else {
      NumbersConcat(a[1..], b);
      NumbersTail(a, b);
      ConcatAssoc([a[0].no], Numbers(a[1..]), Numbers(b));
    }
  }

  lemma ForestTail(a: seq<Page>, b: seq<Page>)
    requires a != []
    ensures ForestNumbers(a + b) == AllNumbers(a[0]) + ForestNumbers(a[1..] + b)
    ensures ForestNumbers(a) == AllNumbers(a[0]) + ForestNumbers(a[1..])
  {
    TailConcat(a, b);
  }

  lemma {:induction false} ForestConcat(a: seq<Page>, b: seq<Page>)
    ensures ForestNumbers(a + b) == ForestNumbers(a) + ForestNumbers(b)
  {
    if a == [] {
      assert a + b == b;
      SumZero(ForestNumbers(b));
    } else {
      ForestConcat(a[1..], b);
      ForestTail(a, b);
      SumAssoc(AllNumbers(a[0]), ForestNumbers(a[1..]), ForestNumbers(b));
    }
  }

  lemma SumZero(a: multiset<nat>)
    ensures multiset{} + a == a
  {
  }

  lemma SumAssoc(a: multiset<nat>, b: multiset<nat>, c: multiset<nat>)
    ensures a + (b + c) == a + b + c
  {
  }

  lemma ListAssoc(a: seq<nat>, b: seq<nat>, c: seq<nat>)
    ensures a + (b + c) == a + b + c && a + [] == a
  {
  }

  ghost predicate RowLevel(row: seq<Page>, d: nat) { forall i :: 0 <= i < |row| ==> Level(row[i], d) }

  lemma {:induction false} NextLevel(row: seq<Page>, d: nat)
    requires RowLevel(row, d) && d > 1
    ensures RowLevel(Next(row), d - 1) && Frees(row) == Numbers(Next(row))
    ensures ForestNumbers(row) == multiset(Numbers(row)) + ForestNumbers(Next(row))
  {
    if row != [] {
      NextLevel(row[1..], d);
      NumbersConcat(Kids(row[0]), Next(row[1..]));
      ForestConcat(Kids(row[0]), Next(row[1..]));
    }
  }

  lemma {:induction false} LeafLevel(row: seq<Page>)
    requires RowLevel(row, 1)
    ensures ForestNumbers(row) == multiset(Numbers(row)) + multiset(Frees(row))
  {
    if row != [] { LeafLevel(row[1..]); }
  }

  lemma {:induction false} FreesUpNext(row: seq<Page>, h: nat)
    ensures FreesUp(row, h + 1) == FreesUp(Next(row), h) + Frees(row)
    decreases h
  {
    if h > 0 {
      FreesUpNext(row, h - 1);
      FreesUpStep(row, h);
      FreesUpStep(Next(row), h - 1);
      ListAssoc(Frees(Row(Next(row), h)), FreesUp(Next(row), h - 1), Frees(row));
    } else {
      FreesUpZero(row);
      FreesUpZero(Next(row));
      FreesUpStep(row, 0);
    }
  }

  lemma FreesUpStep(row: seq<Page>, h: nat)
    ensures FreesUp(row, h + 1) == Frees(Row(Next(row), h)) + FreesUp(row, h)
  {
  }

  lemma FreesUpZero(row: seq<Page>)
    ensures FreesUp(row, 0) == Frees(row)
  {
    ListAssoc(Frees(row), [], []);
  }

  /** The visits of all levels free everything below the first row. */
  lemma {:induction false} AllFreed(row: seq<Page>, d: nat)
    requires RowLevel(row, d) && d > 0
    ensures ForestNumbers(row) == multiset(Numbers(row)) + multiset(FreesUp(row, d - 1))
    decreases d
  {
    if d == 1 {
      LeafLevel(row);
      FreesUpZero(row);
    } else {
      NextLevel(row, d);
      AllFreed(Next(row), d - 1);
      FreesUpNext(row, d - 2);
    }
  }

  lemma OneNumber(root: Page)
    ensures Numbers([root]) == [root.no] && ForestNumbers([root]) == AllNumbers(root)
  {
    assert [root][1..] == [];
  }

  /** What a drop puts on the free list. */
  function Dropped(root: Page, d: nat): seq<nat>
    requires d > 0
  {
    FreesUp([root], d - 1) + [root.no]
  }

  /** Every page of the tree and every overflow page is freed, each exactly once. */
  lemma DropsAll(root: Page, d: nat)
    requires Level(root, d) && d > 0
    ensures multiset(Dropped(root, d)) == AllNumbers(root)
  {
    AllFreed([root], d);
    OneNumber(root);
    assert multiset([root.no]) == multiset{root.no};
  }

  // ---------------------------------------------------------------- the walk

  /** The path to the first page of a level. */
  ghost predicate IsFirst(s: Spot, root: Page) {
    Path(s) && s.pg[0] == root && forall i :: 0 <= i < |s.ki| ==> s.ki[i] == 0
  }

  /** One step of the next lemma: a first child and what is to its right make up its parent's row. */
  lemma FirstStep(up: Spot, s: Spot, h: nat)
    requires Path(s) && |s.pg| > 1 && up == Pop(s) && Index(up) == 0
    ensures Row([Top(up)], h + 1) + After(up, h + 1) == Row([Top(s)], h) + After(s, h)
  {
    var ks := Kids(Top(up));
    NextOne(Top(up));
    assert ks[0..] == ks;
    RowSplit(ks, 0, h);
    Assoc(Row([ks[0]], h), Row(ks[1..], h), After(up, h + 1));
  }

  lemma FirstUp(s: Spot, root: Page)
    requires IsFirst(s, root) && |s.pg| > 1
    ensures IsFirst(Pop(s), root) && Index(Pop(s)) == 0
  {
  }

  /** From the first page on comes the whole level. */
  lemma {:induction false} FirstRow(s: Spot, root: Page, h: nat, k: nat)
    requires IsFirst(s, root) && k == |s.pg| - 1 + h
    ensures Row([root], k) == Row([Top(s)], h) + After(s, h)
    decreases |s.pg|
  {
    if |s.pg| > 1 {
      FirstUp(s, root);
      FirstRow(Pop(s), root, h + 1, k);
      FirstStep(Pop(s), s, h);
    }
  }

  /** A shorter stack from the first path is the first path of a higher level. */
  lemma {:induction false} FirstPrefix(s: Spot, root: Page, n: nat)
    requires IsFirst(s, root) && 0 < n <= |s.pg|
    ensures IsFirst(Spot(s.pg[..n], s.ki[..n]), root)
    decreases |s.pg|
  {
    if n < |s.pg| {
      var up := Pop(s);
      FirstPrefix(up, root, n);
      assert up.pg[..n] == s.pg[..n] && up.ki[..n] == s.ki[..n];
    } else {
      assert s.pg[..n] == s.pg && s.ki[..n] == s.ki;
    }
  }

  /** What is freed on the levels above. */
  function Above(s: Spot, root: Page): seq<nat> {
    if |s.pg| > 1 then FreesUp([root], |s.pg| - 2) else []
  }

  /** What the walk still frees from a spot on, without the root. */
  function Todo(s: Spot, root: Page): seq<nat>
    requires Stacked(s)
  {
    Frees([Top(s)] + After(s, 0)) + Above(s, root)
  }

  lemma TodoFirst(s: Spot, root: Page)
    requires IsFirst(s, root)
    ensures Todo(s, root) == FreesUp([root], |s.pg| - 1)
  {
    FirstRow(s, root, 0, |s.pg| - 1);
  }

  lemma FreesFirst(t: Page, row: seq<Page>)
    ensures Frees([t] + row) == PageFrees(t) + Frees(row)
  {
    assert ([t] + row)[0] == t && ([t] + row)[1..] == row;
  }

  /** The visit of a page, and what is left after it. */
  lemma TodoVisit(s: Spot, root: Page)
    requires Stacked(s)
    ensures Todo(s, root) == PageFrees(Top(s)) + (Frees(After(s, 0)) + Above(s, root))
  {
    FreesFirst(Top(s), After(s, 0));
    ListAssoc(PageFrees(Top(s)), Frees(After(s, 0)), Above(s, root));
  }

  /** The sibling goes on where the visit ended. */
  lemma TodoSibling(s: Spot, root: Page, d: nat)
    requires Path(s) && s.pg[0] == root && Level(root, d)
    ensures match Sibling(s)
      case Some(u) =>
        && Path(u) && u.pg[0] == root && |u.pg| == |s.pg| && |After(u, 0)| < |After(s, 0)|
        && Todo(u, root) == Frees(After(s, 0)) + Above(s, root)
      case None => After(s, 0) == []
  {
    var r := SiblingIsNext(s, d, 0);
  }

  class FreeList {
    var ids: seq<nat>

    constructor ()
      ensures ids == []
    {
      ids := [];
    }

    method FreeRuns(runs: seq<Run>)
      modifies this
      ensures ids == old(ids) + AllRunIds(runs)
    {
      for i := 0 to |runs|
        invariant ids == old(ids) + AllRunIds(runs[..i])
      {
        ids := ids + RunIds(runs[i]);
        assert runs[..i + 1][..i] == runs[..i];
      }
      assert runs[..|runs|] == runs;
    }

    method FreeKids(kids: seq<Page>)
      modifies this
      ensures ids == old(ids) + Numbers(kids)
    {
      for i := 0 to |kids|
        invariant ids == old(ids) + Numbers(kids[..i])
      {
        ids := ids + [kids[i].no];
        assert kids[..i + 1] == kids[..i] + [kids[i]];
        NumbersConcat(kids[..i], [kids[i]]);
      }
      assert kids[..|kids|] == kids;
    }

    method Visit(t: Page)
      modifies this
      ensures ids == old(ids) + PageFrees(t)
    {
      if t.Leaf? { FreeRuns(t.runs); } else { FreeKids(t.kids); }
    }
  }

  /** mdb_page_search with MDB_PS_FIRST. */
  method First(root: Page, ghost d: nat) returns (s: Spot)
    requires Level(root, d)
    ensures IsFirst(s, root) && |s.pg| == d
  {
    s := Spot([root], [0]);
    while Top(s).Branch?
      invariant IsFirst(s, root) && |s.pg| <= d && Level(Top(s), d + 1 - |s.pg|)
      decreases d - |s.pg|
    {
      var t := Top(s).kids[0];
      assert Pop(Push(s, t)) == s;
      s := Push(s, t);
    }
  }

  function Prefix(s: Spot, n: nat): Spot
    requires Stacked(s) && n <= |s.pg|
  {
    Spot(s.pg[..n], s.ki[..n])
  }

  /** At the end of a level only the levels above are left. */
  lemma LevelDone(s: Spot, first: Spot, root: Page)
    requires Stacked(s) && |s.pg| > 1 && After(s, 0) == [] && IsFirst(first, root) && |s.pg| <= |first.pg|
    ensures var u := Prefix(first, |s.pg| - 1);
      Path(u) && u.pg[0] == root && |u.pg| < |s.pg| && Todo(u, root) == Frees(After(s, 0)) + Above(s, root)
  {
    FirstPrefix(first, root, |s.pg| - 1);
    TodoFirst(Prefix(first, |s.pg| - 1), root);
    ListAssoc([], Above(s, root), []);
  }

  /** Where the walk goes after a page: to its right, or to the start of the level above. */
  method Onward(s: Spot, first: Spot, root: Page, ghost d: nat) returns (u: Spot)
    requires Path(s) && s.pg[0] == root && Level(root, d) && |s.pg| > 1
    requires IsFirst(first, root) && |s.pg| <= |first.pg|
    ensures Path(u) && u.pg[0] == root && Todo(u, root) == Frees(After(s, 0)) + Above(s, root)
    ensures |u.pg| < |s.pg| || (|u.pg| == |s.pg| && |After(u, 0)| < |After(s, 0)|)
  {
    TodoSibling(s, root, d);
    var r := Sibling(s);
    if r.Some? { return r.value; }
    LevelDone(s, first, root);
    u := Prefix(first, |s.pg| - 1);
  }

  /** mdb_drop0 for a database without duplicates; one without a root has nothing to free. */
  method Drop(free: FreeList, root: Option<Page>, ghost d: nat)
    requires root.Some? ==> d > 0 && Level(root.value, d)
    modifies free
    ensures free.ids == old(free.ids) + if root.Some? then Dropped(root.value, d) else []
  {
    if root.None? { return; }
    var t := root.value;
    var s := First(t, d);
    var first := s;
    TodoFirst(s, t);
    var more := true;
    while more
      invariant Path(s) && s.pg[0] == t && |s.pg| <= d
      invariant free.ids + (if more then Todo(s, t) else []) == old(free.ids) + FreesUp([t], d - 1)
      decreases more, |s.pg|, |After(s, 0)|
    {
      ghost var before, rest := free.ids, Frees(After(s, 0)) + Above(s, t);
      TodoVisit(s, t);
      free.Visit(Top(s));
      ListAssoc(before, PageFrees(Top(s)), rest);
      if |s.pg| > 1 {
        s := Onward(s, first, t, d);
      } else {
        more := false;
      }
    }
    ListAssoc(old(free.ids), FreesUp([t], d - 1), [t.no]);
    free.ids := free.ids + [t.no];
  }
}
