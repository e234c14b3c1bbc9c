/**
The B+tree of a non-DUPSORT database, above the level of pages as bytes: leaves hold entries in key
order, branch pages hold separators and children, and every page's nodes fit its page.
*/
module BTree {
  import opened Common
  import opened PageFormat
  import Split
  import Sums

  /** A key: its position in the order of the database's comparison function, and its length. */
  datatype Key = Key(rank: int, size: nat)

  type Val = seq<int>

  /** A leaf node.  `big` says that the data is on overflow pages (F_BIGDATA). */
  datatype Entry = Entry(key: Key, val: Val, big: bool)

  /** A page and what hangs below it.  The first separator of a branch is an empty key. */
  datatype Tree = Leaf(es: seq<Entry>) | Branch(seps: seq<Key>, kids: seq<Tree>)

  datatype Pair = Pair(rank: int, val: Val)

  const MAXKEY: nat := 511

  function Room(psize: nat): int { psize - PAGEHDRSZ }

  // ---------------------------------------------------------------- sizes

  function EntrySize(e: Entry): nat {
    Even(NODESIZE + e.key.size + (if e.big then PGNO else |e.val|)) + SLOT
  }

  function SepSize(k: Key): nat { Even(NODESIZE + k.size) + SLOT }

  function EntrySizes(es: seq<Entry>): (s: seq<nat>)
    ensures |s| == |es| && forall i :: 0 <= i < |s| ==> s[i] == EntrySize(es[i])
  {
    seq(|es|, i requires 0 <= i < |es| => EntrySize(es[i]))
  }

  function SepSizes(ks: seq<Key>): (s: seq<nat>)
    ensures |s| == |ks| && forall i :: 0 <= i < |s| ==> s[i] == SepSize(ks[i])
  {
    seq(|ks|, i requires 0 <= i < |ks| => SepSize(ks[i]))
  }

  /** Bytes taken on a page by its nodes and their slots. */
  function Used(t: Tree): nat {
    match t
    case Leaf(es) => Sums.Sum(EntrySizes(es))
    case Branch(seps, _) => Sums.Sum(SepSizes(seps))
  }

  function NumKeys(t: Tree): nat {
    match t
    case Leaf(es) => |es|
    case Branch(seps, _) => |seps|
  }

  // ---------------------------------------------------------------- well-formedness

  ghost predicate Ascending(es: seq<Entry>) {
    forall i, j :: 0 <= i < j < |es| ==> es[i].key.rank < es[j].key.rank
  }

  ghost predicate EntryOk(e: Entry, psize: nat) {
    1 <= e.key.size <= MAXKEY && 2 * EntrySize(e) <= Room(psize)
  }

  ghost predicate EntriesOk(es: seq<Entry>, lo: int, hi: int, psize: nat) {
    Ascending(es) && forall i :: 0 <= i < |es| ==> lo <= es[i].key.rank < hi && EntryOk(es[i], psize)
  }

  ghost predicate LeafOk(es: seq<Entry>, lo: int, hi: int, psize: nat) {
    EntriesOk(es, lo, hi, psize) && Sums.Sum(EntrySizes(es)) <= Room(psize)
  }

  /** The first separator is empty, the others ascend between lo and hi. */
  ghost predicate SepsOk(seps: seq<Key>, lo: int, hi: int) {
    && |seps| > 0 && seps[0].size == 0
    && (forall i :: 1 <= i < |seps| ==> 1 <= seps[i].size <= MAXKEY && lo < seps[i].rank < hi)
    && (forall i, j :: 1 <= i < j < |seps| ==> seps[i].rank < seps[j].rank)
  }

  function Lo(seps: seq<Key>, i: nat, lo: int): int
    requires i < |seps|
  {
    if i == 0 then lo else seps[i].rank
  }

  function Hi(seps: seq<Key>, i: nat, hi: int): int
    requires i < |seps|
  {
    if i + 1 < |seps| then seps[i + 1].rank else hi
  }

  /** At least one entry on a leaf, two children on a branch. */
  predicate Enough(t: Tree) {
    match t
    case Leaf(es) => |es| >= 1
    case Branch(_, kids) => |kids| >= 2
  }

  /** A tree of depth d with all keys in lo..hi-1.  Every page below the root has enough nodes. */
  ghost predicate WF(t: Tree, lo: int, hi: int, d: nat, psize: nat) {
    match t
    case Leaf(es) => d == 1 && LeafOk(es, lo, hi, psize)
    case Branch(seps, kids) =>
      && d > 1 && |kids| == |seps| && SepsOk(seps, lo, hi) && Sums.Sum(SepSizes(seps)) <= Room(psize)
      && forall i :: 0 <= i < |kids| ==>
           Enough(kids[i]) && WF(kids[i], Lo(seps, i, lo), Hi(seps, i, hi), d - 1, psize)
  }

  /** The separators and children of a branch page, whether or not they fit on it. */
  ghost predicate KidsOk(seps: seq<Key>, kids: seq<Tree>, lo: int, hi: int, d: nat, psize: nat) {
    && d > 1 && |kids| == |seps| && SepsOk(seps, lo, hi)
    && forall i :: 0 <= i < |kids| ==>
         Enough(kids[i]) && WF(kids[i], Lo(seps, i, lo), Hi(seps, i, hi), d - 1, psize)
  }

  // ---------------------------------------------------------------- contents

  function LeafPairs(es: seq<Entry>): (s: seq<Pair>)
    ensures |s| == |es| && forall i :: 0 <= i < |s| ==> s[i] == Pair(es[i].key.rank, es[i].val)
  {
    seq(|es|, i requires 0 <= i < |es| => Pair(es[i].key.rank, es[i].val))
  }

  /** The key/value pairs of a tree, from left to right. */
  function Pairs(t: Tree): seq<Pair> {
    match t
    case Leaf(es) => LeafPairs(es)
    case Branch(_, kids) => AllPairs(kids)
  }

  function AllPairs(kids: seq<Tree>): seq<Pair> {
    if kids == [] then [] else Pairs(kids[0]) + AllPairs(kids[1..])
  }

  lemma {:induction false} AllPairsConcat(a: seq<Tree>, b: seq<Tree>)
    ensures AllPairs(a + b) == AllPairs(a) + AllPairs(b)
  {
    if a == [] {
      assert a + b == b;
    } else {
      AllPairsConcat(a[1..], b);
      assert (a + b)[1..] == a[1..] + b && (a + b)[0] == a[0];
    }
  }

  lemma AllPairsOne(t: Tree)
    ensures AllPairs([t]) == Pairs(t)
  {
    assert [t][1..] == [];
  }

  /** Splitting the children around child i. */
  lemma AllPairsAt(kids: seq<Tree>, i: nat)
    requires i < |kids|
    ensures AllPairs(kids) == AllPairs(kids[..i]) + Pairs(kids[i]) + AllPairs(kids[i + 1..])
  {
    assert kids == kids[..i] + kids[i..];
    AllPairsConcat(kids[..i], kids[i..]);
    assert kids[i..][0] == kids[i] && kids[i..][1..] == kids[i + 1..];
    Assoc(AllPairs(kids[..i]), Pairs(kids[i]), AllPairs(kids[i + 1..]));
  }

  lemma Assoc(a: seq<Pair>, b: seq<Pair>, c: seq<Pair>)
    ensures a + (b + c) == a + b + c
  {
  }

  ghost predicate Sorted(s: seq<Pair>) {
    forall i, j :: 0 <= i < j < |s| ==> s[i].rank < s[j].rank
  }

  ghost predicate Within(s: seq<Pair>, lo: int, hi: int) {
    forall i :: 0 <= i < |s| ==> lo <= s[i].rank < hi
  }

  lemma SortedConcat(a: seq<Pair>, b: seq<Pair>, m: int)
    requires Sorted(a) && Sorted(b)
    requires (forall i :: 0 <= i < |a| ==> a[i].rank < m) && forall i :: 0 <= i < |b| ==> m <= b[i].rank
    ensures Sorted(a + b)
  {
  }

  /** The contents of a well-formed tree are sorted and within its bounds. */
  lemma {:induction false} PairsSorted(t: Tree, lo: int, hi: int, d: nat, psize: nat)
    requires WF(t, lo, hi, d, psize)
    ensures Sorted(Pairs(t)) && Within(Pairs(t), lo, hi)
    decreases d, 1, 0
  {
    match t
    case Leaf(_) =>
    case Branch(seps, kids) =>
      KidsSorted(t, lo, hi, d, psize, 0);
      assert kids[0..] == kids;
  }

  /** The same for the children from i on. */
  lemma {:induction false} KidsSorted(t: Tree, lo: int, hi: int, d: nat, psize: nat, i: nat)
    requires t.Branch? && WF(t, lo, hi, d, psize) && i < |t.kids|
    ensures Sorted(AllPairs(t.kids[i..])) && Within(AllPairs(t.kids[i..]), Lo(t.seps, i, lo), hi)
    decreases d, 0, |t.kids| - i
  {
    var seps, kids := t.seps, t.kids;
    PairsSorted(kids[i], Lo(seps, i, lo), Hi(seps, i, hi), d - 1, psize);
    assert kids[i..][0] == kids[i] && kids[i..][1..] == kids[i + 1..];
    if i + 1 < |kids| {
      KidsSorted(t, lo, hi, d, psize, i + 1);
      SortedConcat(Pairs(kids[i]), AllPairs(kids[i + 1..]), seps[i + 1].rank);
    }
  }

  // ---------------------------------------------------------------- search

  /** How many of the sorted pairs come before `rank`. */
  function Before(s: seq<Pair>, rank: int): (n: nat)
    ensures n <= |s|
  {
    if s == [] || s[|s| - 1].rank < rank then |s| else Before(s[..|s| - 1], rank)
  }

  lemma {:induction false} BeforeIs(s: seq<Pair>, rank: int)
    requires Sorted(s)
    ensures var n := Before(s, rank);
      (forall i :: 0 <= i < n ==> s[i].rank < rank) && forall i :: n <= i < |s| ==> s[i].rank >= rank
  {
    if s != [] && s[|s| - 1].rank >= rank { BeforeIs(s[..|s| - 1], rank); }
  }

  lemma BeforeUnique(s: seq<Pair>, rank: int, n: nat)
    requires Sorted(s) && n <= |s|
    requires (forall i :: 0 <= i < n ==> s[i].rank < rank) && forall i :: n <= i < |s| ==> s[i].rank >= rank
    ensures n == Before(s, rank)
  {
    BeforeIs(s, rank);
    assert n < |s| ==> s[n].rank >= rank;
    assert Before(s, rank) < |s| ==> s[Before(s, rank)].rank >= rank;
  }

  function Lookup(s: seq<Pair>, rank: int): Option<Val> {
    var n := Before(s, rank);
    if n < |s| && s[n].rank == rank then Some(s[n].val) else None
  }

  /** The child that covers `rank`: the last one whose separator is not above it. */
  function ChildIndex(seps: seq<Key>, rank: int): (i: nat)
    requires |seps| > 0
    ensures i < |seps| && (0 < i ==> seps[i].rank <= rank)
  {
    if |seps| == 1 || seps[|seps| - 1].rank <= rank then |seps| - 1
    else ChildIndex(seps[..|seps| - 1], rank)
  }

  lemma {:induction false} ChildCovers(seps: seq<Key>, rank: int)
    requires |seps| > 0
    requires forall i, j :: 1 <= i < j < |seps| ==> seps[i].rank < seps[j].rank
    ensures forall j :: ChildIndex(seps, rank) < j < |seps| ==> rank < seps[j].rank
  {
    if |seps| > 1 && seps[|seps| - 1].rank > rank { ChildCovers(seps[..|seps| - 1], rank); }
  }

  /** Search by descent (mdb_page_search_root, then the leaf). */
  function Get(t: Tree, rank: int): Option<Val>
    requires Shape(t)
    decreases t
  {
    match t
    case Leaf(es) => Lookup(LeafPairs(es), rank)
    case Branch(seps, kids) => Get(kids[ChildIndex(seps, rank)], rank)
  }

  /** Every branch page has as many separators as children, and at least one. */
  predicate Shape(t: Tree) {
    t.Branch? ==> |t.seps| == |t.kids| > 0 && forall i :: 0 <= i < |t.kids| ==> Shape(t.kids[i])
  }

  lemma {:induction false} WFShape(t: Tree, lo: int, hi: int, d: nat, psize: nat)
    requires WF(t, lo, hi, d, psize)
    ensures Shape(t)
    decreases d
  {
    if t.Branch? {
      forall i | 0 <= i < |t.kids| ensures Shape(t.kids[i]) {
        WFShape(t.kids[i], Lo(t.seps, i, lo), Hi(t.seps, i, hi), d - 1, psize);
      }
    }
  }

  /** A key between the bounds of one part is looked up there. */
  lemma LookupMid(a: seq<Pair>, b: seq<Pair>, c: seq<Pair>, rank: int)
    requires Sorted(a + b + c)
    requires (forall i :: 0 <= i < |a| ==> a[i].rank < rank) && forall i :: 0 <= i < |c| ==> rank < c[i].rank
    ensures Before(a + b + c, rank) == |a| + Before(b, rank)
    ensures Lookup(a + b + c, rank) == Lookup(b, rank)
  {
    var s, n := a + b + c, Before(b, rank);
    assert forall i :: 0 <= i < |b| ==> b[i] == s[|a| + i];
    assert Sorted(b);
    BeforeIs(b, rank);
    forall i | 0 <= i < |s| ensures i < |a| + n <==> s[i].rank < rank {
      if |a| <= i < |a| + |b| { assert s[i] == b[i - |a|]; }
      else if |a| + |b| <= i { assert s[i] == c[i - |a| - |b|]; }
    }
    BeforeUnique(s, rank, |a| + n);
  }

  /** Around a child: everything to the left is smaller, everything to the right larger. */
  lemma AroundChild(t: Tree, lo: int, hi: int, d: nat, psize: nat, i: nat)
    requires t.Branch? && WF(t, lo, hi, d, psize) && i < |t.kids|
    ensures Pairs(t) == AllPairs(t.kids[..i]) + Pairs(t.kids[i]) + AllPairs(t.kids[i + 1..])
    ensures Within(AllPairs(t.kids[..i]), lo, Lo(t.seps, i, lo))
    ensures Within(AllPairs(t.kids[i + 1..]), Hi(t.seps, i, hi), hi)
  {
    AllPairsAt(t.kids, i);
    if i + 1 < |t.kids| { KidsSorted(t, lo, hi, d, psize, i + 1); }
    if i > 0 { LeftOf(t, lo, hi, d, psize, i); }
  }

  lemma {:induction false} LeftOf(t: Tree, lo: int, hi: int, d: nat, psize: nat, i: nat)
    requires t.Branch? && WF(t, lo, hi, d, psize) && 0 < i < |t.kids|
    ensures Within(AllPairs(t.kids[..i]), lo, t.seps[i].rank)
  {
    var seps, kids := t.seps, t.kids;
    PairsSorted(kids[i - 1], Lo(seps, i - 1, lo), Hi(seps, i - 1, hi), d - 1, psize);
    assert kids[..i] == kids[..i - 1] + [kids[i - 1]];
    AllPairsConcat(kids[..i - 1], [kids[i - 1]]);
    AllPairsOne(kids[i - 1]);
    if i > 1 { LeftOf(t, lo, hi, d, psize, i - 1); }
  }

  /** Descent finds exactly what the sorted contents hold. */
  lemma {:induction false} GetIsLookup(t: Tree, lo: int, hi: int, d: nat, psize: nat, rank: int)
    requires WF(t, lo, hi, d, psize) && lo <= rank < hi
    ensures Shape(t) && Get(t, rank) == Lookup(Pairs(t), rank)
    decreases d
  {
    WFShape(t, lo, hi, d, psize);
    if t.Branch? {
      var i := ChildIndex(t.seps, rank);
      ChildCovers(t.seps, rank);
      GetIsLookup(t.kids[i], Lo(t.seps, i, lo), Hi(t.seps, i, hi), d - 1, psize, rank);
      AroundChild(t, lo, hi, d, psize, i);
      PairsSorted(t, lo, hi, d, psize);
      LookupMid(AllPairs(t.kids[..i]), Pairs(t.kids[i]), AllPairs(t.kids[i + 1..]), rank);
    }
  }
}
