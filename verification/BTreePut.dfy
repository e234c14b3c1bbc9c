/**
Storing a key (mdb_cursor_put, mdb_page_split): the new node goes onto its leaf, an overfull page is
split, and the separator of the new right page goes into the parent, which may be split in turn.
*/
module BTreePut {
  import opened Common
  import opened BTree
  import opened PageFormat
  import Split
  import Sums

  // ---------------------------------------------------------------- the effect on the contents

  function Upsert(s: seq<Pair>, rank: int, v: Val): seq<Pair> {
    var n := Before(s, rank);
    if n < |s| && s[n].rank == rank then s[n := Pair(rank, v)] else s[..n] + [Pair(rank, v)] + s[n..]
  }

  lemma SpliceUpdate(a: seq<Pair>, b: seq<Pair>, c: seq<Pair>, n: nat, p: Pair)
    requires n < |b|
    ensures (a + b + c)[|a| + n := p] == a + b[n := p] + c
  {
  }

  lemma SpliceInsert(a: seq<Pair>, b: seq<Pair>, c: seq<Pair>, n: nat, p: Pair)
    requires n <= |b|
    ensures (a + b + c)[..|a| + n] + [p] + (a + b + c)[|a| + n..] == a + (b[..n] + [p] + b[n..]) + c
  {
    assert (a + b + c)[..|a| + n] == a + b[..n];
    assert (a + b + c)[|a| + n..] == b[n..] + c;
  }

  lemma UpsertHit(s: seq<Pair>, n: nat, rank: int, v: Val)
    requires n == Before(s, rank) && n < |s| && s[n].rank == rank
    ensures Upsert(s, rank, v) == s[n := Pair(rank, v)]
  {
  }

  lemma UpsertMiss(s: seq<Pair>, n: nat, rank: int, v: Val)
    requires n == Before(s, rank) && !(n < |s| && s[n].rank == rank)
    ensures Upsert(s, rank, v) == s[..n] + [Pair(rank, v)] + s[n..]
  {
  }

  lemma MidAt(a: seq<Pair>, b: seq<Pair>, c: seq<Pair>, n: nat)
    requires n <= |b|
    ensures n < |b| ==> (a + b + c)[|a| + n] == b[n]
    ensures n == |b| && |c| > 0 ==> (a + b + c)[|a| + n] == c[0]
  {
  }

  lemma UpsertMid(a: seq<Pair>, b: seq<Pair>, c: seq<Pair>, rank: int, v: Val)
    requires Sorted(a + b + c)
    requires (forall i :: 0 <= i < |a| ==> a[i].rank < rank) && forall i :: 0 <= i < |c| ==> rank < c[i].rank
    ensures Upsert(a + b + c, rank, v) == a + Upsert(b, rank, v) + c
  {
    LookupMid(a, b, c, rank);
    MidAt(a, b, c, Before(b, rank));
    UpsertPart(a + b + c, a, b, c, Before(b, rank), rank, v);
  }

  lemma UpsertPart(s: seq<Pair>, a: seq<Pair>, b: seq<Pair>, c: seq<Pair>, n: nat, rank: int, v: Val)
    requires s == a + b + c && n == Before(b, rank) && Before(s, rank) == |a| + n
    requires n < |b| ==> s[|a| + n] == b[n]
    requires n == |b| && |c| > 0 ==> s[|a| + n].rank != rank
    ensures Upsert(s, rank, v) == a + Upsert(b, rank, v) + c
  {
    if n < |b| && b[n].rank == rank {
      UpsertPartHit(s, a, b, c, n, |a| + n, rank, v);
    } else {
      UpsertPartMiss(s, a, b, c, n, |a| + n, rank, v);
    }
  }

  lemma UpsertPartHit(s: seq<Pair>, a: seq<Pair>, b: seq<Pair>, c: seq<Pair>, n: nat, m: nat, rank: int, v: Val)
    requires s == a + b + c && n == Before(b, rank) && Before(s, rank) == m == |a| + n
    requires n < |b| && b[n].rank == rank && s[m] == b[n]
    ensures Upsert(s, rank, v) == a + Upsert(b, rank, v) + c
  {
    UpsertHit(s, m, rank, v);
    UpsertHit(b, n, rank, v);
    SpliceUpdate(a, b, c, n, Pair(rank, v));
  }

  lemma UpsertPartMiss(s: seq<Pair>, a: seq<Pair>, b: seq<Pair>, c: seq<Pair>, n: nat, m: nat, rank: int, v: Val)
    requires s == a + b + c && n == Before(b, rank) && Before(s, rank) == m == |a| + n
    requires !(n < |b| && b[n].rank == rank) && !(m < |s| && s[m].rank == rank)
    ensures Upsert(s, rank, v) == a + Upsert(b, rank, v) + c
  {
    UpsertMiss(s, m, rank, v);
    UpsertMiss(b, n, rank, v);
    SpliceInsert(a, b, c, n, Pair(rank, v));
  }

  lemma UpsertSorted(s: seq<Pair>, rank: int, v: Val)
    requires Sorted(s)
    ensures Sorted(Upsert(s, rank, v))
  {
    BeforeIs(s, rank);
  }

  lemma ReplacedLookup(s: seq<Pair>, n: nat, v: Val, x: int)
    requires Sorted(s) && n < |s|
    ensures Lookup(s[n := Pair(s[n].rank, v)], x) == if x == s[n].rank then Some(v) else Lookup(s, x)
  {
    var u, m := s[n := Pair(s[n].rank, v)], Before(s, x);
    BeforeIs(s, x);
    assert forall i :: 0 <= i < |s| ==> u[i].rank == s[i].rank;
    BeforeUnique(u, x, m);
  }

  lemma LookupPrefix(a: seq<Pair>, c: seq<Pair>, x: int)
    requires Sorted(a + c) && forall i :: 0 <= i < |c| ==> x < c[i].rank
    ensures Lookup(a + c, x) == Lookup(a, x)
  {
    assert [] + a + c == a + c;
    LookupMid([], a, c, x);
  }

  lemma LookupSuffix(a: seq<Pair>, c: seq<Pair>, x: int)
    requires Sorted(a + c) && forall i :: 0 <= i < |a| ==> a[i].rank < x
    ensures Lookup(a + c, x) == Lookup(c, x)
  {
    assert a + c + [] == a + c;
    LookupMid(a, c, [], x);
  }

  lemma InsertedLookup(a: seq<Pair>, p: Pair, c: seq<Pair>, x: int)
    requires Sorted(a + c) && Sorted(a + [p] + c)
    requires (forall i :: 0 <= i < |a| ==> a[i].rank < p.rank) && forall i :: 0 <= i < |c| ==> c[i].rank > p.rank
    ensures Lookup(a + [p] + c, x) == if x == p.rank then Some(p.val) else Lookup(a + c, x)
  {
    if x == p.rank {
      LookupMid(a, [p], c, x);
      assert Before([p], x) == 0;
    } else if x < p.rank {
      LookupPrefix(a, c, x);
      assert a + [p] + c == a + ([p] + c);
      LookupPrefix(a, [p] + c, x);
    } else {
      LookupSuffix(a, c, x);
      LookupSuffix(a + [p], c, x);
    }
  }

  lemma SplitAt(s: seq<Pair>, rank: int, n: nat)
    requires Sorted(s) && n == Before(s, rank) && !(n < |s| && s[n].rank == rank)
    ensures s[..n] + s[n..] == s
    ensures (forall i :: 0 <= i < n ==> s[..n][i].rank < rank) && forall i :: 0 <= i < |s| - n ==> s[n..][i].rank > rank
  {
    BeforeIs(s, rank);
  }

  lemma UpsertLookup(s: seq<Pair>, rank: int, v: Val, x: int)
    requires Sorted(s)
    ensures Lookup(Upsert(s, rank, v), x) == if x == rank then Some(v) else Lookup(s, x)
  {
    var n := Before(s, rank);
    if n < |s| && s[n].rank == rank {
      UpsertHit(s, n, rank, v);
      ReplacedLookup(s, n, v, x);
    } else {
      UpsertSorted(s, rank, v);
      UpsertMiss(s, n, rank, v);
      SplitAt(s, rank, n);
      InsertedLookup(s[..n], Pair(rank, v), s[n..], x);
    }
  }

  // ---------------------------------------------------------------- page counts

  function Leaves(t: Tree): nat {
    match t
    case Leaf(_) => 1
    case Branch(_, kids) => AllLeaves(kids)
  }

  function AllLeaves(kids: seq<Tree>): nat {
    if kids == [] then 0 else Leaves(kids[0]) + AllLeaves(kids[1..])
  }

  function Branches(t: Tree): nat {
    match t
    case Leaf(_) => 0
    case Branch(_, kids) => 1 + AllBranches(kids)
  }

  function AllBranches(kids: seq<Tree>): nat {
    if kids == [] then 0 else Branches(kids[0]) + AllBranches(kids[1..])
  }

  lemma {:induction false} CountConcat(a: seq<Tree>, b: seq<Tree>)
    ensures AllLeaves(a + b) == AllLeaves(a) + AllLeaves(b)
    ensures AllBranches(a + b) == AllBranches(a) + AllBranches(b)
  {
    if a == [] {
      assert a + b == b;
    } else {
      CountConcat(a[1..], b);
      assert (a + b)[1..] == a[1..] + b && (a + b)[0] == a[0];
    }
  }

  lemma CountOne(t: Tree)
    ensures AllLeaves([t]) == Leaves(t) && AllBranches([t]) == Branches(t)
  {
    assert [t][1..] == [];
  }

  // ---------------------------------------------------------------- inserting

  /** The outcome of an insertion below a page: the page, or the page and its new right sibling with
      the separator between them; and by how much the numbers of leaf and branch pages changed. */
  datatype Ins =
    | Full
    | One(t: Tree, leaves: int, branches: int)
    | Two(l: Tree, sep: Key, r: Tree, leaves: int, branches: int)

  /** The node for a key and its data: large data goes to overflow pages. */
  function NewEntry(k: Key, v: Val, psize: nat): Entry {
    Entry(k, v, NODESIZE + k.size + |v| > Split.NodeMax(psize))
  }

  /** Splits a leaf that holds the new entry at n. */
  function SplitLeaf(all: seq<Entry>, n: nat, psize: nat): Ins
    requires n < |all| && psize >= 4096
  {
    if |all| < 3 then Full else
    var s := Split.SplitIndex(EntrySizes(all), n, Room(psize));
    if 0 < s < |all| && Sums.Sum(EntrySizes(all[..s])) <= Room(psize) && Sums.Sum(EntrySizes(all[s..])) <= Room(psize)
    then Two(Leaf(all[..s]), all[s].key, Leaf(all[s..]), 1, 0)
    else Full
  }

  /** mdb_cursor_put on the leaf.  Data of the same size, or data on an overflow run that can be
      reused (`keep`), is replaced in place; otherwise the old node goes and a new one comes. */
  function PutLeaf(es: seq<Entry>, k: Key, v: Val, keep: bool, psize: nat): Ins
    requires psize >= 4096
  {
    var n := Before(LeafPairs(es), k.rank);
    var hit := n < |es| && es[n].key.rank == k.rank;
    if hit && (if es[n].big then keep else |v| == |es[n].val|) then
      One(Leaf(es[n := es[n].(val := v)]), 0, 0)
    else
      var base := if hit then RemoveAt(es, n) else es;
      var all := InsertAt(base, n, NewEntry(k, v, psize));
      PlaceLeaf(all, n, psize)
  }

  /** The leaf with its new entry at n, split if the entries no longer fit one page. */
  function PlaceLeaf(all: seq<Entry>, n: nat, psize: nat): Ins
    requires n < |all| && psize >= 4096
  {
    if Sums.Sum(EntrySizes(all)) <= Room(psize) then One(Leaf(all), 0, 0) else SplitLeaf(all, n, psize)
  }

  const EMPTY: Key := Key(0, 0)

  /** Puts child r with its separator right after child i, whose place l takes. */
  function PutBranch(seps: seq<Key>, kids: seq<Tree>, i: nat, two: Ins, psize: nat): Ins
    requires |seps| == |kids| && i < |kids| && two.Two? && psize >= 4096
  {
    PlaceBranch(InsertAt(seps, i + 1, two.sep), InsertAt(kids[i := two.l], i + 1, two.r), i + 1,
                two.leaves, two.branches, psize)
  }

  /** The branch with its new child at n, split if the separators no longer fit one page. */
  function PlaceBranch(ss: seq<Key>, ks: seq<Tree>, n: nat, leaves: int, branches: int, psize: nat): Ins
    requires |ss| == |ks| && n < |ss| && psize >= 4096
  {
    if Sums.Sum(SepSizes(ss)) <= Room(psize) then One(Branch(ss, ks), leaves, branches)
    else SplitBranch(ss, ks, n, leaves, branches, psize)
  }

  /** Splits a branch; the first separator of the right page moves up. */
  function SplitBranch(ss: seq<Key>, ks: seq<Tree>, n: nat, leaves: int, branches: int, psize: nat): Ins
    requires |ss| == |ks| && n < |ss| && psize >= 4096
  {
    if |ss| < 3 then Full else
    var s := Split.SplitIndex(SepSizes(ss), n, Room(psize));
    if !(0 < s < |ss|) then Full else
    var rs := [EMPTY] + ss[s + 1..];
    if Sums.Sum(SepSizes(ss[..s])) <= Room(psize) && Sums.Sum(SepSizes(rs)) <= Room(psize)
    then Two(Branch(ss[..s], ks[..s]), ss[s], Branch(rs, ks[s..]), leaves, branches + 1)
    else Full
  }

  /** What happens on a branch page once its child i has been dealt with. */
  function Absorb(seps: seq<Key>, kids: seq<Tree>, i: nat, ins: Ins, psize: nat): Ins
    requires |seps| == |kids| && i < |kids| && psize >= 4096
  {
    match ins
    case Full => Full
    case One(c, leaves, branches) => One(Branch(seps, kids[i := c]), leaves, branches)
    case Two(_, _, _, _, _) => PutBranch(seps, kids, i, ins, psize)
  }

  function Insert(t: Tree, k: Key, v: Val, keep: bool, psize: nat): Ins
    requires Shape(t) && psize >= 4096
    decreases t
  {
    match t
    case Leaf(es) => PutLeaf(es, k, v, keep, psize)
    case Branch(seps, kids) =>
      var i := ChildIndex(seps, k.rank);
      Absorb(seps, kids, i, Insert(kids[i], k, v, keep, psize), psize)
  }

  // ---------------------------------------------------------------- what an insertion must achieve

  function InsPairs(ins: Ins): seq<Pair>
    requires !ins.Full?
  {
    if ins.One? then Pairs(ins.t) else Pairs(ins.l) + Pairs(ins.r)
  }

  ghost predicate InsOk(ins: Ins, lo: int, hi: int, d: nat, psize: nat) {
    match ins
    case Full => true
    case One(t, _, _) => WF(t, lo, hi, d, psize) && Enough(t)
    case Two(l, sep, r, _, _) =>
      && lo < sep.rank < hi && 1 <= sep.size <= MAXKEY
      && WF(l, lo, sep.rank, d, psize) && Enough(l) && WF(r, sep.rank, hi, d, psize) && Enough(r)
  }

  /** The pages allocated and given up are accounted for. */
  ghost predicate InsCounts(ins: Ins, t: Tree) {
    match ins
    case Full => true
    case One(t', leaves, branches) =>
      Leaves(t') == Leaves(t) + leaves && Branches(t') == Branches(t) + branches
    case Two(l, _, r, leaves, branches) =>
      && Leaves(l) + Leaves(r) == Leaves(t) + leaves
      && Branches(l) + Branches(r) == Branches(t) + branches
  }

  // ---------------------------------------------------------------- leaves

  lemma NewEntryOk(k: Key, v: Val, psize: nat)
    requires psize >= 4096 && 1 <= k.size <= MAXKEY
    ensures EntryOk(NewEntry(k, v, psize), psize)
    ensures EntrySize(NewEntry(k, v, psize)) == Split.LeafSize(psize, k.size, |v|)
  {
    Split.AtMostHalf(psize, k.size, |v|);
  }

  lemma SizesConcat(a: seq<Entry>, b: seq<Entry>)
    ensures EntrySizes(a + b) == EntrySizes(a) + EntrySizes(b)
    ensures Sums.Sum(EntrySizes(a + b)) == Sums.Sum(EntrySizes(a)) + Sums.Sum(EntrySizes(b))
  {
    assert EntrySizes(a + b) == EntrySizes(a) + EntrySizes(b);
    Sums.SumConcat(EntrySizes(a), EntrySizes(b));
  }

  lemma SizesInsert(base: seq<Entry>, n: nat, e: Entry)
    requires n <= |base|
    ensures Sums.Sum(EntrySizes(InsertAt(base, n, e))) == Sums.Sum(EntrySizes(base)) + EntrySize(e)
  {
    var a, b := base[..n], base[n..];
    assert base == a + b;
    SizesConcat(a, b);
    SizesConcat(a + [e], b);
    SizesConcat(a, [e]);
    assert EntrySizes([e]) == [EntrySize(e)];
    Sums.SumOne(EntrySize(e));
  }

  lemma LeafReplace(es: seq<Entry>, n: nat, v: Val, lo: int, hi: int, psize: nat)
    requires LeafOk(es, lo, hi, psize) && n < |es| && (es[n].big || |v| == |es[n].val|)
    ensures LeafOk(es[n := es[n].(val := v)], lo, hi, psize)
  {
    var es' := es[n := es[n].(val := v)];
    assert EntrySize(es'[n]) == EntrySize(es[n]);
    assert EntrySizes(es') == EntrySizes(es);
  }

  lemma EntriesRemove(es: seq<Entry>, n: nat, lo: int, hi: int, psize: nat)
    requires EntriesOk(es, lo, hi, psize) && n < |es|
    ensures EntriesOk(RemoveAt(es, n), lo, hi, psize)
    ensures forall i :: 0 <= i < n ==> RemoveAt(es, n)[i].key.rank < es[n].key.rank
    ensures forall i :: n <= i < |es| - 1 ==> RemoveAt(es, n)[i].key.rank > es[n].key.rank
  {
    var base := RemoveAt(es, n);
    forall i | 0 <= i < |base| ensures base[i] == es[if i < n then i else i + 1] {}
  }

  lemma SizesRemove(es: seq<Entry>, n: nat)
    requires n < |es|
    ensures Sums.Sum(EntrySizes(es)) == Sums.Sum(EntrySizes(RemoveAt(es, n))) + EntrySize(es[n])
  {
    assert es == InsertAt(RemoveAt(es, n), n, es[n]);
    SizesInsert(RemoveAt(es, n), n, es[n]);
  }

  lemma EntriesInsert(base: seq<Entry>, n: nat, e: Entry, lo: int, hi: int, psize: nat)
    requires EntriesOk(base, lo, hi, psize) && n <= |base| && lo <= e.key.rank < hi && EntryOk(e, psize)
    requires forall i :: 0 <= i < n ==> base[i].key.rank < e.key.rank
    requires forall i :: n <= i < |base| ==> base[i].key.rank > e.key.rank
    ensures EntriesOk(InsertAt(base, n, e), lo, hi, psize)
  {
    var all := InsertAt(base, n, e);
    forall i | 0 <= i < |all| ensures all[i] == if i < n then base[i] else if i == n then e else base[i - 1] {}
  }

  lemma EntriesHalves(all: seq<Entry>, s: nat, lo: int, hi: int, psize: nat)
    requires EntriesOk(all, lo, hi, psize) && 0 < s < |all|
    ensures lo < all[s].key.rank < hi && 1 <= all[s].key.size <= MAXKEY
    ensures EntriesOk(all[..s], lo, all[s].key.rank, psize) && EntriesOk(all[s..], all[s].key.rank, hi, psize)
  {
    assert all[0].key.rank < all[s].key.rank;
  }

  lemma SplitLeafOk(all: seq<Entry>, n: nat, lo: int, hi: int, psize: nat)
    requires psize >= 4096 && n < |all| && EntriesOk(all, lo, hi, psize)
    ensures InsOk(SplitLeaf(all, n, psize), lo, hi, 1, psize)
    ensures InsCounts(SplitLeaf(all, n, psize), Leaf(all))
    ensures SplitLeaf(all, n, psize).Two? ==> InsPairs(SplitLeaf(all, n, psize)) == LeafPairs(all)
  {
    var ins := SplitLeaf(all, n, psize);
    if ins.Two? {
      var s := Split.SplitIndex(EntrySizes(all), n, Room(psize));
      EntriesHalves(all, s, lo, hi, psize);
      assert LeafPairs(all[..s]) + LeafPairs(all[s..]) == LeafPairs(all);
    }
  }

  lemma InsertHalf(base: seq<Entry>, n: nat, e: Entry, lo: int, hi: int, psize: nat)
    requires EntriesOk(base, lo, hi, psize) && n <= |base| && EntryOk(e, psize)
    ensures forall i :: 0 <= i <= |base| ==> 2 * EntrySizes(InsertAt(base, n, e))[i] <= Room(psize)
  {
    var all := InsertAt(base, n, e);
    forall i | 0 <= i < |all| ensures 2 * EntrySizes(all)[i] <= Room(psize) {
      assert all[i] == if i < n then base[i] else if i == n then e else base[i - 1];
    }
  }

  lemma InsertOverflows(base: seq<Entry>, n: nat, e: Entry, lo: int, hi: int, psize: nat)
    requires psize >= 4096 && LeafOk(base, lo, hi, psize) && n <= |base| && EntryOk(e, psize)
    requires Sums.Sum(EntrySizes(InsertAt(base, n, e))) > Room(psize)
    ensures Split.Overflowing(EntrySizes(InsertAt(base, n, e)), n, Room(psize))
  {
    SizesInsert(base, n, e);
    InsertHalf(base, n, e, lo, hi, psize);
  }

  lemma SizesHalves(all: seq<Entry>, s: nat)
    requires s <= |all|
    ensures EntrySizes(all[..s]) == EntrySizes(all)[..s] && EntrySizes(all[s..]) == EntrySizes(all)[s..]
  {
  }

  ghost predicate LeafPutOk(ins: Ins, after: seq<Pair>, lo: int, hi: int, psize: nat) {
    InsOk(ins, lo, hi, 1, psize) && InsCounts(ins, Leaf([])) && (!ins.Full? ==> InsPairs(ins) == after)
  }

  lemma PlaceAll(all: seq<Entry>, n: nat, lo: int, hi: int, psize: nat)
    requires psize >= 4096 && n < |all| && EntriesOk(all, lo, hi, psize)
    ensures LeafPutOk(PlaceLeaf(all, n, psize), LeafPairs(all), lo, hi, psize)
  {
    SplitLeafOk(all, n, lo, hi, psize);
  }

  lemma PlaceLeafOk(base: seq<Entry>, n: nat, e: Entry, lo: int, hi: int, psize: nat)
    requires psize >= 4096 && EntriesOk(base, lo, hi, psize) && n <= |base|
    requires lo <= e.key.rank < hi && EntryOk(e, psize)
    requires forall i :: 0 <= i < n ==> base[i].key.rank < e.key.rank
    requires forall i :: n <= i < |base| ==> base[i].key.rank > e.key.rank
    ensures LeafPutOk(PlaceLeaf(InsertAt(base, n, e), n, psize), LeafPairs(InsertAt(base, n, e)), lo, hi, psize)
  {
    EntriesInsert(base, n, e, lo, hi, psize);
    PlaceAll(InsertAt(base, n, e), n, lo, hi, psize);
  }

  /** The position of a key on a leaf. */
  lemma LeafPosition(es: seq<Entry>, rank: int)
    requires Ascending(es)
    ensures var n := Before(LeafPairs(es), rank);
      && (forall i :: 0 <= i < n ==> es[i].key.rank < rank)
      && (forall i :: n <= i < |es| ==> es[i].key.rank >= rank)
  {
    BeforeIs(LeafPairs(es), rank);
    assert forall i :: 0 <= i < |es| ==> LeafPairs(es)[i].rank == es[i].key.rank;
  }

  lemma PutMiss(es: seq<Entry>, k: Key, v: Val, lo: int, hi: int, psize: nat, n: nat)
    requires psize >= 4096 && EntriesOk(es, lo, hi, psize) && lo <= k.rank < hi && 1 <= k.size <= MAXKEY
    requires n == Before(LeafPairs(es), k.rank) && !(n < |es| && es[n].key.rank == k.rank)
    ensures LeafPutOk(PlaceLeaf(InsertAt(es, n, NewEntry(k, v, psize)), n, psize),
                      Upsert(LeafPairs(es), k.rank, v), lo, hi, psize)
  {
    LeafPosition(es, k.rank);
    NewEntryOk(k, v, psize);
    PlaceLeafOk(es, n, NewEntry(k, v, psize), lo, hi, psize);
    MissPairs(es, k, v, psize, n);
  }

  lemma MissPairs(es: seq<Entry>, k: Key, v: Val, psize: nat, n: nat)
    requires n == Before(LeafPairs(es), k.rank) && n <= |es| && !(n < |es| && es[n].key.rank == k.rank)
    ensures LeafPairs(InsertAt(es, n, NewEntry(k, v, psize))) == Upsert(LeafPairs(es), k.rank, v)
  {
    var e := NewEntry(k, v, psize);
    var x, y := LeafPairs(InsertAt(es, n, e)), InsertAt(LeafPairs(es), n, Pair(k.rank, v));
    forall i | 0 <= i < |x| ensures x[i] == y[i] {}
  }

  lemma AnewPairs(es: seq<Entry>, k: Key, v: Val, psize: nat, n: nat)
    requires n == Before(LeafPairs(es), k.rank) && n < |es| && es[n].key.rank == k.rank
    ensures LeafPairs(InsertAt(RemoveAt(es, n), n, NewEntry(k, v, psize))) == Upsert(LeafPairs(es), k.rank, v)
  {
    var e := NewEntry(k, v, psize);
    assert InsertAt(RemoveAt(es, n), n, e) == es[n := e];
    assert LeafPairs(es[n := e]) == LeafPairs(es)[n := Pair(k.rank, v)];
  }

  lemma PutAnew(es: seq<Entry>, k: Key, v: Val, lo: int, hi: int, psize: nat, n: nat)
    requires psize >= 4096 && EntriesOk(es, lo, hi, psize) && lo <= k.rank < hi && 1 <= k.size <= MAXKEY
    requires n == Before(LeafPairs(es), k.rank) && n < |es| && es[n].key.rank == k.rank
    ensures LeafPutOk(PlaceLeaf(InsertAt(RemoveAt(es, n), n, NewEntry(k, v, psize)), n, psize),
                      Upsert(LeafPairs(es), k.rank, v), lo, hi, psize)
  {
    var base, e := RemoveAt(es, n), NewEntry(k, v, psize);
    NewEntryOk(k, v, psize);
    EntriesRemove(es, n, lo, hi, psize);
    PlaceLeafOk(base, n, e, lo, hi, psize);
    AnewPairs(es, k, v, psize, n);
  }

  lemma PutInPlace(es: seq<Entry>, rank: int, v: Val, lo: int, hi: int, psize: nat, n: nat)
    requires LeafOk(es, lo, hi, psize) && n == Before(LeafPairs(es), rank)
    requires n < |es| && es[n].key.rank == rank && (es[n].big || |v| == |es[n].val|)
    ensures LeafPutOk(One(Leaf(es[n := es[n].(val := v)]), 0, 0), Upsert(LeafPairs(es), rank, v), lo, hi, psize)
  {
    LeafReplace(es, n, v, lo, hi, psize);
    assert LeafPairs(es[n := es[n].(val := v)]) == Upsert(LeafPairs(es), rank, v);
  }

  lemma PutLeafOk(es: seq<Entry>, k: Key, v: Val, keep: bool, lo: int, hi: int, psize: nat)
    requires psize >= 4096 && LeafOk(es, lo, hi, psize) && lo <= k.rank < hi && 1 <= k.size <= MAXKEY
    ensures LeafPutOk(PutLeaf(es, k, v, keep, psize), Upsert(LeafPairs(es), k.rank, v), lo, hi, psize)
  {
    var n := Before(LeafPairs(es), k.rank);
    if !(n < |es| && es[n].key.rank == k.rank) {
      PutMiss(es, k, v, lo, hi, psize, n);
    } else if if es[n].big then keep else |v| == |es[n].val| {
      PutInPlace(es, k.rank, v, lo, hi, psize, n);
    } else {
      PutAnew(es, k, v, lo, hi, psize, n);
    }
  }

  // ---------------------------------------------------------------- branches

  lemma SepSizesConcat(a: seq<Key>, b: seq<Key>)
    ensures SepSizes(a + b) == SepSizes(a) + SepSizes(b)
    ensures Sums.Sum(SepSizes(a + b)) == Sums.Sum(SepSizes(a)) + Sums.Sum(SepSizes(b))
  {
    assert SepSizes(a + b) == SepSizes(a) + SepSizes(b);
    Sums.SumConcat(SepSizes(a), SepSizes(b));
  }

  lemma CountAt(kids: seq<Tree>, i: nat)
    requires i < |kids|
    ensures AllLeaves(kids) == AllLeaves(kids[..i]) + Leaves(kids[i]) + AllLeaves(kids[i + 1..])
    ensures AllBranches(kids) == AllBranches(kids[..i]) + Branches(kids[i]) + AllBranches(kids[i + 1..])
  {
    assert kids == kids[..i] + kids[i..];
    CountConcat(kids[..i], kids[i..]);
    assert kids[i..][0] == kids[i] && kids[i..][1..] == kids[i + 1..];
  }

  /** Replacing a child by another one with the same bounds. */
  lemma ReplaceChild(t: Tree, i: nat, c: Tree, lo: int, hi: int, d: nat, psize: nat)
    requires t.Branch? && WF(t, lo, hi, d, psize) && i < |t.kids|
    requires WF(c, Lo(t.seps, i, lo), Hi(t.seps, i, hi), d - 1, psize) && Enough(c)
    ensures WF(Branch(t.seps, t.kids[i := c]), lo, hi, d, psize)
  {
  }

  lemma ReplacePairs(kids: seq<Tree>, i: nat, c: Tree)
    requires i < |kids|
    ensures AllPairs(kids[i := c]) == AllPairs(kids[..i]) + Pairs(c) + AllPairs(kids[i + 1..])
    ensures AllLeaves(kids[i := c]) + Leaves(kids[i]) == AllLeaves(kids) + Leaves(c)
    ensures AllBranches(kids[i := c]) + Branches(kids[i]) == AllBranches(kids) + Branches(c)
  {
    var ks := kids[i := c];
    assert ks[..i] == kids[..i] && ks[i + 1..] == kids[i + 1..];
    AllPairsAt(ks, i);
    CountAt(ks, i);
    CountAt(kids, i);
  }

  lemma GrowPairs(kids: seq<Tree>, i: nat, l: Tree, r: Tree)
    requires i < |kids|
    ensures AllPairs(InsertAt(kids[i := l], i + 1, r))
         == AllPairs(kids[..i]) + (Pairs(l) + Pairs(r)) + AllPairs(kids[i + 1..])
  {
    var ks, a, c := InsertAt(kids[i := l], i + 1, r), kids[..i], kids[i + 1..];
    assert ks[..i] == a && ks[i + 1..] == [r] + c && ks[i] == l;
    AllPairsAt(ks, i);
    assert ([r] + c)[0] == r && ([r] + c)[1..] == c;
    Regroup(AllPairs(a), Pairs(l), Pairs(r), AllPairs(c));
  }

  lemma Regroup(a: seq<Pair>, l: seq<Pair>, r: seq<Pair>, c: seq<Pair>)
    ensures a + l + (r + c) == a + (l + r) + c
  {
  }

  lemma GrowCounts(kids: seq<Tree>, i: nat, l: Tree, r: Tree)
    requires i < |kids|
    ensures var ks := InsertAt(kids[i := l], i + 1, r);
      && AllLeaves(ks) + Leaves(kids[i]) == AllLeaves(kids) + Leaves(l) + Leaves(r)
      && AllBranches(ks) + Branches(kids[i]) == AllBranches(kids) + Branches(l) + Branches(r)
  {
    var ks, a, c := InsertAt(kids[i := l], i + 1, r), kids[..i], kids[i + 1..];
    assert ks[..i] == a && ks[i + 1..] == [r] + c && ks[i] == l;
    CountAt(ks, i);
    CountAt(kids, i);
    assert ([r] + c)[0] == r && ([r] + c)[1..] == c;
  }

  /** A child that became two: the separators and children still fit together. */
  lemma InsertedAt(s: seq<Key>, n: nat, x: Key)
    requires n <= |s|
    ensures |InsertAt(s, n, x)| == |s| + 1 && InsertAt(s, n, x)[n] == x
    ensures forall j :: 0 <= j < n ==> InsertAt(s, n, x)[j] == s[j]
    ensures forall j :: n < j <= |s| ==> InsertAt(s, n, x)[j] == s[j - 1]
  {
  }

  lemma GrowSeps(seps: seq<Key>, i: nat, sep: Key, lo: int, hi: int)
    requires SepsOk(seps, lo, hi) && i < |seps| && 1 <= sep.size <= MAXKEY
    requires Lo(seps, i, lo) < sep.rank < Hi(seps, i, hi)
    ensures SepsOk(InsertAt(seps, i + 1, sep), lo, hi)
  {
    var ss := InsertAt(seps, i + 1, sep);
    InsertedAt(seps, i + 1, sep);
    forall j | 1 <= j < |ss| ensures 1 <= ss[j].size <= MAXKEY && lo < ss[j].rank < hi {
      if j > i + 1 { assert ss[j] == seps[j - 1]; }
    }
    forall j, k | 1 <= j < k < |ss| ensures ss[j].rank < ss[k].rank {
      GrowOrder(seps, i, sep, lo, hi, j, k);
    }
  }

  lemma GrowOrder(seps: seq<Key>, i: nat, sep: Key, lo: int, hi: int, j: nat, k: nat)
    requires SepsOk(seps, lo, hi) && i < |seps| && Lo(seps, i, lo) < sep.rank < Hi(seps, i, hi)
    requires 1 <= j < k <= |seps|
    ensures InsertAt(seps, i + 1, sep)[j].rank < InsertAt(seps, i + 1, sep)[k].rank
  {
    InsertedAt(seps, i + 1, sep);
    if j <= i {
      assert j < i ==> seps[j].rank < seps[i].rank;
      if k > i + 1 { assert seps[j].rank < seps[k - 1].rank; }
    } else {
      assert j == i + 1 && k > i + 2 ==> seps[i + 1].rank < seps[k - 1].rank;
      assert j > i + 1 ==> seps[j - 1].rank < seps[k - 1].rank;
    }
  }

  lemma GrowBounds(seps: seq<Key>, i: nat, sep: Key, lo: int, hi: int, j: nat)
    requires i < |seps| && j <= |seps|
    ensures var ss := InsertAt(seps, i + 1, sep);
      && Lo(ss, j, lo) == (if j <= i then Lo(seps, j, lo) else if j == i + 1 then sep.rank else Lo(seps, j - 1, lo))
      && Hi(ss, j, hi) == (if j < i then Hi(seps, j, hi) else if j == i then sep.rank else Hi(seps, j - 1, hi))
  {
  }

  /** The children of a branch page are fine, except perhaps child i. */
  ghost predicate HoleOk(seps: seq<Key>, kids: seq<Tree>, i: nat, lo: int, hi: int, d: nat, psize: nat) {
    && d > 1 && |kids| == |seps| && SepsOk(seps, lo, hi) && i < |kids|
    && forall j :: 0 <= j < |kids| && j != i ==>
         Enough(kids[j]) && WF(kids[j], Lo(seps, j, lo), Hi(seps, j, hi), d - 1, psize)
  }

  lemma GrowKids(seps: seq<Key>, kids: seq<Tree>, i: nat, two: Ins, lo: int, hi: int, d: nat, psize: nat)
    requires HoleOk(seps, kids, i, lo, hi, d, psize) && two.Two?
    requires InsOk(two, Lo(seps, i, lo), Hi(seps, i, hi), d - 1, psize)
    ensures KidsOk(InsertAt(seps, i + 1, two.sep), InsertAt(kids[i := two.l], i + 1, two.r), lo, hi, d, psize)
  {
    var ss, ks := InsertAt(seps, i + 1, two.sep), InsertAt(kids[i := two.l], i + 1, two.r);
    GrowSeps(seps, i, two.sep, lo, hi);
    forall j | 0 <= j < |ks|
      ensures Enough(ks[j]) && WF(ks[j], Lo(ss, j, lo), Hi(ss, j, hi), d - 1, psize)
    {
      GrowBounds(seps, i, two.sep, lo, hi, j);
      if j < i { assert ks[j] == kids[j]; }
      else if j > i + 1 { assert ks[j] == kids[j - 1]; }
    }
  }

  /** A branch page cut at s: the left part, and the right part, whose first separator becomes empty. */
  lemma CutKidsLeft(ss: seq<Key>, ks: seq<Tree>, s: nat, lo: int, hi: int, d: nat, psize: nat)
    requires KidsOk(ss, ks, lo, hi, d, psize) && 0 < s < |ss|
    ensures KidsOk(ss[..s], ks[..s], lo, ss[s].rank, d, psize)
  {
    var ls := ss[..s];
    assert forall j :: 0 <= j < s ==> ls[j] == ss[j];
    forall j | 0 <= j < s
      ensures Enough(ks[..s][j]) && WF(ks[..s][j], Lo(ls, j, lo), Hi(ls, j, ss[s].rank), d - 1, psize)
    {
      assert ks[..s][j] == ks[j] && Lo(ls, j, lo) == Lo(ss, j, lo) && Hi(ls, j, ss[s].rank) == Hi(ss, j, hi);
    }
  }

  lemma CutKidsRight(ss: seq<Key>, ks: seq<Tree>, s: nat, lo: int, hi: int, d: nat, psize: nat)
    requires KidsOk(ss, ks, lo, hi, d, psize) && 0 < s < |ss|
    ensures KidsOk([EMPTY] + ss[s + 1..], ks[s..], ss[s].rank, hi, d, psize)
  {
    var rs := [EMPTY] + ss[s + 1..];
    assert forall j :: 1 <= j < |rs| ==> rs[j] == ss[s + j];
    forall j | 0 <= j < |rs|
      ensures Enough(ks[s..][j]) && WF(ks[s..][j], Lo(rs, j, ss[s].rank), Hi(rs, j, hi), d - 1, psize)
    {
      assert ks[s..][j] == ks[s + j];
      assert Lo(rs, j, ss[s].rank) == Lo(ss, s + j, lo) && Hi(rs, j, hi) == Hi(ss, s + j, hi);
    }
  }

  lemma SepSizesSlice(ss: seq<Key>, i: nat, j: nat)
    requires i <= j <= |ss|
    ensures SepSizes(ss[i..j]) == SepSizes(ss)[i..j]
  {
    var x, y := SepSizes(ss[i..j]), SepSizes(ss)[i..j];
    forall k | 0 <= k < j - i ensures x[k] == y[k] { assert ss[i..j][k] == ss[i + k]; }
  }

  lemma SepSizesCons(k: Key, ks: seq<Key>)
    ensures Sums.Sum(SepSizes([k] + ks)) == SepSize(k) + Sums.Sum(SepSizes(ks))
  {
    SepSizesConcat([k], ks);
    assert SepSizes([k]) == [SepSize(k)];
    Sums.SumOne(SepSize(k));
  }

  lemma SepSizesTake(ss: seq<Key>, s: nat)
    requires s <= |ss|
    ensures SepSizes(ss[..s]) == SepSizes(ss)[..s]
  {
    SepSizesSlice(ss, 0, s);
    assert ss[0..s] == ss[..s] && SepSizes(ss)[0..s] == SepSizes(ss)[..s];
  }

  lemma SepSizesDrop(ss: seq<Key>, s: nat)
    requires s <= |ss|
    ensures SepSizes(ss[s..]) == SepSizes(ss)[s..]
  {
    SepSizesSlice(ss, s, |ss|);
    assert ss[s..|ss|] == ss[s..] && SepSizes(ss)[s..|ss|] == SepSizes(ss)[s..];
  }

  lemma SepSizesHalves(ss: seq<Key>, s: nat)
    requires s < |ss|
    ensures SepSizes(ss[..s]) == SepSizes(ss)[..s]
    ensures Sums.Sum(SepSizes([EMPTY] + ss[s + 1..])) <= Sums.Sum(SepSizes(ss)[s..])
  {
    SepSizesTake(ss, s);
    FirstEmptied(ss, s);
  }

  lemma FirstEmptied(ss: seq<Key>, s: nat)
    requires s < |ss|
    ensures Sums.Sum(SepSizes([EMPTY] + ss[s + 1..])) <= Sums.Sum(SepSizes(ss)[s..])
  {
    SepSizesDrop(ss, s + 1);
    SepSizesCons(EMPTY, ss[s + 1..]);
    Sums.SumSuffix(SepSizes(ss), s);
  }

  lemma SepsSmall(ss: seq<Key>, lo: int, hi: int)
    requires SepsOk(ss, lo, hi)
    ensures forall i :: 0 <= i < |ss| ==> SepSizes(ss)[i] <= 522
  {
  }

  lemma CutOk(ss: seq<Key>, ks: seq<Tree>, s: nat, leaves: int, branches: int, lo: int, hi: int, d: nat, psize: nat)
    requires KidsOk(ss, ks, lo, hi, d, psize) && 2 <= s <= |ss| - 2
    requires Sums.Sum(SepSizes(ss[..s])) <= Room(psize)
    requires Sums.Sum(SepSizes([EMPTY] + ss[s + 1..])) <= Room(psize)
    ensures InsOk(Two(Branch(ss[..s], ks[..s]), ss[s], Branch([EMPTY] + ss[s + 1..], ks[s..]), leaves, branches),
                  lo, hi, d, psize)
  {
    CutKidsLeft(ss, ks, s, lo, hi, d, psize);
    CutKidsRight(ss, ks, s, lo, hi, d, psize);
  }

  lemma SplitBranchOk(ss: seq<Key>, ks: seq<Tree>, n: nat, leaves: int, branches: int,
                      lo: int, hi: int, d: nat, psize: nat)
    requires psize >= 4096 && KidsOk(ss, ks, lo, hi, d, psize) && n < |ss|
    requires Sums.Sum(SepSizes(ss)) > Room(psize)
    ensures InsOk(SplitBranch(ss, ks, n, leaves, branches, psize), lo, hi, d, psize)
  {
    SepsSmall(ss, lo, hi);
    Split.BranchHalves(SepSizes(ss), n, Room(psize));
    if SplitBranch(ss, ks, n, leaves, branches, psize).Two? {
      CutOk(ss, ks, Split.SplitIndex(SepSizes(ss), n, Room(psize)), leaves, branches + 1, lo, hi, d, psize);
    }
  }

  lemma SplitBranchKeeps(ss: seq<Key>, ks: seq<Tree>, n: nat, leaves: int, branches: int, psize: nat)
    requires psize >= 4096 && |ss| == |ks| && n < |ss|
    ensures var ins := SplitBranch(ss, ks, n, leaves, branches, psize);
      ins.Two? ==>
        && InsPairs(ins) == AllPairs(ks)
        && Leaves(ins.l) + Leaves(ins.r) == AllLeaves(ks)
        && Branches(ins.l) + Branches(ins.r) == AllBranches(ks) + 2
        && ins.leaves == leaves && ins.branches == branches + 1
  {
    var ins := SplitBranch(ss, ks, n, leaves, branches, psize);
    if ins.Two? {
      var s := |ins.l.kids|;
      assert ks == ks[..s] + ks[s..];
      AllPairsConcat(ks[..s], ks[s..]);
      CountConcat(ks[..s], ks[s..]);
    }
  }

  lemma SepInsertSum(seps: seq<Key>, n: nat, sep: Key)
    requires n <= |seps|
    ensures Sums.Sum(SepSizes(InsertAt(seps, n, sep))) == Sums.Sum(SepSizes(seps)) + SepSize(sep)
  {
    var a, b := seps[..n], seps[n..];
    assert seps == a + b;
    SepSizesConcat(a, b);
    SepSizesConcat(a + [sep], b);
    SepSizesConcat(a, [sep]);
    assert SepSizes([sep]) == [SepSize(sep)];
    Sums.SumOne(SepSize(sep));
  }

  lemma SepInsertOverflows(seps: seq<Key>, n: nat, sep: Key, lo: int, hi: int, psize: nat)
    requires psize >= 4096 && n <= |seps| && SepsOk(InsertAt(seps, n, sep), lo, hi)
    requires Sums.Sum(SepSizes(seps)) <= Room(psize) < Sums.Sum(SepSizes(InsertAt(seps, n, sep)))
    ensures Split.Overflowing(SepSizes(InsertAt(seps, n, sep)), n, Room(psize))
  {
    SepInsertSum(seps, n, sep);
    SepsSmall(InsertAt(seps, n, sep), lo, hi);
  }

  lemma PlaceBranchOk(ss: seq<Key>, ks: seq<Tree>, n: nat, leaves: int, branches: int,
                      lo: int, hi: int, d: nat, psize: nat)
    requires psize >= 4096 && KidsOk(ss, ks, lo, hi, d, psize) && n < |ss| && |ss| >= 2
    ensures InsOk(PlaceBranch(ss, ks, n, leaves, branches, psize), lo, hi, d, psize)
  {
    if Sums.Sum(SepSizes(ss)) > Room(psize) {
      SplitBranchOk(ss, ks, n, leaves, branches, lo, hi, d, psize);
    }
  }

  lemma PutGrown(seps: seq<Key>, kids: seq<Tree>, i: nat, two: Ins, lo: int, hi: int, d: nat, psize: nat)
    requires psize >= 4096 && |seps| == |kids| && i < |kids| && two.Two?
    requires KidsOk(InsertAt(seps, i + 1, two.sep), InsertAt(kids[i := two.l], i + 1, two.r), lo, hi, d, psize)
    ensures InsOk(PutBranch(seps, kids, i, two, psize), lo, hi, d, psize)
  {
    PlaceBranchOk(InsertAt(seps, i + 1, two.sep), InsertAt(kids[i := two.l], i + 1, two.r), i + 1,
                  two.leaves, two.branches, lo, hi, d, psize);
  }

  lemma PutBranchOk(seps: seq<Key>, kids: seq<Tree>, i: nat, two: Ins, lo: int, hi: int, d: nat, psize: nat)
    requires psize >= 4096 && HoleOk(seps, kids, i, lo, hi, d, psize) && two.Two?
    requires InsOk(two, Lo(seps, i, lo), Hi(seps, i, hi), d - 1, psize)
    ensures InsOk(PutBranch(seps, kids, i, two, psize), lo, hi, d, psize)
  {
    GrowKids(seps, kids, i, two, lo, hi, d, psize);
    PutGrown(seps, kids, i, two, lo, hi, d, psize);
  }

  /** Placing keeps the contents and accounts for the page a split adds. */
  lemma PlaceBranchKeeps(ss: seq<Key>, ks: seq<Tree>, n: nat, leaves: int, branches: int, psize: nat)
    requires psize >= 4096 && |ss| == |ks| && n < |ss|
    ensures var ins := PlaceBranch(ss, ks, n, leaves, branches, psize);
      && (!ins.Full? ==> InsPairs(ins) == AllPairs(ks))
      && (ins.One? ==> Leaves(ins.t) == AllLeaves(ks) && Branches(ins.t) == AllBranches(ks) + 1
                       && ins.leaves == leaves && ins.branches == branches)
      && (ins.Two? ==> Leaves(ins.l) + Leaves(ins.r) == AllLeaves(ks)
                       && Branches(ins.l) + Branches(ins.r) == AllBranches(ks) + 2
                       && ins.leaves == leaves && ins.branches == branches + 1)
  {
    SplitBranchKeeps(ss, ks, n, leaves, branches, psize);
  }

  lemma PutBranchKeeps(seps: seq<Key>, kids: seq<Tree>, i: nat, two: Ins, psize: nat)
    requires psize >= 4096 && |seps| == |kids| && i < |kids| && two.Two? && InsCounts(two, kids[i])
    ensures var ins := PutBranch(seps, kids, i, two, psize);
      && (!ins.Full? ==> InsPairs(ins) == AllPairs(kids[..i]) + InsPairs(two) + AllPairs(kids[i + 1..]))
      && InsCounts(ins, Branch(seps, kids))
  {
    GrowPairs(kids, i, two.l, two.r);
    GrowCounts(kids, i, two.l, two.r);
    PlaceBranchKeeps(InsertAt(seps, i + 1, two.sep), InsertAt(kids[i := two.l], i + 1, two.r), i + 1,
                     two.leaves, two.branches, psize);
  }

  // ---------------------------------------------------------------- the whole insertion

  lemma AbsorbOk(t: Tree, i: nat, ins: Ins, lo: int, hi: int, d: nat, psize: nat)
    requires psize >= 4096 && t.Branch? && WF(t, lo, hi, d, psize) && i < |t.kids| && Enough(t)
    requires InsOk(ins, Lo(t.seps, i, lo), Hi(t.seps, i, hi), d - 1, psize)
    ensures InsOk(Absorb(t.seps, t.kids, i, ins, psize), lo, hi, d, psize)
  {
    if ins.One? {
      ReplaceChild(t, i, ins.t, lo, hi, d, psize);
    } else if ins.Two? {
      PutBranchOk(t.seps, t.kids, i, ins, lo, hi, d, psize);
    }
  }

  lemma AbsorbKeeps(seps: seq<Key>, kids: seq<Tree>, i: nat, ins: Ins, psize: nat)
    requires psize >= 4096 && |seps| == |kids| && i < |kids| && InsCounts(ins, kids[i])
    ensures var out := Absorb(seps, kids, i, ins, psize);
      && InsCounts(out, Branch(seps, kids))
      && (!out.Full? ==>
            !ins.Full? && InsPairs(out) == AllPairs(kids[..i]) + InsPairs(ins) + AllPairs(kids[i + 1..]))
  {
    if ins.One? {
      ReplacePairs(kids, i, ins.t);
    } else if ins.Two? {
      PutBranchKeeps(seps, kids, i, ins, psize);
    }
  }

  /** An insertion that succeeds keeps the tree well-formed. */
  lemma {:induction false} InsertOk(t: Tree, k: Key, v: Val, keep: bool, lo: int, hi: int, d: nat, psize: nat)
    requires psize >= 4096 && WF(t, lo, hi, d, psize) && lo <= k.rank < hi && 1 <= k.size <= MAXKEY && Enough(t)
    ensures Shape(t) && InsOk(Insert(t, k, v, keep, psize), lo, hi, d, psize)
    decreases d
  {
    WFShape(t, lo, hi, d, psize);
    match t
    case Leaf(es) => PutLeafOk(es, k, v, keep, lo, hi, psize);
    case Branch(seps, kids) =>
      var i := ChildIndex(seps, k.rank);
      ChildCovers(seps, k.rank);
      InsertOk(kids[i], k, v, keep, Lo(seps, i, lo), Hi(seps, i, hi), d - 1, psize);
      AbsorbOk(t, i, Insert(kids[i], k, v, keep, psize), lo, hi, d, psize);
  }

  lemma UpsertChild(t: Tree, i: nat, rank: int, v: Val, lo: int, hi: int, d: nat, psize: nat)
    requires t.Branch? && WF(t, lo, hi, d, psize) && i < |t.kids| && Lo(t.seps, i, lo) <= rank < Hi(t.seps, i, hi)
    ensures Upsert(Pairs(t), rank, v)
         == AllPairs(t.kids[..i]) + Upsert(Pairs(t.kids[i]), rank, v) + AllPairs(t.kids[i + 1..])
  {
    AroundChild(t, lo, hi, d, psize, i);
    PairsSorted(t, lo, hi, d, psize);
    UpsertMid(AllPairs(t.kids[..i]), Pairs(t.kids[i]), AllPairs(t.kids[i + 1..]), rank, v);
  }

  /** The pages allocated are accounted for, and the contents are as given unless the operation failed. */
  ghost predicate Became(ins: Ins, t: Tree, after: seq<Pair>) {
    InsCounts(ins, t) && (!ins.Full? ==> InsPairs(ins) == after)
  }

  lemma InsertUp(t: Tree, i: nat, ins: Ins, rank: int, v: Val, lo: int, hi: int, d: nat, psize: nat)
    requires psize >= 4096 && t.Branch? && WF(t, lo, hi, d, psize) && i < |t.kids|
    requires Lo(t.seps, i, lo) <= rank < Hi(t.seps, i, hi) && Became(ins, t.kids[i], Upsert(Pairs(t.kids[i]), rank, v))
    ensures Became(Absorb(t.seps, t.kids, i, ins, psize), t, Upsert(Pairs(t), rank, v))
  {
    AbsorbKeeps(t.seps, t.kids, i, ins, psize);
    UpsertChild(t, i, rank, v, lo, hi, d, psize);
  }

  /** It changes the contents by exactly the new pair, and the pages allocated are accounted for. */
  lemma {:induction false} InsertKeeps(t: Tree, k: Key, v: Val, keep: bool, lo: int, hi: int, d: nat, psize: nat)
    requires psize >= 4096 && WF(t, lo, hi, d, psize) && lo <= k.rank < hi && 1 <= k.size <= MAXKEY
    ensures Shape(t) && Became(Insert(t, k, v, keep, psize), t, Upsert(Pairs(t), k.rank, v))
    decreases d
  {
    WFShape(t, lo, hi, d, psize);
    match t
    case Leaf(es) => PutLeafOk(es, k, v, keep, lo, hi, psize);
    case Branch(seps, kids) =>
      var i := ChildIndex(seps, k.rank);
      ChildCovers(seps, k.rank);
      InsertKeeps(kids[i], k, v, keep, Lo(seps, i, lo), Hi(seps, i, hi), d - 1, psize);
      InsertUp(t, i, Insert(kids[i], k, v, keep, psize), k.rank, v, lo, hi, d, psize);
  }
}
