/**
The room on a page: the nodes that lie on it as bytes take just the sizes that the tree adds up, so the
page refuses a node exactly if the tree says that it does not fit.
*/
module PageRoom {
  import opened Common
  import opened BTree
  import opened BTreePut
  import opened Extents
  import opened PageFormat
  import SlottedPage
  import Sums

  // ---------------------------------------------------------------- what a tiling adds up to

  function Lengths(xs: seq<Ext>): (s: seq<nat>)
    ensures |s| == |xs| && forall i :: 0 <= i < |s| ==> s[i] == xs[i].len
  {
    seq(|xs|, i requires 0 <= i < |xs| => xs[i].len)
  }

  /** Without the lowest stretch the others tile what is above it. */
  lemma LowestGone(xs: seq<Ext>, upper: nat, end: nat, n: nat)
    requires Tiling(xs, upper, end) && n < |xs| && xs[n].at == upper
    ensures Tiling(Extents.Remove(xs, n), upper + xs[n].len, end)
  {
    var ys, low := Extents.Remove(xs, n), upper + xs[n].len;
    assert Proper(xs[n], upper, end);
    forall i | 0 <= i < |ys| ensures Proper(ys[i], low, end) {
      var k := if i < n then i else i + 1;
      assert Proper(xs[k], upper, end);
      BelowOrAbove(xs, n, k);
    }
    forall i, j | 0 <= i < j < |ys| ensures Apart(ys[i], ys[j]) {
      assert Apart(xs[if i < n then i else i + 1], xs[if j < n then j else j + 1]);
    }
    forall o | low <= o < end ensures Covered(ys, o) {
      assert Covered(xs, o);
      var k: nat :| Covers(xs, k, o);
      assert Covers(ys, if k < n then k else k - 1, o);
    }
  }

  lemma LengthsRemove(xs: seq<Ext>, n: nat)
    requires n < |xs|
    ensures Sums.Sum(Lengths(xs)) == Sums.Sum(Lengths(Extents.Remove(xs, n))) + xs[n].len
  {
    var s := Lengths(xs);
    Sums.SumSplit(s, n);
    Sums.SumSuffix(s, n);
    Sums.SumConcat(s[..n], s[n + 1..]);
    assert Lengths(Extents.Remove(xs, n)) == s[..n] + s[n + 1..];
  }

  /** The stretches of a tiling are together as long as what they tile. */
  lemma {:induction false} TilingSum(xs: seq<Ext>, upper: nat, end: nat)
    requires Tiling(xs, upper, end)
    ensures Sums.Sum(Lengths(xs)) == end - upper
    decreases |xs|
  {
    if xs == [] {
      assert !Covered(xs, upper);
    } else {
      assert Proper(xs[0], upper, end);
      assert Covered(xs, upper);
      var n: nat :| Covers(xs, n, upper);
      assert Proper(xs[n], upper, end);
      LowestGone(xs, upper, end, n);
      TilingSum(Extents.Remove(xs, n), upper + xs[n].len, end);
      LengthsRemove(xs, n);
    }
  }

  // ---------------------------------------------------------------- the page

  /** The nodes with their slots. */
  function NodeSizes(ns: seq<SlottedPage.Node>): (s: seq<nat>)
    ensures |s| == |ns| && forall i :: 0 <= i < |s| ==> s[i] == SlottedPage.Size(ns[i]) + SLOT
  {
    seq(|ns|, i requires 0 <= i < |ns| => SlottedPage.Size(ns[i]) + SLOT)
  }

  lemma {:induction false} SlotsToo(s: seq<nat>, t: seq<nat>)
    requires |s| == |t| && forall i :: 0 <= i < |s| ==> t[i] == s[i] + SLOT
    ensures Sums.Sum(t) == Sums.Sum(s) + SLOT * |s|
  {
    if s != [] { SlotsToo(s[..|s| - 1], t[..|t| - 1]); }
  }

  /** The free bytes of a page are what its nodes and their slots leave. */
  lemma FreeBytes(p: SlottedPage.Page)
    requires p.Valid()
    ensures p.upper - p.lower == Room(p.bytes.Length) - Sums.Sum(NodeSizes(p.nodes))
  {
    var xs := SlottedPage.Exts(p.ptrs, p.nodes);
    TilingSum(xs, p.upper, p.bytes.Length);
    SlotsToo(Lengths(xs), NodeSizes(p.nodes));
  }

  // ---------------------------------------------------------------- the page and the tree

  /** The bytes of a leaf entry; data on overflow pages leaves a page number here. */
  ghost predicate IsEntry(n: SlottedPage.Node, e: Entry) {
    |n.key| == e.key.size && |n.data| == if e.big then PGNO else |e.val|
  }

  ghost predicate IsLeaf(ns: seq<SlottedPage.Node>, es: seq<Entry>) {
    |ns| == |es| && forall i :: 0 <= i < |ns| ==> IsEntry(ns[i], es[i])
  }

  /** The bytes of a separator; the child's number is in the header. */
  ghost predicate IsBranch(ns: seq<SlottedPage.Node>, ks: seq<Key>) {
    |ns| == |ks| && forall i :: 0 <= i < |ns| ==> |ns[i].key| == ks[i].size && ns[i].data == []
  }

  lemma EntryIs(n: SlottedPage.Node, e: Entry)
    requires IsEntry(n, e)
    ensures SlottedPage.Size(n) + SLOT == EntrySize(e)
  {
  }

  lemma LeafIs(ns: seq<SlottedPage.Node>, es: seq<Entry>)
    requires IsLeaf(ns, es)
    ensures NodeSizes(ns) == EntrySizes(es)
  {
    forall i | 0 <= i < |ns| ensures NodeSizes(ns)[i] == EntrySizes(es)[i] { EntryIs(ns[i], es[i]); }
  }

  /** A leaf page takes an entry exactly if the tree's sum of sizes stays within the page. */
  lemma LeafTakes(p: SlottedPage.Page, es: seq<Entry>, n: SlottedPage.Node, e: Entry, indx: nat)
    requires p.Valid() && IsLeaf(p.nodes, es) && IsEntry(n, e) && indx <= |es|
    ensures SlottedPage.Size(n) + SLOT <= p.upper - p.lower
       <==> Sums.Sum(EntrySizes(InsertAt(es, indx, e))) <= Room(p.bytes.Length)
  {
    FreeBytes(p);
    LeafIs(p.nodes, es);
    EntryIs(n, e);
    SizesInsert(es, indx, e);
  }

  /** A branch page takes a separator exactly if the tree's sum of sizes stays within the page. */
  lemma BranchTakes(p: SlottedPage.Page, ks: seq<Key>, n: SlottedPage.Node, k: Key, indx: nat)
    requires p.Valid() && IsBranch(p.nodes, ks) && |n.key| == k.size && n.data == [] && indx <= |ks|
    ensures SlottedPage.Size(n) + SLOT <= p.upper - p.lower
       <==> Sums.Sum(SepSizes(InsertAt(ks, indx, k))) <= Room(p.bytes.Length)
  {
    FreeBytes(p);
    assert NodeSizes(p.nodes) == SepSizes(ks);
    SepInsertSum(ks, indx, k);
  }

  /** mdb_node_add on a leaf page, in the terms of the tree. */
  method AddEntry(p: SlottedPage.Page, ghost es: seq<Entry>, indx: nat, n: SlottedPage.Node, ghost e: Entry)
    returns (ok: bool, ghost out: seq<Entry>)
    requires p.Valid() && p.leaf && SlottedPage.NodeOk(n, p.leaf) && indx <= |es|
    requires IsLeaf(p.nodes, es) && IsEntry(n, e)
    modifies p, p.bytes
    ensures p.Valid() && IsLeaf(p.nodes, out)
    ensures ok <==> Sums.Sum(EntrySizes(InsertAt(es, indx, e))) <= Room(p.bytes.Length)
    ensures out == if ok then InsertAt(es, indx, e) else es
  {
    LeafTakes(p, es, n, e, indx);
    ghost var ns := p.nodes;
    ok := p.NodeAdd(indx, n);
    out := if ok then InsertAt(es, indx, e) else es;
    LeafGrown(ns, es, indx, n, e);
  }

  lemma LeafGrown(ns: seq<SlottedPage.Node>, es: seq<Entry>, indx: nat, n: SlottedPage.Node, e: Entry)
    requires IsLeaf(ns, es) && IsEntry(n, e) && indx <= |es|
    ensures IsLeaf(InsertAt(ns, indx, n), InsertAt(es, indx, e))
  {
  }

  /** mdb_node_add on a branch page, in the terms of the tree. */
  method AddSep(p: SlottedPage.Page, ghost ks: seq<Key>, indx: nat, n: SlottedPage.Node, ghost k: Key)
    returns (ok: bool, ghost out: seq<Key>)
    requires p.Valid() && !p.leaf && SlottedPage.NodeOk(n, p.leaf) && indx <= |ks|
    requires IsBranch(p.nodes, ks) && |n.key| == k.size && n.data == []
    modifies p, p.bytes
    ensures p.Valid() && IsBranch(p.nodes, out)
    ensures ok <==> Sums.Sum(SepSizes(InsertAt(ks, indx, k))) <= Room(p.bytes.Length)
    ensures out == if ok then InsertAt(ks, indx, k) else ks
  {
    BranchTakes(p, ks, n, k, indx);
    ghost var ns := p.nodes;
    ok := p.NodeAdd(indx, n);
    out := if ok then InsertAt(ks, indx, k) else ks;
    BranchGrown(ns, ks, indx, n, k);
  }

  lemma BranchGrown(ns: seq<SlottedPage.Node>, ks: seq<Key>, indx: nat, n: SlottedPage.Node, k: Key)
    requires IsBranch(ns, ks) && |n.key| == k.size && n.data == [] && indx <= |ks|
    ensures IsBranch(InsertAt(ns, indx, n), InsertAt(ks, indx, k))
  {
  }
}
