/**
A page as bytes: offsets of nodes grow up from the header, the nodes themselves grow down from the end.
Adding, deleting and re-keying a node (mdb_node_add, mdb_node_del, mdb_update_key) move bytes about;
as a sequence of nodes the page changes at one place only.
*/
module SlottedPage {
  import opened Common
  import Extents
  import opened PageFormat

  // ---------------------------------------------------------------- nodes as bytes

  /** A node: the bytes of its header but for the key size, its key and the data behind it. */
  datatype Node = Node(meta: Bytes, key: Bytes, data: Bytes)

  /** The data size in the header of a leaf node. */
  function DataSize(meta: Bytes): int
    requires |meta| == 6
  {
    meta[0] + 0x100 * meta[1] + 0x1_0000 * meta[2] + 0x100_0000 * meta[3]
  }

  /** Bytes behind the key: none on a branch page, a page number for big data (F_BIGDATA), or the data. */
  function Tail(meta: Bytes, leaf: bool): int
    requires |meta| == 6
  {
    if !leaf then 0 else if meta[4] % 2 == 1 then 8 else DataSize(meta)
  }

  ghost predicate NodeOk(n: Node, leaf: bool) {
    && |n.meta| == 6 && Octets(n.meta) && Octets(n.key) && Octets(n.data) && |n.key| < 0x1_0000
    && |n.data| == Tail(n.meta, leaf)
  }

  function Size(n: Node): nat { Even(NODESIZE + |n.key| + |n.data|) }

  function KeySize(b: Bytes, p: nat): int
    requires p + NODESIZE <= |b|
  {
    b[p + 6] + 0x100 * b[p + 7]
  }

  /** The node at p lies within the page. */
  predicate Fits(b: Bytes, p: nat, leaf: bool) {
    && p + NODESIZE <= |b| && KeySize(b, p) >= 0 && Tail(b[p..p + 6], leaf) >= 0
    && p + Even(NODESIZE + KeySize(b, p) + Tail(b[p..p + 6], leaf)) <= |b|
  }

  function NodeAt(b: Bytes, p: nat, leaf: bool): Node
    requires Fits(b, p, leaf)
  {
    var k := p + NODESIZE + KeySize(b, p);
    Node(b[p..p + 6], b[p + NODESIZE..k], b[k..k + Tail(b[p..p + 6], leaf)])
  }

  function Encode(n: Node): Bytes {
    n.meta + [|n.key| % 0x100, |n.key| / 0x100] + n.key + n.data
  }

  /** The bytes with s written at `at`. */
  function Splice(b: Bytes, at: nat, s: Bytes): (c: Bytes)
    requires at + |s| <= |b|
    ensures |c| == |b|
    ensures forall i {:trigger c[i]} :: at <= i < at + |s| ==> c[i] == s[i - at]
    ensures forall i {:trigger c[i]} :: 0 <= i < at || at + |s| <= i < |b| ==> c[i] == b[i]
  {
    b[..at] + s + b[at + |s|..]
  }

  /** The m bytes of c from q on are those of b from p on. */
  ghost predicate Same(c: Bytes, q: nat, b: Bytes, p: nat, m: nat) {
    q + m <= |c| && p + m <= |b| && forall i {:trigger c[i]} :: q <= i < q + m ==> c[i] == b[i - q + p]
  }

  ghost predicate HasBytes(c: Bytes, q: nat, w: Bytes) { Same(c, q, w, 0, |w|) }

  lemma EncodeAt(n: Node, leaf: bool)
    requires NodeOk(n, leaf)
    ensures var e, k := Encode(n), NODESIZE + |n.key|;
      && |e| == k + |n.data| && e[..6] == n.meta && e[6] + 0x100 * e[7] == |n.key|
      && e[NODESIZE..k] == n.key && e[k..] == n.data && Octets(e)
  {
  }

  /** The header that an encoding gives. */
  lemma ReadHeader(b: Bytes, p: nat, n: Node, leaf: bool)
    requires NodeOk(n, leaf) && HasBytes(b, p, Encode(n))
    ensures p + NODESIZE <= |b| && b[p..p + 6] == n.meta && KeySize(b, p) == |n.key|
  {
    EncodeAt(n, leaf);
    var e := Encode(n);
    forall i | 0 <= i < 6 ensures b[p..p + 6][i] == n.meta[i] { assert b[p + i] == e[i] == e[..6][i]; }
    assert b[p + 6] == e[6] && b[p + 7] == e[7];
  }

  lemma ReadBody(b: Bytes, p: nat, n: Node, leaf: bool, k: nat)
    requires NodeOk(n, leaf) && HasBytes(b, p, Encode(n)) && k == NODESIZE + |n.key|
    ensures |Encode(n)| == k + |n.data| && p + k + |n.data| <= |b|
    ensures b[p + NODESIZE..p + k] == n.key && b[p + k..p + k + |n.data|] == n.data
  {
    EncodeAt(n, leaf);
    var e := Encode(n);
    var x, y := b[p + NODESIZE..p + k], b[p + k..p + k + |n.data|];
    forall i | 0 <= i < |n.key| ensures x[i] == n.key[i] {
      assert b[p + NODESIZE + i] == e[NODESIZE + i] == e[NODESIZE..k][i];
    }
    forall i | 0 <= i < |n.data| ensures y[i] == n.data[i] { assert b[p + k + i] == e[k + i] == e[k..][i]; }
  }

  // ---------------------------------------------------------------- the layout of a page

  /** Node n is stored at q, in as many bytes as it takes on an even boundary. */
  ghost predicate ReadsAs(c: Bytes, q: nat, leaf: bool, n: Node) {
    NodeOk(n, leaf) && q + Size(n) <= |c| && HasBytes(c, q, Encode(n))
  }

  /** Then reading the header and what follows it gives the node. */
  lemma ReadsBack(c: Bytes, q: nat, leaf: bool, n: Node)
    requires ReadsAs(c, q, leaf, n)
    ensures Fits(c, q, leaf) && NodeAt(c, q, leaf) == n
  {
    ReadHeader(c, q, n, leaf);
    ReadBody(c, q, n, leaf, NODESIZE + |n.key|);
  }

  /** A node depends on its own bytes only. */
  lemma StillReads(b: Bytes, p: nat, c: Bytes, q: nat, leaf: bool, n: Node)
    requires ReadsAs(b, p, leaf, n) && Same(c, q, b, p, Size(n))
    ensures ReadsAs(c, q, leaf, n)
  {
    EncodeAt(n, leaf);
  }

  ghost predicate AllRead(b: Bytes, ps: seq<nat>, leaf: bool, ns: seq<Node>) {
    |ns| == |ps| && forall i :: 0 <= i < |ps| ==> ReadsAs(b, ps[i], leaf, ns[i])
  }

  /** The stretches of bytes that nodes at the given offsets take. */
  function Exts(ps: seq<nat>, ns: seq<Node>): (xs: seq<Extents.Ext>)
    requires |ps| == |ns|
    ensures |xs| == |ps| && forall i :: 0 <= i < |ps| ==> xs[i] == Extents.Ext(ps[i], Size(ns[i]))
  {
    seq(|ps|, i requires 0 <= i < |ps| => Extents.Ext(ps[i], Size(ns[i])))
  }

  /** The page holds the nodes in this order, and they tile it from upper to its end. */
  ghost predicate Laid(b: Bytes, ps: seq<nat>, upper: nat, leaf: bool, ns: seq<Node>) {
    AllRead(b, ps, leaf, ns) && Extents.Tiling(Exts(ps, ns), upper, |b|)
  }

  lemma Where(b: Bytes, ps: seq<nat>, upper: nat, leaf: bool, ns: seq<Node>, i: nat)
    requires Laid(b, ps, upper, leaf, ns) && i < |ps|
    ensures upper <= ps[i] && ps[i] + Size(ns[i]) <= |b| && Size(ns[i]) > 0
  {
    assert Extents.Proper(Exts(ps, ns)[i], upper, |b|);
  }

  /** Other nodes are wholly below or wholly above a node. */
  lemma BelowOrAbove(b: Bytes, ps: seq<nat>, upper: nat, leaf: bool, ns: seq<Node>, n: nat, i: nat)
    requires Laid(b, ps, upper, leaf, ns) && n < |ps| && i < |ps| && i != n
    ensures if ps[i] < ps[n] then ps[i] + Size(ns[i]) <= ps[n] else ps[n] + Size(ns[n]) <= ps[i]
  {
    Where(b, ps, upper, leaf, ns, i);
    Where(b, ps, upper, leaf, ns, n);
    Extents.BelowOrAbove(Exts(ps, ns), n, i);
  }

  lemma Untouched(b: Bytes, at: nat, s: Bytes, p: nat, m: nat)
    requires at + |s| <= |b| && p + m <= |b| && (p + m <= at || at + |s| <= p)
    ensures Same(Splice(b, at, s), p, b, p, m)
  {
  }

  // ---------------------------------------------------------------- adding a node

  lemma AddReads(b: Bytes, at: nat, leaf: bool, n: Node)
    requires NodeOk(n, leaf) && at + Size(n) <= |b|
    ensures |Encode(n)| <= Size(n) && ReadsAs(Splice(b, at, Encode(n)), at, leaf, n)
  {
    EncodeAt(n, leaf);
  }

  lemma OthersRead(b: Bytes, ps: seq<nat>, upper: nat, leaf: bool, ns: seq<Node>, at: nat, s: Bytes)
    requires Laid(b, ps, upper, leaf, ns) && at + |s| <= upper <= |b|
    ensures AllRead(Splice(b, at, s), ps, leaf, ns)
  {
    forall i | 0 <= i < |ps| ensures ReadsAs(Splice(b, at, s), ps[i], leaf, ns[i]) {
      Where(b, ps, upper, leaf, ns, i);
      Untouched(b, at, s, ps[i], Size(ns[i]));
      StillReads(b, ps[i], Splice(b, at, s), ps[i], leaf, ns[i]);
    }
  }

  lemma InsertReads(c: Bytes, ps: seq<nat>, leaf: bool, ns: seq<Node>, indx: nat, p: nat, n: Node)
    requires AllRead(c, ps, leaf, ns) && indx <= |ps| && ReadsAs(c, p, leaf, n)
    ensures AllRead(c, InsertAt<nat>(ps, indx, p), leaf, InsertAt<Node>(ns, indx, n))
  {
    var qs, want := InsertAt<nat>(ps, indx, p), InsertAt<Node>(ns, indx, n);
    forall i | 0 <= i < |qs| ensures ReadsAs(c, qs[i], leaf, want[i]) {
      if i != indx { assert ReadsAs(c, ps[if i < indx then i else i - 1], leaf, ns[if i < indx then i else i - 1]); }
    }
  }

  lemma InsertExts(ps: seq<nat>, ns: seq<Node>, indx: nat, p: nat, n: Node)
    requires |ps| == |ns| && indx <= |ps|
    ensures Exts(InsertAt<nat>(ps, indx, p), InsertAt<Node>(ns, indx, n)) ==
            Extents.Insert(Exts(ps, ns), indx, Extents.Ext(p, Size(n)))
  {
  }

  lemma AddTiles(b: Bytes, ps: seq<nat>, upper: nat, leaf: bool, ns: seq<Node>, indx: nat, n: Node, at: nat)
    requires Laid(b, ps, upper, leaf, ns) && indx <= |ps| && at + Size(n) == upper
    ensures Extents.Tiling(Exts(InsertAt<nat>(ps, indx, at), InsertAt<Node>(ns, indx, n)), at, |b|)
  {
    InsertExts(ps, ns, indx, at, n);
    Extents.InsertTiles(Exts(ps, ns), upper, |b|, indx, Size(n));
  }

  lemma AddAllRead(b: Bytes, ps: seq<nat>, upper: nat, leaf: bool, ns: seq<Node>, indx: nat, n: Node, at: nat)
    requires Laid(b, ps, upper, leaf, ns) && indx <= |ps| && at + |Encode(n)| <= upper <= |b|
    requires ReadsAs(Splice(b, at, Encode(n)), at, leaf, n)
    ensures AllRead(Splice(b, at, Encode(n)), InsertAt<nat>(ps, indx, at), leaf, InsertAt<Node>(ns, indx, n))
  {
    OthersRead(b, ps, upper, leaf, ns, at, Encode(n));
    InsertReads(Splice(b, at, Encode(n)), ps, leaf, ns, indx, at, n);
  }

  /** A new node below all others. */
  lemma AddKeeps(b: Bytes, ps: seq<nat>, upper: nat, leaf: bool, ns: seq<Node>, indx: nat, n: Node, at: nat)
    requires Laid(b, ps, upper, leaf, ns) && NodeOk(n, leaf) && indx <= |ps| && at + Size(n) == upper
    ensures |Encode(n)| <= Size(n) && upper <= |b|
    ensures Laid(Splice(b, at, Encode(n)), InsertAt<nat>(ps, indx, at), at, leaf, InsertAt<Node>(ns, indx, n))
  {
    AddReads(b, at, leaf, n);
    AddAllRead(b, ps, upper, leaf, ns, indx, n, at);
    AddTiles(b, ps, upper, leaf, ns, indx, n, at);
  }

  // ---------------------------------------------------------------- deleting a node

  /** memmove. */
  function Move(b: Bytes, dst: nat, src: nat, len: nat): (c: Bytes)
    requires dst + len <= |b| && src + len <= |b|
    ensures |c| == |b|
    ensures forall i {:trigger c[i]} :: dst <= i < dst + len ==> c[i] == b[i - dst + src]
    ensures forall i {:trigger c[i]} :: 0 <= i < dst || dst + len <= i < |b| ==> c[i] == b[i]
  {
    Splice(b, dst, b[src..src + len])
  }

  /** Offsets below `at` change by `d`. */
  function ShiftPtrs(ps: seq<nat>, at: nat, d: int): (qs: seq<nat>)
    requires forall i :: 0 <= i < |ps| ==> ps[i] + d >= 0
    ensures |qs| == |ps| && forall i :: 0 <= i < |ps| ==> qs[i] == if ps[i] < at then ps[i] + d else ps[i]
  {
    seq(|ps|, i requires 0 <= i < |ps| => if ps[i] < at then ps[i] + d else ps[i])
  }

  /** What lies below a node moves up by its size, which ends at dst + len; the rest stays. */
  lemma DelRead(b: Bytes, upper: nat, len: nat, dst: nat, leaf: bool, ptr: nat, sz: nat, p: nat, n: Node, q: nat)
    requires upper + len == ptr && dst == upper + sz && ptr + sz <= |b|
    requires upper <= p && p + Size(n) <= |b| && ReadsAs(b, p, leaf, n)
    requires if p < ptr then p + Size(n) <= ptr && q == p + sz else ptr + sz <= p && q == p
    ensures ReadsAs(Move(b, dst, upper, len), q, leaf, n)
  {
    StillReads(b, p, Move(b, dst, upper, len), q, leaf, n);
  }

  function DelPtrs(ps: seq<nat>, n: nat, sz: nat): seq<nat>
    requires n < |ps|
  {
    RemoveAt<nat>(ShiftPtrs(ps, ps[n], sz), n)
  }

  /** Where two nodes of a page lie. */
  lemma TwoNodes(b: Bytes, ps: seq<nat>, upper: nat, leaf: bool, ns: seq<Node>, n: nat, ptr: nat, sz: nat, j: nat,
                 p: nat, m: nat)
    requires Laid(b, ps, upper, leaf, ns) && n < |ps| && j < |ps| && j != n
    requires ptr == ps[n] && sz == Size(ns[n]) && p == ps[j] && m == Size(ns[j])
    ensures upper <= ptr && ptr + sz <= |b| && upper <= p && p + m <= |b| && ReadsAs(b, p, leaf, ns[j])
    ensures if p < ptr then p + m <= ptr else ptr + sz <= p
  {
    Where(b, ps, upper, leaf, ns, n);
    Where(b, ps, upper, leaf, ns, j);
    BelowOrAbove(b, ps, upper, leaf, ns, n, j);
  }

  lemma DelAllRead(b: Bytes, ps: seq<nat>, upper: nat, leaf: bool, ns: seq<Node>, n: nat, ptr: nat, sz: nat,
                   len: nat, dst: nat)
    requires Laid(b, ps, upper, leaf, ns) && n < |ps| && ptr == ps[n] && sz == Size(ns[n])
    requires upper + len == ptr && dst == upper + sz && ptr + sz <= |b|
    ensures AllRead(Move(b, dst, upper, len), DelPtrs(ps, n, sz), leaf, RemoveAt<Node>(ns, n))
  {
    var c, qs, want := Move(b, dst, upper, len), DelPtrs(ps, n, sz), RemoveAt<Node>(ns, n);
    forall i | 0 <= i < |qs| ensures ReadsAs(c, qs[i], leaf, want[i]) {
      var j := if i < n then i else i + 1;
      TwoNodes(b, ps, upper, leaf, ns, n, ptr, sz, j, ps[j], Size(ns[j]));
      DelRead(b, upper, len, dst, leaf, ptr, sz, ps[j], ns[j], qs[i]);
    }
  }

  lemma DelExts(ps: seq<nat>, ns: seq<Node>, n: nat)
    requires |ps| == |ns| && n < |ps|
    ensures Exts(DelPtrs(ps, n, Size(ns[n])), RemoveAt<Node>(ns, n)) == Extents.Closed(Exts(ps, ns), n)
  {
  }

  lemma DelTiles(b: Bytes, ps: seq<nat>, upper: nat, leaf: bool, ns: seq<Node>, n: nat, sz: nat)
    requires Laid(b, ps, upper, leaf, ns) && n < |ps| && sz == Size(ns[n])
    ensures Extents.Tiling(Exts(DelPtrs(ps, n, sz), RemoveAt<Node>(ns, n)), upper + sz, |b|)
  {
    DelExts(ps, ns, n);
    Extents.ClosedTiles(Exts(ps, ns), upper, |b|, n);
  }

  /** The page without node n: the rest as it was, in the same order, and no gap. */
  lemma DelKeeps(b: Bytes, ps: seq<nat>, upper: nat, leaf: bool, ns: seq<Node>, n: nat, ptr: nat, sz: nat,
                 len: int, dst: nat)
    requires Laid(b, ps, upper, leaf, ns) && n < |ps| && ptr == ps[n] && sz == Size(ns[n])
    requires len == ptr - upper && dst == upper + sz
    ensures 0 <= len && ptr + sz <= |b|
    ensures Laid(Move(b, dst, upper, len), DelPtrs(ps, n, sz), dst, leaf, RemoveAt<Node>(ns, n))
  {
    Where(b, ps, upper, leaf, ns, n);
    DelAllRead(b, ps, upper, leaf, ns, n, ptr, sz, len, dst);
    DelTiles(b, ps, upper, leaf, ns, n, sz);
  }

  // ---------------------------------------------------------------- replacing a key

  /** The key size and the key as they follow the rest of the header. */
  function KeyBytes(key: Bytes): Bytes { [|key| % 0x100, |key| / 0x100] + key }

  /** The bytes from upper up to the end of a header move to dst, and the new key is written. */
  function Rekeyed(b: Bytes, upper: nat, len: nat, dst: nat, at: nat, keyBytes: Bytes): Bytes
    requires upper + len <= |b| && dst + len <= |b| && at + |keyBytes| <= |b|
  {
    Splice(Move(b, dst, upper, len), at, keyBytes)
  }

  /** The node at ptr, which ends at ptr + sz, is to begin at `to`: the bytes from upper to the end of its
      header move as one, and there is then room for just the key, whose size is written at `at`. */
  ghost predicate Stretch(b: Bytes, upper: nat, len: nat, ptr: nat, sz: nat, dst: nat, to: nat, at: nat, key: Bytes) {
    && upper <= ptr && upper + len == ptr + NODESIZE && dst + len == to + NODESIZE && at == to + 6
    && NODESIZE <= sz && ptr + sz <= |b| && to + Even(NODESIZE + |key|) == ptr + sz
  }

  lemma RekeyOne(b: Bytes, upper: nat, len: nat, ptr: nat, sz: nat, dst: nat, to: nat, at: nat, key: Bytes,
                 p: nat, n: Node, q: nat)
    requires Stretch(b, upper, len, ptr, sz, dst, to, at, key) && ReadsAs(b, p, false, n)
    requires upper <= p && p + Size(n) <= |b|
    requires if p < ptr then p + Size(n) <= ptr && q == dst + (p - upper) else ptr + sz <= p && q == p
    ensures ReadsAs(Rekeyed(b, upper, len, dst, at, KeyBytes(key)), q, false, n)
  {
    StillReads(b, p, Move(b, dst, upper, len), q, false, n);
    Untouched(Move(b, dst, upper, len), at, KeyBytes(key), q, Size(n));
    StillReads(Move(b, dst, upper, len), q, Rekeyed(b, upper, len, dst, at, KeyBytes(key)), q, false, n);
  }

  lemma BranchEncode(n: Node)
    requires NodeOk(n, false)
    ensures Encode(n) == n.meta + KeyBytes(n.key) && |Encode(n)| == NODESIZE + |n.key|
  {
  }

  lemma RekeySelf(b: Bytes, upper: nat, len: nat, ptr: nat, dst: nat, to: nat, at: nat, key: Bytes, n: Node)
    requires ReadsAs(b, ptr, false, n) && Stretch(b, upper, len, ptr, Size(n), dst, to, at, key)
    requires Octets(key) && |key| < 0x1_0000
    ensures ReadsAs(Rekeyed(b, upper, len, dst, at, KeyBytes(key)), to, false, n.(key := key))
  {
    BranchEncode(n);
    BranchEncode(n.(key := key));
    var c, m := Rekeyed(b, upper, len, dst, at, KeyBytes(key)), Move(b, dst, upper, len);
    forall i | to <= i < to + 6 ensures c[i] == n.meta[i - to] {
      assert c[i] == m[i] == b[i - to + ptr];
    }
  }

  /** Offsets at or below `ptr` go down by d. */
  function RekeyPtrs(ps: seq<nat>, ptr: nat, d: int): (qs: seq<nat>)
    requires forall i :: 0 <= i < |ps| ==> ps[i] >= d
    ensures |qs| == |ps| && forall i :: 0 <= i < |ps| ==> qs[i] == if ps[i] <= ptr then ps[i] - d else ps[i]
  {
    seq(|ps|, i requires 0 <= i < |ps| => if ps[i] <= ptr then ps[i] - d else ps[i])
  }

  lemma RekeyEach(b: Bytes, ps: seq<nat>, upper: nat, ns: seq<Node>, n: nat, len: nat, dst: nat, to: nat, at: nat,
                  key: Bytes, d: int, i: nat, q: nat)
    requires Laid(b, ps, upper, false, ns) && n < |ps| && i < |ps| && Octets(key) && |key| < 0x1_0000
    requires Stretch(b, upper, len, ps[n], Size(ns[n]), dst, to, at, key) && d == upper - dst
    requires q == if ps[i] <= ps[n] then ps[i] - d else ps[i]
    ensures ReadsAs(Rekeyed(b, upper, len, dst, at, KeyBytes(key)), q, false,
                    if i == n then ns[n].(key := key) else ns[i])
  {
    if i == n {
      RekeySelf(b, upper, len, ps[n], dst, to, at, key, ns[n]);
    } else {
      TwoNodes(b, ps, upper, false, ns, n, ps[n], Size(ns[n]), i, ps[i], Size(ns[i]));
      RekeyOne(b, upper, len, ps[n], Size(ns[n]), dst, to, at, key, ps[i], ns[i], q);
    }
  }

  lemma RekeyAllRead(b: Bytes, ps: seq<nat>, upper: nat, ns: seq<Node>, n: nat, len: nat, dst: nat, to: nat,
                     at: nat, key: Bytes, d: int)
    requires Laid(b, ps, upper, false, ns) && n < |ps| && Octets(key) && |key| < 0x1_0000
    requires Stretch(b, upper, len, ps[n], Size(ns[n]), dst, to, at, key) && d == upper - dst
    requires forall i :: 0 <= i < |ps| ==> ps[i] >= d
    ensures AllRead(Rekeyed(b, upper, len, dst, at, KeyBytes(key)), RekeyPtrs(ps, ps[n], d), false,
                    ns[n := ns[n].(key := key)])
  {
    var c, qs := Rekeyed(b, upper, len, dst, at, KeyBytes(key)), RekeyPtrs(ps, ps[n], d);
    var want := ns[n := ns[n].(key := key)];
    forall i | 0 <= i < |qs| ensures ReadsAs(c, qs[i], false, want[i]) {
      RekeyEach(b, ps, upper, ns, n, len, dst, to, at, key, d, i, qs[i]);
    }
  }

  lemma RekeyExts(ps: seq<nat>, ns: seq<Node>, n: nat, d: int, node: Node)
    requires |ps| == |ns| && n < |ps| && Size(node) == Size(ns[n]) + d && forall i :: 0 <= i < |ps| ==> ps[i] >= d
    requires Extents.Disjoint(Exts(ps, ns)) && forall i :: 0 <= i < |ns| ==> Size(ns[i]) > 0
    ensures Exts(RekeyPtrs(ps, ps[n], d), ns[n := node]) == Extents.Resized(Exts(ps, ns), n, d)
  {
    var xs, ys := Exts(RekeyPtrs(ps, ps[n], d), ns[n := node]), Extents.Resized(Exts(ps, ns), n, d);
    forall i | 0 <= i < |xs| ensures xs[i] == ys[i] {
      if i != n { Extents.BelowOrAbove(Exts(ps, ns), n, i); }
    }
  }

  lemma RekeyTiles(b: Bytes, ps: seq<nat>, upper: nat, ns: seq<Node>, n: nat, d: int, dst: nat, node: Node)
    requires Laid(b, ps, upper, false, ns) && n < |ps| && Size(node) == Size(ns[n]) + d && dst == upper - d
    ensures forall i :: 0 <= i < |ps| ==> ps[i] >= d
    ensures Extents.Tiling(Exts(RekeyPtrs(ps, ps[n], d), ns[n := node]), dst, |b|)
  {
    forall i | 0 <= i < |ps| ensures ps[i] >= d && Size(ns[i]) > 0 { Where(b, ps, upper, false, ns, i); }
    RekeyExts(ps, ns, n, d, node);
    Extents.ResizedTiles(Exts(ps, ns), upper, |b|, n, d);
  }

  /** Only the key of node n changes. */
  lemma RekeyKeeps(b: Bytes, ps: seq<nat>, upper: nat, ns: seq<Node>, n: nat, d: int, len: nat, dst: nat, to: nat,
                   at: nat, key: Bytes)
    requires Laid(b, ps, upper, false, ns) && n < |ps| && Octets(key) && |key| < 0x1_0000
    requires Size(ns[n]) + d == Even(NODESIZE + |key|) && dst == upper - d && to == ps[n] - d && at == to + 6
    requires len == ps[n] - upper + NODESIZE
    ensures Stretch(b, upper, len, ps[n], Size(ns[n]), dst, to, at, key) && forall i :: 0 <= i < |ps| ==> ps[i] >= d
    ensures Laid(Rekeyed(b, upper, len, dst, at, KeyBytes(key)), RekeyPtrs(ps, ps[n], d), dst, false,
                 ns[n := ns[n].(key := key)])
  {
    Where(b, ps, upper, false, ns, n);
    assert ReadsAs(b, ps[n], false, ns[n]);
    RekeyTiles(b, ps, upper, ns, n, d, dst, ns[n].(key := key));
    RekeyAllRead(b, ps, upper, ns, n, len, dst, to, at, key, d);
  }

  // ---------------------------------------------------------------- moving bytes and offsets

  /** memmove, also where the two stretches overlap. */
  method MemMove(a: array<int>, dst: nat, src: nat, len: nat)
    requires dst + len <= a.Length && src + len <= a.Length
    modifies a
    ensures a[..] == Move(old(a[..]), dst, src, len)
  {
    if dst <= src {
      var i := 0;
      while i < len
        invariant 0 <= i <= len
        invariant forall k :: dst <= k < dst + i ==> a[k] == old(a[k - dst + src])
        invariant forall k :: 0 <= k < a.Length && !(dst <= k < dst + i) ==> a[k] == old(a[k])
      {
        a[dst + i] := a[src + i];
        i := i + 1;
      }
    } else {
      var i := len;
      while i > 0
        invariant 0 <= i <= len
        invariant forall k :: dst + i <= k < dst + len ==> a[k] == old(a[k - dst + src])
        invariant forall k :: 0 <= k < a.Length && !(dst + i <= k < dst + len) ==> a[k] == old(a[k])
      {
        i := i - 1;
        a[dst + i] := a[src + i];
      }
    }
    assert a[..] == Move(old(a[..]), dst, src, len);
  }

  /** memcpy of the given bytes. */
  method Store(a: array<int>, at: nat, w: Bytes)
    requires at + |w| <= a.Length
    modifies a
    ensures a[..] == Splice(old(a[..]), at, w)
  {
    var i := 0;
    while i < |w|
      invariant 0 <= i <= |w|
      invariant forall k :: at <= k < at + i ==> a[k] == w[k - at]
      invariant forall k :: 0 <= k < a.Length && !(at <= k < at + i) ==> a[k] == old(a[k])
    {
      a[at + i] := w[i];
      i := i + 1;
    }
  }

  method RekeyBytes(a: array<int>, upper: nat, len: nat, dst: nat, at: nat, keyBytes: Bytes)
    requires upper + len <= a.Length && dst + len <= a.Length && at + |keyBytes| <= a.Length
    modifies a
    ensures a[..] == Rekeyed(old(a[..]), upper, len, dst, at, keyBytes)
  {
    MemMove(a, dst, upper, len);
    Store(a, at, keyBytes);
  }

  /** The offsets after node n of size sz has gone: the ones below it move up, and the list closes up. */
  method ClosePtrs(ps: seq<nat>, n: nat, sz: nat) returns (qs: seq<nat>)
    requires n < |ps|
    ensures qs == DelPtrs(ps, n, sz)
  {
    ghost var all := ShiftPtrs(ps, ps[n], sz);
    qs := ps;
    var i, j := 0, 0;
    while i < |ps|
      invariant 0 <= j <= i <= |ps| == |qs| && j == (if i <= n then i else i - 1)
      invariant forall k :: 0 <= k < j ==> qs[k] == all[if k < n then k else k + 1]
      invariant forall k :: i <= k < |ps| ==> qs[k] == ps[k]
    {
      if i != n {
        qs := qs[j := if ps[i] < ps[n] then ps[i] + sz else ps[i]];
        j := j + 1;
      }
      i := i + 1;
    }
    qs := qs[..j];
  }

  /** The offsets after the start of the node at ptr went down by d. */
  method MovePtrs(ps: seq<nat>, ptr: nat, d: int) returns (qs: seq<nat>)
    requires forall i :: 0 <= i < |ps| ==> ps[i] >= d
    ensures qs == RekeyPtrs(ps, ptr, d)
  {
    qs := ps;
    var i := 0;
    while i < |ps|
      invariant 0 <= i <= |ps| == |qs|
      invariant forall k :: 0 <= k < i ==> qs[k] == RekeyPtrs(ps, ptr, d)[k]
      invariant forall k :: i <= k < |ps| ==> qs[k] == ps[k]
    {
      if ps[i] <= ptr { qs := qs[i := ps[i] - d]; }
      i := i + 1;
    }
  }

  /** On a branch page the sizes of two nodes differ as the sizes of their keys do. */
  lemma KeySizes(b: Bytes, p: nat, n: Node, key: Bytes)
    requires ReadsAs(b, p, false, n)
    ensures Even(NODESIZE + |key|) - Size(n) == Even(|key|) - Even(|n.key|)
  {
  }

  /** The size of the node at an offset, read from its header. */
  method SizeOf(a: array<int>, p: nat, leaf: bool, ghost n: Node) returns (sz: nat)
    requires ReadsAs(a[..], p, leaf, n)
    ensures sz == Size(n)
  {
    ReadHeader(a[..], p, n, leaf);
    var meta := a[p..p + 6];
    assert meta == a[..][p..p + 6];
    sz := Even(NODESIZE + (a[p + 6] + 0x100 * a[p + 7]) + Tail(meta, leaf));
  }

  // ---------------------------------------------------------------- the page

  class Page {
    const leaf: bool
    const bytes: array<int>
    var ptrs: seq<nat>
    var lower: nat
    var upper: nat
    ghost var nodes: seq<Node>

    ghost predicate Valid()
      reads this, bytes
    {
      lower == PAGEHDRSZ + SLOT * |ptrs| && lower <= upper && Laid(bytes[..], ptrs, upper, leaf, nodes)
    }

    /** A new page is empty. */
    constructor (psize: nat, leaf: bool)
      requires PAGEHDRSZ <= psize && psize % 2 == 0
      ensures Valid() && nodes == [] && this.leaf == leaf && fresh(bytes) && bytes.Length == psize
    {
      this.leaf := leaf;
      bytes := new int[psize](i => 0);
      ptrs, nodes := [], [];
      lower, upper := PAGEHDRSZ, psize;
    }

    /** mdb_node_add: refused, and nothing changed, exactly when the node and its offset do not fit. */
    method NodeAdd(indx: nat, n: Node) returns (ok: bool)
      requires Valid() && NodeOk(n, leaf) && indx <= |nodes|
      modifies this, bytes
      ensures Valid()
      ensures ok <==> Size(n) + SLOT <= old(upper) - old(lower)
      ensures nodes == if ok then InsertAt<Node>(old(nodes), indx, n) else old(nodes)
      ensures !ok ==> bytes[..] == old(bytes[..]) && ptrs == old(ptrs)
    {
      if Size(n) > upper - lower - SLOT { return false; }
      var at: nat := upper - Size(n);
      AddKeeps(bytes[..], ptrs, upper, leaf, nodes, indx, n, at);
      ptrs := InsertAt<nat>(ptrs, indx, at);
      upper, lower := at, lower + SLOT;
      nodes := InsertAt<Node>(nodes, indx, n);
      Store(bytes, at, Encode(n));
      return true;
    }

    /** The size of a node, read from its header. */
    method NodeSize(i: nat) returns (sz: nat)
      requires Valid() && i < |nodes|
      ensures sz == Size(nodes[i])
    {
      assert ReadsAs(bytes[..], ptrs[i], leaf, nodes[i]);
      sz := SizeOf(bytes, ptrs[i], leaf, nodes[i]);
    }

    /** mdb_node_del. */
    method NodeDel(indx: nat)
      requires Valid() && indx < |nodes|
      modifies this, bytes
      ensures Valid() && nodes == RemoveAt<Node>(old(nodes), indx)
      ensures upper - lower == old(upper) - old(lower) + Size(old(nodes)[indx]) + SLOT
    {
      var sz := NodeSize(indx);
      var ptr := ptrs[indx];
      var len, dst := ptr - upper, upper + sz;
      ghost var ns := RemoveAt<Node>(nodes, indx);
      DelKeeps(bytes[..], ptrs, upper, leaf, nodes, indx, ptr, sz, len, dst);
      CutOut(indx, sz, len, dst, ns);
    }

    method CutOut(indx: nat, sz: nat, len: nat, dst: nat, ghost ns: seq<Node>)
      requires indx < |ptrs| && upper + len <= bytes.Length && dst + len <= bytes.Length
      requires lower == PAGEHDRSZ + SLOT * |ptrs| && lower <= upper <= dst
      requires Laid(Move(bytes[..], dst, upper, len), DelPtrs(ptrs, indx, sz), dst, leaf, ns)
      modifies this, bytes
      ensures Valid() && nodes == ns && lower == old(lower) - SLOT && upper == dst
    {
      ptrs := ClosePtrs(ptrs, indx, sz);
      MemMove(bytes, dst, upper, len);
      lower, upper, nodes := lower - SLOT, dst, ns;
    }

    /** mdb_update_key on a branch page: refused, for a split, exactly when the longer key does not fit. */
    method UpdateKey(indx: nat, key: Bytes) returns (ok: bool)
      requires Valid() && !leaf && indx < |nodes| && Octets(key) && |key| < 0x1_0000
      modifies this, bytes
      ensures Valid()
      ensures ok <==> Even(|key|) - Even(|old(nodes)[indx].key|) <= old(upper) - old(lower)
      ensures nodes == if ok then old(nodes)[indx := old(nodes)[indx].(key := key)] else old(nodes)
      ensures !ok ==> bytes[..] == old(bytes[..]) && ptrs == old(ptrs)
    {
      var sz := NodeSize(indx);
      var ptr := ptrs[indx];
      KeySizes(bytes[..], ptr, nodes[indx], key);
      var d := Even(NODESIZE + |key|) - sz;
      if d > upper - lower { return false; }
      Replace(indx, ptr, d, key);
      return true;
    }

    /** The node gets its new key, and the page makes or gives up the room for it. */
    method Replace(indx: nat, ptr: nat, d: int, key: Bytes)
      requires Valid() && !leaf && indx < |nodes| && Octets(key) && |key| < 0x1_0000
      requires ptr == ptrs[indx] && d == Even(NODESIZE + |key|) - Size(nodes[indx]) && d <= upper - lower
      modifies this, bytes
      ensures Valid() && nodes == old(nodes)[indx := old(nodes)[indx].(key := key)]
    {
      Where(bytes[..], ptrs, upper, leaf, nodes, indx);
      var len: nat, dst: nat, to: nat := ptr - upper + NODESIZE, upper - d, ptr - d;
      var at: nat, keyBytes := to + 6, KeyBytes(key);
      ghost var ns := nodes[indx := nodes[indx].(key := key)];
      RekeyKeeps(bytes[..], ptrs, upper, nodes, indx, d, len, dst, to, at, key);
      Rewrite(ptr, d, len, dst, at, keyBytes, ns);
    }

    method Rewrite(ptr: nat, d: int, len: nat, dst: nat, at: nat, keyBytes: Bytes, ghost ns: seq<Node>)
      requires forall i :: 0 <= i < |ptrs| ==> ptrs[i] >= d
      requires upper + len <= bytes.Length && dst + len <= bytes.Length && at + |keyBytes| <= bytes.Length
      requires lower == PAGEHDRSZ + SLOT * |ptrs| && lower <= dst && !leaf
      requires Laid(Rekeyed(bytes[..], upper, len, dst, at, keyBytes), RekeyPtrs(ptrs, ptr, d), dst, false, ns)
      modifies this, bytes
      ensures Valid() && nodes == ns
    {
      ptrs := MovePtrs(ptrs, ptr, d);
      RekeyBytes(bytes, upper, len, dst, at, keyBytes);
      upper, nodes := dst, ns;
    }
  }
}
