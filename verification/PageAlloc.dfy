/**
The page lists of the allocator: looking for a run of consecutive pages in me_pghead, taking it
out, and putting the pages of a released overflow run back (mdb_page_alloc, mdb_ovpage_free).
*/
module PageAlloc {
  import opened IdList

  ghost function Pages(s: seq<Id>): set<Id> { set x | x in s }

  /** The n pages from pg on, largest first. */
  function Run(pg: Id, n: nat): (s: seq<Id>)
    ensures |s| == n && forall t :: 0 <= t < n ==> s[t] == pg + n - 1 - t
  {
    if n == 0 then [] else [pg + n - 1] + Run(pg, n - 1)
  }

  /** All of pg..pg+n-1 are in the list. */
  ghost predicate HasRun(s: seq<Id>, pg: Id, n: nat) {
    forall x :: pg <= x < pg + n ==> x in s
  }

  /** Entries of a strictly descending list are at least as far apart as their positions. */
  lemma {:induction false} Gap(s: seq<Id>, p: nat, q: nat)
    requires Strict(s) && p <= q < |s|
    ensures s[p] >= s[q] + (q - p)
    decreases q - p
  {
    if p < q { Gap(s, p, q - 1); }
  }

  /** The single comparison of the search, on the n entries ending at position k. */
  predicate EndsMatch(s: seq<Id>, k: nat, n: nat)
    requires 0 < n <= k <= |s|
  {
    s[k - n] == s[k - 1] + n - 1
  }

  /** If the two ends are n-1 apart in value and in position, everything between is consecutive. */
  lemma EndsDecide(s: seq<Id>, k: nat, n: nat)
    requires Strict(s) && 0 < n <= k <= |s| && EndsMatch(s, k, n)
    ensures s[k - n..k] == Run(s[k - 1], n) && HasRun(s, s[k - 1], n)
  {
    var r := Run(s[k - 1], n);
    forall p | 0 <= p < n ensures s[k - n..k][p] == r[p] {
      Gap(s, k - n, k - n + p);
      Gap(s, k - n + p, k - 1);
    }
    forall x | s[k - 1] <= x < s[k - 1] + n ensures x in s {
      var p := n - 1 - (x - s[k - 1]);
      assert r[p] == x && s[k - n + p] == s[k - n..k][p];
    }
  }

  /** A run anywhere in the list occupies adjacent positions, so its two ends pass the test. */
  lemma {:induction false} RunAdjacent(s: seq<Id>, pg: Id, n: nat) returns (i: nat)
    requires Strict(s) && 0 < n && HasRun(s, pg, n)
    ensures n <= i <= |s| && s[i - 1] == pg && EndsMatch(s, i, n)
  {
    if n == 1 {
      assert pg in s;
      i :| 0 <= i < |s| && s[i] == pg;
      i := i + 1;
    } else {
      i := RunAdjacent(s, pg, n - 1);
      assert pg + n - 1 in s;
      var k :| 0 <= k < |s| && s[k] == pg + n - 1;
      Gap(s, k, i - (n - 1));
    }
  }

  /** The search of mdb_page_alloc: from the tail, one comparison per position.  0 means none. */
  method FindRun(mop: array<Id>, num: nat) returns (i: nat)
    requires Valid(mop) && Strict(Ids(mop)) && 0 < num
    ensures i == 0 <==> !exists pg: Id :: HasRun(Ids(mop), pg, num)
    ensures i > 0 ==> num <= i <= mop[0] && Ids(mop)[i - num..i] == Run(mop[i], num)
  {
    ghost var s := Ids(mop);
    var n2 := num - 1;
    i := mop[0];
    while i > n2
      invariant i <= |s|
      invariant forall k :: i < k <= |s| && num <= k ==> !EndsMatch(s, k, num)
    {
      assert mop[i - n2] == s[i - num] && mop[i] == s[i - 1];
      if mop[i - n2] == mop[i] + n2 {
        EndsDecide(s, i, num);
        return;
      }
      i := i - 1;
    }
    i := 0;
    forall pg: Id | HasRun(s, pg, num) ensures false {
      var k := RunAdjacent(s, pg, num);
    }
  }

  /** Takes the run ending at position i out of the list, moving the stragglers down. */
  method RemoveRun(mop: array<Id>, i: nat, num: nat)
    requires Valid(mop) && 0 < num <= i <= mop[0]
    modifies mop
    ensures Valid(mop) && Ids(mop) == old(Ids(mop)[..i - num] + Ids(mop)[i..])
  {
    ghost var s := Ids(mop);
    var len: nat := mop[0] - num;
    mop[0] := len;
    var j: nat, k: nat := i - num, i;
    while j < len
      invariant i - num <= j <= len && k == j + num
      invariant forall p :: 0 < p <= j ==> mop[p] == if p <= i - num then s[p - 1] else s[p - 1 + num]
      invariant forall p :: k < p <= len + num ==> mop[p] == s[p - 1]
      invariant mop[0] == len
    {
      j, k := j + 1, k + 1;
      mop[j] := mop[k];
    }
    ghost var t := s[..i - num] + s[i..];
    forall p | 0 <= p < len ensures Ids(mop)[p] == t[p] {
      if p >= i - num { assert t[p] == s[p + num]; }
    }
    assert Ids(mop) == t;
  }

  lemma StrictParts(a: seq<Id>, r: seq<Id>, b: seq<Id>)
    requires Strict(a + r + b)
    ensures Strict(a) && Strict(r) && Strict(b) && Strict(a + b)
    ensures forall i, j :: 0 <= i < |a| && 0 <= j < |r| ==> a[i] > r[j]
    ensures forall i, j :: 0 <= i < |r| && 0 <= j < |b| ==> r[i] > b[j]
    ensures forall i, j :: 0 <= i < |a| && 0 <= j < |b| ==> a[i] > b[j]
  {
    var s := a + r + b;
    assert forall i :: 0 <= i < |a| ==> a[i] == s[i];
    assert forall i :: 0 <= i < |r| ==> r[i] == s[|a| + i];
    assert forall i :: 0 <= i < |b| ==> b[i] == s[|a| + |r| + i];
  }

  /** What removing a run leaves: the other pages, still in order. */
  lemma RunRemoved(s: seq<Id>, i: nat, num: nat)
    requires Strict(s) && num <= i <= |s|
    ensures Strict(s[..i - num] + s[i..])
    ensures Pages(s[..i - num] + s[i..]) == Pages(s) - Pages(s[i - num..i])
  {
    var a, r, b := s[..i - num], s[i - num..i], s[i..];
    assert s == a + r + b;
    StrictParts(a, r, b);
  }

  /** Where a released run belongs: after all larger entries. */
  ghost predicate InsertPoint(s: seq<Id>, c: nat, pg: Id) {
    c <= |s| && (forall i :: 0 <= i < c ==> s[i] >= pg) && forall i :: c <= i < |s| ==> s[i] < pg
  }

  /** The list after entries c.. have moved up n places and the last `done` of them are in. */
  ghost predicate Opening(a: seq<Id>, s: seq<Id>, i: nat, n: nat) {
    && |s| + n < |a| && i <= |s|
    && (forall p :: 0 < p <= i ==> a[p] == s[p - 1])
    && (forall p :: i + n < p <= |s| + n ==> a[p] == s[p - n - 1])
  }

  /** Moves the entries below pg up by n places. */
  method OpenGap(mop: array<Id>, pg: Id, n: nat) returns (i: nat)
    requires Valid(mop) && mop[0] + n < mop.Length
    requires Strict(Ids(mop))
    modifies mop
    ensures mop[0] == old(mop[0]) && Opening(mop[..], old(Ids(mop)), i, n)
    ensures InsertPoint(old(Ids(mop)), i, pg)
  {
    ghost var s := Ids(mop);
    i := mop[0];
    while i > 0 && mop[i] < pg
      invariant i <= |s| && mop[0] == |s| && Opening(mop[..], s, i, n)
      invariant forall p :: i <= p < |s| ==> s[p] < pg
    {
      assert mop[..][i] == s[i - 1];
      mop[i + n] := mop[i];
      i := i - 1;
    }
    if i > 0 {
      assert mop[..][i] == s[i - 1];
    }
  }

  /** mdb_ovpage_free: puts the pages pg..pg+n-1 back into me_pghead in place. */
  method InsertRun(mop: array<Id>, pg: Id, n: nat) returns (ghost c: nat)
    requires Valid(mop) && mop[0] + n < mop.Length && Strict(Ids(mop))
    modifies mop
    ensures Valid(mop) && InsertPoint(old(Ids(mop)), c, pg)
    ensures Ids(mop) == old(Ids(mop))[..c] + Run(pg, n) + old(Ids(mop))[c..]
  {
    ghost var s := Ids(mop);
    var i := OpenGap(mop, pg, n);
    c := i;
    var j, next := i + n, pg;
    while j > i
      invariant i <= j <= i + n && next == pg + (i + n - j) && mop[0] == |s|
      invariant Opening(mop[..], s, i, n)
      invariant forall p :: j < p <= i + n ==> mop[p] == pg + (i + n - p)
    {
      mop[j] := next;
      j, next := j - 1, next + 1;
    }
    mop[0] := mop[0] + n;
    InsertedAs(mop[..], s, c, pg, n);
  }

  lemma InsertedAs(a: seq<Id>, s: seq<Id>, c: nat, pg: Id, n: nat)
    requires Opening(a, s, c, n) && forall p :: c < p <= c + n ==> a[p] == pg + (c + n - p)
    ensures a[1..|s| + n + 1] == s[..c] + Run(pg, n) + s[c..]
  {
    var t := s[..c] + Run(pg, n) + s[c..];
    forall p | 0 <= p < |s| + n ensures a[p + 1] == t[p] {
      if p < c { assert t[p] == s[p]; }
      else if p < c + n { assert t[p] == Run(pg, n)[p - c]; }
      else { assert t[p] == s[c..][p - c - n]; }
    }
  }

  /** If none of the pages was listed, the list stays strictly descending and becomes the union. */
  lemma RunInserted(s: seq<Id>, c: nat, pg: Id, n: nat)
    requires Strict(s) && InsertPoint(s, c, pg) && Pages(s) !! Pages(Run(pg, n))
    ensures Strict(s[..c] + Run(pg, n) + s[c..])
    ensures Pages(s[..c] + Run(pg, n) + s[c..]) == Pages(s) + Pages(Run(pg, n))
  {
    assert s == s[..c] + s[c..];
    forall i | 0 <= i < c ensures s[i] >= pg + n {
      RunHolds(pg, n, s[i]);
      assert s[i] in Pages(s);
    }
  }

  lemma RunHolds(pg: Id, n: nat, x: Id)
    ensures x in Pages(Run(pg, n)) <==> pg <= x < pg + n
  {
    if pg <= x < pg + n { assert Run(pg, n)[pg + n - 1 - x] == x; }
  }

  // ---------------------------------------------------------------- reclaiming free-database records

  lemma TwiceIn(s: seq<Id>, p: nat, q: nat)
    requires p < q < |s| && s[p] == s[q]
    ensures multiset(s)[s[p]] >= 2
  {
    assert s == s[..p] + [s[p]] + s[p + 1..q] + [s[q]] + s[q + 1..];
  }

  lemma {:induction false} OnceIn(s: seq<Id>, x: Id)
    requires Strict(s)
    ensures multiset(s)[x] <= 1
  {
    if s != [] {
      assert s == [s[0]] + s[1..];
      OnceIn(s[1..], x);
      if x == s[0] { assert x !in s[1..]; }
    }
  }

  /** The merge of two lists of distinct pages is again a list of distinct pages: their union. */
  lemma MergedStrictly(h: seq<Id>, x: seq<Id>, y: seq<Id>)
    requires Descending(h) && multiset(h) == multiset(x) + multiset(y)
    requires Strict(x) && Strict(y) && Pages(x) !! Pages(y)
    ensures Strict(h) && Pages(h) == Pages(x) + Pages(y)
  {
    forall p, q | 0 <= p < q < |h| ensures h[p] > h[q] {
      OnceIn(x, h[p]);
      OnceIn(y, h[p]);
      assert h[p] in multiset(x) ==> h[p] in Pages(x);
      assert h[p] in multiset(y) ==> h[p] in Pages(y);
      if h[p] == h[q] { TwiceIn(h, p, q); }
    }
    assert forall e :: e in h <==> e in multiset(h);
  }

  datatype Reader = Reader(pid: nat, txnid: nat)

  /** The smallest id of the readers in use and the last committed transaction. */
  ghost predicate IsOldest(o: nat, txnid: nat, readers: seq<Reader>) {
    && o < txnid && (forall r :: 0 <= r < |readers| && readers[r].pid != 0 ==> o <= readers[r].txnid)
    && (o == txnid - 1 || exists r :: 0 <= r < |readers| && readers[r].pid != 0 && o == readers[r].txnid)
  }

  /** mdb_find_oldest: scans the reader table from the top. */
  method FindOldest(txnid: nat, readers: array<Reader>) returns (oldest: nat)
    requires txnid > 0
    ensures IsOldest(oldest, txnid, readers[..])
  {
    oldest := txnid - 1;
    var i := readers.Length;
    while i > 0
      invariant 0 <= i <= readers.Length && oldest < txnid
      invariant forall r :: i <= r < readers.Length && readers[r].pid != 0 ==> oldest <= readers[r].txnid
      invariant oldest == txnid - 1
         || exists r :: i <= r < readers.Length && readers[r].pid != 0 && oldest == readers[r].txnid
    {
      i := i - 1;
      if readers[i].pid != 0 && readers[i].txnid < oldest {
        oldest := readers[i].txnid;
      }
    }
  }

  /** mdb_midl_need: makes room for `num` more entries, reallocating if necessary. */
  method Need(ids: array<Id>, num: nat) returns (r: array<Id>)
    requires Valid(ids)
    ensures Valid(r) && Ids(r) == Ids(ids) && ids[0] + num < r.Length
    ensures r == ids || fresh(r)
  {
    r := ids;
    var want := ids[0] + num;
    if want >= ids.Length {
      var block := (want + want / 4 + 258) / 256 * 256;
      r := new Id[block - 1](_ => 0);
      for i := 0 to ids[0] + 1
        invariant forall p :: 0 <= p < i ==> r[p] == ids[p]
      {
        r[i] := ids[i];
      }
    }
  }

  /** A record of the free database: the pages freed by one transaction. */
  datatype Rec = Rec(key: nat, ids: seq<Id>)

  ghost function RecPages(recs: seq<Rec>, from: nat, to: nat): set<Id>
    requires from <= to <= |recs|
  {
    if from == to then {} else RecPages(recs, from, to - 1) + Pages(recs[to - 1].ids)
  }

  ghost predicate KeysAscend(recs: seq<Rec>) {
    forall i, j :: 0 <= i < j < |recs| ==> recs[i].key < recs[j].key
  }

  /** From position `from` on, each record lists distinct pages, and no page is listed twice. */
  ghost predicate Filed(recs: seq<Rec>, from: nat, head: set<Id>) {
    && (forall i :: from <= i < |recs| ==> Strict(recs[i].ids) && Pages(recs[i].ids) !! head)
    && (forall i, p :: from <= i < |recs| && p in recs[i].ids ==> p <= ID_MAX)
    && (forall i, j :: from <= i < j < |recs| ==> Pages(recs[i].ids) !! Pages(recs[j].ids))
  }

  lemma {:induction false} RecPagesApart(recs: seq<Rec>, head: set<Id>, from: nat, to: nat, k: nat)
    requires Filed(recs, from, head) && from <= to <= k < |recs|
    ensures RecPages(recs, from, to) !! Pages(recs[k].ids)
  {
    if from < to { RecPagesApart(recs, head, from, to - 1, k); }
  }

  /** The first record with a key greater than `last` (a cursor lookup of last+1). */
  ghost predicate FirstAfter(recs: seq<Rec>, last: nat, i: nat) {
    && i <= |recs|
    && (forall j :: 0 <= j < i ==> recs[j].key <= last)
    && (forall j :: i <= j < |recs| ==> recs[j].key > last)
  }

  lemma OneFirst(recs: seq<Rec>, last: nat, i: nat, j: nat)
    requires FirstAfter(recs, last, i) && FirstAfter(recs, last, j)
    ensures i == j
  {
    assert i < |recs| ==> recs[i].key > last;
    assert j < |recs| ==> recs[j].key > last;
  }

  method SeekAfter(recs: seq<Rec>, last: nat) returns (i: nat)
    requires KeysAscend(recs)
    ensures FirstAfter(recs, last, i)
  {
    i := 0;
    while i < |recs| && recs[i].key <= last
      invariant i <= |recs| && forall j :: 0 <= j < i ==> recs[j].key <= last
    {
      i := i + 1;
    }
  }

  /** A record's data, seen as an ID list. */
  method AsList(ids: seq<Id>) returns (a: array<Id>)
    ensures fresh(a) && Valid(a) && Ids(a) == ids
  {
    a := new Id[|ids| + 1](_ => 0);
    a[0] := |ids|;
    for i := 0 to |ids|
      invariant a[0] == |ids| && forall p :: 0 <= p < i ==> a[p + 1] == ids[p]
    {
      a[i + 1] := ids[i];
    }
  }

  /** me_pghead after records lo..i-1 were merged into what it was before. */
  ghost predicate Reclaimed(head: seq<Id>, head0: set<Id>, recs: seq<Rec>, lo: nat, i: nat) {
    lo <= i <= |recs| && Strict(head) && Pages(head) == head0 + RecPages(recs, lo, i)
  }

  lemma ReclaimOne(h: seq<Id>, head: seq<Id>, head0: set<Id>, recs: seq<Rec>, lo: nat, i: nat)
    requires Filed(recs, lo, head0) && i < |recs| && Reclaimed(head, head0, recs, lo, i)
    requires Descending(h) && multiset(h) == multiset(head) + multiset(recs[i].ids)
    ensures Reclaimed(h, head0, recs, lo, i + 1)
  {
    RecPagesApart(recs, head0, lo, i, i);
    MergedStrictly(h, head, recs[i].ids);
  }

  lemma StrictDescends(s: seq<Id>)
    requires Strict(s)
    ensures Descending(s)
  {
  }

  /** `o` is no later than any snapshot still in use by a reader or by the writer itself. */
  ghost predicate LowerBound(o: nat, txnid: nat, readers: seq<Reader>) {
    o < txnid && forall r :: 0 <= r < |readers| && readers[r].pid != 0 ==> o <= readers[r].txnid
  }

  datatype Outcome = Page(pgno: nat) | TxnFull | MapFull

  /** The allocator's state in the environment and the write transaction. */
  class Allocator {
    var pghead: array<Id>
    var pglast: nat
    var pgoldest: nat
    var loose: seq<Id>
    var next: nat
    var dirtyRoom: nat
    const maxpg: nat
    const txnid: nat
    const recs: seq<Rec>
    const readers: array<Reader>

    /** The reclaimed list is strict and disjoint from the records still to be consumed, and the
        cached oldest id is a lower bound. */
    ghost predicate Ok(lo: nat)
      reads this, pghead, readers
    {
      && Valid(pghead) && Strict(Ids(pghead)) && KeysAscend(recs)
      && FirstAfter(recs, pglast, lo) && Filed(recs, lo, Pages(Ids(pghead)))
      && LowerBound(pgoldest, txnid, readers[..])
    }

    /** The cached oldest id is the one it was, or the result of a look at the reader table. */
    ghost predicate Refreshed(was: nat)
      reads this, readers
    {
      pgoldest == was || IsOldest(pgoldest, txnid, readers[..])
    }

    /** Whether a record with this key is old enough; the reader table is looked at only when the
        cached oldest id does not already settle it, and at most once per allocation. */
    method OldEnough(key: nat, looked: bool) returns (yes: bool, looked': bool)
      requires LowerBound(pgoldest, txnid, readers[..])
      modifies this`pgoldest
      ensures LowerBound(pgoldest, txnid, readers[..]) && old(pgoldest) <= pgoldest && Refreshed(old(pgoldest))
      ensures yes <==> key < pgoldest
      ensures looked == looked' ==> pgoldest == old(pgoldest)
      ensures looked' <==> looked || old(pgoldest) <= key
    {
      looked' := looked;
      if pgoldest <= key && !looked {
        pgoldest := FindOldest(txnid, readers);
        looked' := true;
      }
      yes := key < pgoldest;
    }

    /** Merges record i into me_pghead and marks it as consumed. */
    method Absorb(i: nat, ghost head0: set<Id>, ghost lo: nat)
      requires Valid(pghead) && i < |recs| && Filed(recs, lo, head0)
      requires Reclaimed(Ids(pghead), head0, recs, lo, i)
      modifies this`pghead, this`pglast, pghead
      ensures Valid(pghead) && Reclaimed(Ids(pghead), head0, recs, lo, i + 1) && pglast == recs[i].key
      ensures pghead == old(pghead) || fresh(pghead)
    {
      ghost var head := Ids(pghead);
      var idl := AsList(recs[i].ids);
      pghead := Need(pghead, idl[0]);
      pglast := recs[i].key;
      StrictDescends(head);
      StrictDescends(recs[i].ids);
      XMerge(pghead, idl);
      ReclaimOne(Ids(pghead), head, head0, recs, lo, i);
    }

    /** The progress of one allocation: records lo..i-1 are consumed, all of them older than the
        oldest snapshot in use. */
    ghost predicate Reclaiming(head0: set<Id>, lo: nat, i: nat, last0: nat)
      reads this, pghead, readers
    {
      && Valid(pghead) && Reclaimed(Ids(pghead), head0, recs, lo, i) && FirstAfter(recs, pglast, i)
      && LowerBound(pgoldest, txnid, readers[..])
      && pglast == (if i == lo then last0 else recs[i - 1].key) && (forall k :: lo <= k < i ==> recs[k].key < pgoldest)
    }

    lemma AbsorbedKeys(i: nat)
      requires KeysAscend(recs) && i < |recs|
      ensures FirstAfter(recs, recs[i].key, i + 1)
    {
    }

    /** Consumes record i if it is old enough. */
    method TryRecord(i: nat, looked: bool, ghost head0: set<Id>, ghost lo: nat, ghost last0: nat)
      returns (more: bool, looked': bool)
      requires KeysAscend(recs) && Filed(recs, lo, head0) && Reclaiming(head0, lo, i, last0)
      modifies this`pghead, this`pglast, this`pgoldest, pghead
      ensures old(pgoldest) <= pgoldest && Refreshed(old(pgoldest)) && (pghead == old(pghead) || fresh(pghead))
      ensures more ==> i < |recs| && Reclaiming(head0, lo, i + 1, last0)
      ensures !more ==> Reclaiming(head0, lo, i, last0) && Ids(pghead) == old(Ids(pghead))
      ensures !more ==> i == |recs| || pgoldest <= recs[i].key
    {
      more, looked' := OldEnough(pglast + 1, looked);
      if !more || i == |recs| {
        more := false;
        return;
      }
      more, looked' := OldEnough(recs[i].key, looked');
      if more {
        AbsorbedKeys(i);
        Absorb(i, head0, lo);
      }
    }

    /** What a search that ends with k and stops before record hi has found: a run at k, or, unless
        it gave up early, that there is none and no further record may be used. */
    ghost predicate Found(num: nat, k: nat, lo: nat, hi: nat)
      reads this, pghead
    {
      && Valid(pghead)
      && (k > 0 ==> num <= k <= pghead[0] && Ids(pghead)[k - num..k] == Run(pghead[k], num))
      && (k == 0 && hi - lo < 60 * num ==>
            && !(exists pg: Id :: HasRun(Ids(pghead), pg, num))
            && (hi >= |recs| || pgoldest <= recs[hi].key))
    }

    /** One round: look for a run; if there is none, consume one more record unless it has been tried
        often enough. */
    method Round(num: nat, i: nat, looked: bool, retry: int, ghost head0: set<Id>, ghost lo: nat, ghost last0: nat)
      returns (more: bool, k: nat, looked': bool, retry': int)
      requires KeysAscend(recs) && Filed(recs, lo, head0) && Reclaiming(head0, lo, i, last0)
      requires 0 < num && lo <= i && retry >= 60 * num - (i - lo)
      modifies this`pghead, this`pglast, this`pgoldest, pghead
      ensures old(pgoldest) <= pgoldest && Refreshed(old(pgoldest)) && (pghead == old(pghead) || fresh(pghead))
      ensures more ==> i < |recs| && Reclaiming(head0, lo, i + 1, last0) && retry' >= 60 * num - (i + 1 - lo)
      ensures !more ==> Reclaiming(head0, lo, i, last0) && Found(num, k, lo, i)
    {
      looked', retry' := looked, retry;
      k := FindRun(pghead, num);
      if k > 0 { return false, k, looked', retry'; }
      if pghead[0] > num - 1 {
        retry' := retry' - 1;
        if retry' < 0 { return false, k, looked', retry'; }
      }
      more, looked' := TryRecord(i, looked, head0, lo, last0);
    }

    /** The main loop of mdb_page_alloc. */
    method Hunt(num: nat, ghost lo: nat) returns (k: nat, ghost hi: nat)
      requires Ok(lo) && 0 < num
      modifies this`pghead, this`pglast, this`pgoldest, pghead
      ensures Reclaiming(old(Pages(Ids(pghead))), lo, hi, old(pglast))
      ensures old(pgoldest) <= pgoldest && Refreshed(old(pgoldest))
      ensures (pghead == old(pghead) || fresh(pghead)) && Found(num, k, lo, hi)
    {
      ghost var head0, last0 := Pages(Ids(pghead)), pglast;
      var i := SeekAfter(recs, pglast);
      OneFirst(recs, pglast, i, lo);
      var more, retry: int, looked := true, 60 * num, false;
      k := 0;
      while more
        invariant lo <= i <= |recs| && Reclaiming(head0, lo, i, last0)
        invariant old(pgoldest) <= pgoldest && Refreshed(old(pgoldest))
        invariant pghead == old(pghead) || fresh(pghead)
        invariant more ==> retry >= 60 * num - (i - lo)
        invariant !more ==> Found(num, k, lo, i)
        decreases more, |recs| - i
      {
        more, k, looked, retry := Round(num, i, looked, retry, head0, lo, last0);
        if more { i := i + 1; }
      }
      hi := i;
    }

    /** Pages from the reclaimed list, or else from the end of the file. */
    method Obtain(num: nat, ghost lo: nat) returns (r: Outcome, ghost hi: nat)
      requires Ok(lo) && 0 < num
      modifies this, pghead
      ensures Ok(hi) && loose == old(loose) && dirtyRoom == old(dirtyRoom) && !r.TxnFull?
      ensures lo <= hi <= |recs| && (forall k :: lo <= k < hi ==> recs[k].key < pgoldest)
      ensures Refreshed(old(pgoldest)) && pglast == if hi == lo then old(pglast) else recs[hi - 1].key
      ensures var pool := old(Pages(Ids(pghead))) + RecPages(recs, lo, hi);
        match r
        case Page(pg) =>
          if next == old(next)
          then Pages(Run(pg, num)) <= pool && Pages(Ids(pghead)) == pool - Pages(Run(pg, num))
          else pg == old(next) && next == pg + num < maxpg && Pages(Ids(pghead)) == pool
               && (hi - lo < 60 * num ==> !exists p: Id :: HasRun(Ids(pghead), p, num))
        case MapFull => next == old(next) && next + num >= maxpg && Pages(Ids(pghead)) == pool
        case TxnFull => false
    {
      ghost var head0 := Pages(Ids(pghead));
      var k;
      k, hi := Hunt(num, lo);
      StillFiled(recs, head0, lo, hi);
      if k > 0 {
        r := Page(pghead[k]);
        RunRemoved(Ids(pghead), k, num);
        RemoveRun(pghead, k, num);
      } else if next + num >= maxpg {
        r := MapFull;
      } else {
        r := Page(next);
        next := next + num;
      }
    }

    /** mdb_page_alloc: page numbers for `num` contiguous pages. */
    method Alloc(num: nat, ghost lo: nat) returns (r: Outcome, ghost hi: nat)
      requires Ok(lo) && 0 < num
      modifies this, pghead
      ensures Ok(hi) && lo <= hi <= |recs|
      ensures Refreshed(old(pgoldest)) && pglast == if hi == lo then old(pglast) else recs[hi - 1].key
      ensures dirtyRoom == old(dirtyRoom) - if r.Page? && !(num == 1 && old(loose) != []) then 1 else 0
      ensures num == 1 && old(loose) != [] ==>
        && r == Page(old(loose)[|old(loose)| - 1]) && loose == old(loose)[..|old(loose)| - 1]
        && hi == lo && Ids(pghead) == old(Ids(pghead)) && next == old(next) && pgoldest == old(pgoldest)
      ensures !(num == 1 && old(loose) != []) ==> loose == old(loose)
      ensures r == TxnFull <==> !(num == 1 && old(loose) != []) && old(dirtyRoom) == 0
      ensures r == TxnFull ==>
        hi == lo && Ids(pghead) == old(Ids(pghead)) && next == old(next) && pgoldest == old(pgoldest)
      ensures !(num == 1 && old(loose) != []) && old(dirtyRoom) > 0 ==>
        && lo <= hi <= |recs| && (forall k :: lo <= k < hi ==> recs[k].key < pgoldest)
        && var pool := old(Pages(Ids(pghead))) + RecPages(recs, lo, hi);
        match r
        case Page(pg) =>
          if next == old(next)
          then Pages(Run(pg, num)) <= pool && Pages(Ids(pghead)) == pool - Pages(Run(pg, num))
          else pg == old(next) && next == pg + num < maxpg && Pages(Ids(pghead)) == pool
               && (hi - lo < 60 * num ==> !exists p: Id :: HasRun(Ids(pghead), p, num))
        case MapFull => next == old(next) && next + num >= maxpg && Pages(Ids(pghead)) == pool
        case TxnFull => false
    {
      hi := lo;
      if num == 1 && loose != [] {
        r := Page(loose[|loose| - 1]);
        loose := loose[..|loose| - 1];
        return;
      }
      if dirtyRoom == 0 {
        r := TxnFull;
        return;
      }
      r, hi := Obtain(num, lo);
      if r.Page? { dirtyRoom := dirtyRoom - 1; }
    }
  }

  lemma {:induction false} StillFiled(recs: seq<Rec>, head0: set<Id>, lo: nat, hi: nat)
    requires Filed(recs, lo, head0) && lo <= hi <= |recs|
    ensures forall h :: h <= head0 + RecPages(recs, lo, hi) ==> Filed(recs, hi, h)
  {
    forall k | hi <= k < |recs| ensures RecPages(recs, lo, hi) !! Pages(recs[k].ids) {
      RecPagesApart(recs, head0, lo, hi, k);
    }
  }
}
