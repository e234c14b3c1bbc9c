/**
The second half of mdb_freelist_save: leftover reclaimed pages go back into the free database, under
keys between 1 and me_pglast.  Room is reserved first, record by record from the largest key down,
because writing a record can itself change the lists; the records are then filled from the smallest
key up.
*/
module FreelistSave {
  import opened IdList
  import IdSort
  import PageAlloc
  import Mvcc
  import opened Sums

  /** The rooms after (re)writing the record at the head key: a new last entry, or a changed one. */
  function PutRoom(rooms: seq<nat>, isNew: bool, room: nat): seq<nat> {
    if isNew || rooms == [] then rooms + [room] else rooms[|rooms| - 1 := room]
  }

  lemma PutRoomSum(rooms: seq<nat>, isNew: bool, room: nat)
    ensures Sum(PutRoom(rooms, isNew, room))
         == (if isNew || rooms == [] then Sum(rooms) else Sum(rooms) - rooms[|rooms| - 1]) + room
  {
    var r := PutRoom(rooms, isNew, room);
    assert r[..|r| - 1] == if isNew || rooms == [] then rooms else rooms[..|rooms| - 1];
  }

  /** Rounding a share up to whole overflow pages leaves at least one page's worth. */
  lemma ShareFillsPage(q: nat, maxfree: nat)
    ensures q + maxfree - q % (maxfree + 1) >= maxfree
  {
  }

  /** The reservation loop, once writing records no longer changes the lists: `len` pages are to be
      stored, one page holds `maxfree` ids, and keys pglast, pglast-1, ... are free.  rooms[t] is the
      room reserved under key pglast - t. */
  method Reserve(len: nat, maxfree: nat, pglast: nat) returns (rooms: seq<nat>)
    requires 0 < maxfree && (0 < len ==> 0 < pglast)
    ensures Sum(rooms) >= len
    ensures |rooms| <= pglast && (len == 0 ==> rooms == [])
  {
    rooms := [];
    var headId: nat, headRoom: nat, totalRoom: nat, more: int := pglast, 0, 0, 1;
    while true
      invariant 0 <= more <= 1
      invariant totalRoom == Sum(rooms) && headRoom <= totalRoom
      invariant rooms == [] ==> headRoom == 0 && headId == pglast && more == 1
      invariant rooms != [] ==> headRoom == rooms[|rooms| - 1] && 0 < headId && |rooms| == pglast - headId + 1
      invariant len == 0 ==> rooms == []
      decreases more, headId, if headRoom < maxfree then 1 else 0, if totalRoom == len then 0 else 1
    {
      var isNew := false;
      if totalRoom >= len {
        if totalRoom == len {
          break;
        }
        more := more - 1;
        if more < 0 {
          break;
        }
      } else if headRoom >= maxfree && headId > 1 {
        headId, headRoom, isNew := headId - 1, 0, true;
      }
      totalRoom := totalRoom - headRoom;
      var share: int := len - totalRoom;
      if share > maxfree && headId > 1 {
        share := share / headId;
        ShareFillsPage(share, maxfree);
        share := share + (maxfree - share % (maxfree + 1));
      } else if share < 0 {
        share := 0;
      }
      headRoom := share;
      PutRoomSum(rooms, isNew, headRoom);
      rooms := PutRoom(rooms, isNew, headRoom);
      totalRoom := totalRoom + headRoom;
    }
  }

  /** The pages of all records, from the largest key to the smallest. */
  ghost function FromTop(recs: seq<seq<Id>>): seq<Id> {
    if recs == [] then [] else recs[|recs| - 1] + FromTop(recs[..|recs| - 1])
  }

  lemma {:induction false} FromTopMore(recs: seq<seq<Id>>, r: seq<Id>)
    ensures FromTop(recs + [r]) == r + FromTop(recs)
  {
    assert (recs + [r])[..|recs|] == recs;
  }

  function Empties(n: nat): (r: seq<seq<Id>>)
    ensures |r| == n && forall t :: 0 <= t < n ==> r[t] == []
  {
    if n == 0 then [] else Empties(n - 1) + [[]]
  }

  lemma {:induction false} FromTopEmpty(recs: seq<seq<Id>>, n: nat)
    ensures FromTop(recs + Empties(n)) == FromTop(recs)
  {
    if n == 0 {
      assert recs + Empties(0) == recs;
    } else {
      FromTopEmpty(recs, n - 1);
      FromTopMore(recs + Empties(n - 1), []);
      assert recs + Empties(n) == recs + Empties(n - 1) + [[]];
    }
  }

  /** Stores `len` ids from the middle of the list as one record, length first: the slot below the
      ids is overwritten with the length for the moment of the write, and then restored. */
  method WriteRecord(mop: array<Id>, pos: nat, len: nat) returns (data: seq<Id>)
    requires pos + len < mop.Length
    modifies mop
    ensures mop[..] == old(mop[..])
    ensures data == [len] + mop[pos + 1..pos + len + 1]
  {
    var save := mop[pos];
    mop[pos] := len;
    data := mop[pos..pos + len + 1];
    mop[pos] := save;
  }

  /** The first |recs| records hold the entries pos.. of s. */
  ghost predicate Filling(s: seq<Id>, rooms: seq<nat>, recs: seq<seq<Id>>, pos: nat) {
    && pos <= |s| && |recs| <= |rooms| && FromTop(recs) == s[pos..]
    && (forall t :: 0 <= t < |recs| ==> |recs[t]| <= rooms[t])
    && (0 < pos ==> Sum(rooms[..|recs|]) == |s| - pos)
  }

  lemma FillSum(rooms: seq<nat>, n: nat)
    requires n < |rooms|
    ensures Sum(rooms[..n + 1]) == Sum(rooms[..n]) + rooms[n]
  {
    assert rooms[..n + 1][..n] == rooms[..n];
  }

  lemma FillStep(s: seq<Id>, rooms: seq<nat>, recs: seq<seq<Id>>, pos: nat, len: nat, at: nat, d: seq<Id>)
    requires Filling(s, rooms, recs, pos) && 0 < pos && |recs| < |rooms|
    requires len == (if rooms[|recs|] > pos then pos else rooms[|recs|]) && at == pos - len && d == s[at..pos]
    ensures Filling(s, rooms, recs + [d], at)
  {
    FillEntries(s, at, pos);
    FillSum(rooms, |recs|);
    FromTopMore(recs, d);
  }

  lemma FillEntries(s: seq<Id>, at: nat, pos: nat)
    requires at <= pos <= |s|
    ensures s[at..] == s[at..pos] + s[pos..]
  {
  }

  lemma FillRoom(s: seq<Id>, rooms: seq<nat>, recs: seq<seq<Id>>, pos: nat)
    requires Filling(s, rooms, recs, pos) && Sum(rooms) >= |s| && 0 < pos
    ensures |recs| < |rooms|
  {
    assert rooms[..|rooms|] == rooms;
  }

  lemma FillDone(s: seq<Id>, rooms: seq<nat>, recs: seq<seq<Id>>)
    requires Filling(s, rooms, recs, 0)
    ensures var all := recs + Empties(|rooms| - |recs|);
      FromTop(all) == s && forall t :: 0 <= t < |all| ==> |all[t]| <= rooms[t]
  {
    FromTopEmpty(recs, |rooms| - |recs|);
    assert s[0..] == s;
  }

  /** The fill loop: walks the reserved records from the smallest key up, handing each the next
      pages from the end of the list, until the list is used up. */
  method Fill(mop: array<Id>, rooms: seq<nat>) returns (recs: seq<seq<Id>>)
    requires Valid(mop) && Sum(rooms) >= mop[0]
    modifies mop
    ensures mop[..] == old(mop[..]) && Filling(old(Ids(mop)), rooms, recs, 0)
  {
    ghost var s := Ids(mop);
    recs := [];
    var pos: nat := mop[0];
    while pos > 0
      invariant mop[..] == old(mop[..]) && Filling(s, rooms, recs, pos)
      decreases |rooms| - |recs|
    {
      FillRoom(s, rooms, recs, pos);
      var len := rooms[|recs|];
      if len > pos {
        len := pos;
      }
      var at := pos - len;
      FillStep(s, rooms, recs, pos, len, at, s[at..pos]);
      var ids := FillRecord(mop, s, at, len);
      recs := recs + [ids];
      pos := at;
    }
  }

  /** The entries of the record written at pos. */
  method FillRecord(mop: array<Id>, ghost s: seq<Id>, pos: nat, len: nat) returns (ids: seq<Id>)
    requires Valid(mop) && s == Ids(mop) && pos + len <= |s|
    modifies mop
    ensures mop[..] == old(mop[..]) && ids == s[pos..pos + len]
  {
    RecordEntries(mop[..], s, pos, len);
    var data := WriteRecord(mop, pos, len);
    ids := data[1..];
  }

  lemma RecordEntries(a: seq<Id>, s: seq<Id>, pos: nat, len: nat)
    requires |s| < |a| && s == a[1..|s| + 1] && pos + len <= |s|
    ensures a[pos + 1..pos + len + 1] == s[pos..pos + len]
  {
    var x, y := a[pos + 1..pos + len + 1], s[pos..pos + len];
    forall i | 0 <= i < len ensures x[i] == y[i] { assert s[pos + i] == a[1..|s| + 1][pos + i]; }
  }

  // ---------------------------------------------------------------- every page in exactly one record

  lemma {:induction false} InSomeRecord(recs: seq<seq<Id>>, x: Id)
    ensures x in FromTop(recs) <==> exists t :: 0 <= t < |recs| && x in recs[t]
  {
    if recs != [] {
      var rest := recs[..|recs| - 1];
      InSomeRecord(rest, x);
      if x in FromTop(rest) {
        var t :| 0 <= t < |rest| && x in rest[t];
        assert x in recs[t];
      }
      if exists t :: 0 <= t < |recs| && x in recs[t] {
        var t :| 0 <= t < |recs| && x in recs[t];
        if t < |rest| { assert x in rest[t]; }
      }
    }
  }

  lemma {:induction false} NotTwice(recs: seq<seq<Id>>, i: nat, j: nat)
    requires Strict(FromTop(recs)) && i < j < |recs|
    ensures Strict(recs[i]) && Strict(recs[j]) && PageAlloc.Pages(recs[i]) !! PageAlloc.Pages(recs[j])
  {
    var last, rest := recs[|recs| - 1], recs[..|recs| - 1];
    var s := FromTop(recs);
    assert s == last + FromTop(rest) + [];
    PageAlloc.StrictParts(last, FromTop(rest), []);
    if j < |rest| {
      NotTwice(rest, i, j);
    } else {
      StrictRecord(rest, i);
      forall x | x in recs[i] ensures x !in recs[j] {
        assert x in rest[i];
        InSomeRecord(rest, x);
      }
    }
  }

  lemma {:induction false} StrictRecord(recs: seq<seq<Id>>, i: nat)
    requires Strict(FromTop(recs)) && i < |recs|
    ensures Strict(recs[i])
  {
    var last, rest := recs[|recs| - 1], recs[..|recs| - 1];
    assert FromTop(recs) == last + FromTop(rest) + [];
    PageAlloc.StrictParts(last, FromTop(rest), []);
    if i < |rest| { StrictRecord(rest, i); }
  }

  function Reverse(s: seq<nat>): (r: seq<nat>)
    ensures |r| == |s|
  {
    if s == [] then [] else [s[|s| - 1]] + Reverse(s[..|s| - 1])
  }

  lemma {:induction false} SumReverse(s: seq<nat>)
    ensures Sum(Reverse(s)) == Sum(s)
  {
    if s != [] {
      SumReverse(s[..|s| - 1]);
      SumConcat([s[|s| - 1]], Reverse(s[..|s| - 1]));
      assert Sum([s[|s| - 1]]) == Sum([]) + s[|s| - 1];
    }
  }

  function RecordAt(recs: seq<seq<Id>>, low: nat, k: nat): seq<Id> {
    if low <= k < low + |recs| then recs[k - low] else []
  }

  /** The records as the protocol sees them: a set of pages per key, the smallest key `low`. */
  ghost function AsFiled(recs: seq<seq<Id>>, low: nat): map<nat, set<nat>> {
    map k | k in Mvcc.Range(low, low + |recs|) :: PageAlloc.Pages(RecordAt(recs, low, k))
  }

  lemma FiledApart(recs: seq<seq<Id>>, low: nat)
    requires Strict(FromTop(recs))
    ensures Mvcc.Separate(AsFiled(recs, low), 0)
  {
    var m := AsFiled(recs, low);
    forall k1, k2 | k1 in m && k2 in m && 0 < k1 < k2 ensures m[k1] !! m[k2] {
      NotTwice(recs, k1 - low, k2 - low);
    }
  }

  lemma FiledAll(recs: seq<seq<Id>>, low: nat)
    requires 0 < low
    ensures Mvcc.Above(AsFiled(recs, low), 0) == PageAlloc.Pages(FromTop(recs))
  {
    var m := AsFiled(recs, low);
    forall x: Id ensures x in Mvcc.Above(m, 0) ==> x in FromTop(recs) {
      InSomeRecord(recs, x);
      if x in Mvcc.Above(m, 0) {
        var k :| k in m && 0 < k && x in m[k];
        assert x in recs[k - low];
      }
    }
    forall x: Id ensures x in FromTop(recs) ==> x in Mvcc.Above(m, 0) {
      InSomeRecord(recs, x);
      if x in FromTop(recs) {
        var t :| 0 <= t < |recs| && x in recs[t];
        assert RecordAt(recs, low, low + t) == recs[t] && low + t in m;
        assert x in m[low + t];
      }
    }
  }

  /** The state of the protocol in which a writer has these pages left over. */
  ghost predicate LeftOver(e: Mvcc.Env, pages: set<Id>, pglast: nat) {
    && Mvcc.WriterIn(e, Mvcc.Active)
    && e.writer.value.head + e.writer.value.loose == pages && e.writer.value.pglast == pglast
  }

  /** Reserve and fill together: every leftover page ends up in exactly one record, with a key
      between 1 and me_pglast, and so this is an enabled step of the protocol. */
  method Refile(mop: array<Id>, maxfree: nat, pglast: nat, ghost e: Mvcc.Env) returns (low: nat, recs: seq<seq<Id>>)
    requires Valid(mop) && Strict(Ids(mop)) && 0 < maxfree && (0 < mop[0] ==> 0 < pglast)
    requires LeftOver(e, PageAlloc.Pages(Ids(mop)), pglast)
    modifies mop
    ensures mop[..] == old(mop[..]) && Valid(mop) && 0 < low && low + |recs| <= pglast + 1
    ensures Mvcc.Enabled(e, Mvcc.SaveFreelist(AsFiled(recs, low)))
    ensures FromTop(recs) == Ids(mop)
    ensures Mvcc.Separate(AsFiled(recs, low), 0)
    ensures Mvcc.Above(AsFiled(recs, low), 0) == PageAlloc.Pages(Ids(mop))
  {
    ghost var s := Ids(mop);
    var rooms := Reserve(mop[0], maxfree, pglast);
    SumReverse(rooms);
    low := pglast - |rooms| + 1;
    recs := Fill(mop, Reverse(rooms));
    FillDone(s, Reverse(rooms), recs);
    recs := recs + Empties(|rooms| - |recs|);
    FiledApart(recs, low);
    FiledAll(recs, low);
  }

  // ---------------------------------------------------------------- loose pages

  ghost predicate Distinct(s: seq<Id>) {
    forall i, j :: 0 <= i < j < |s| ==> s[i] != s[j]
  }

  lemma {:induction false} DistinctOnce(s: seq<Id>, x: Id)
    requires Distinct(s)
    ensures multiset(s)[x] <= 1
  {
    if s != [] {
      assert s == [s[0]] + s[1..];
      DistinctOnce(s[1..], x);
      if x == s[0] { assert x !in s[1..]; }
    }
  }

  lemma SortedStrictly(h: seq<Id>, s: seq<Id>)
    requires Descending(h) && multiset(h) == multiset(s) && Distinct(s)
    ensures Strict(h) && PageAlloc.Pages(h) == PageAlloc.Pages(s)
  {
    forall p, q | 0 <= p < q < |h| ensures h[p] > h[q] {
      DistinctOnce(s, h[p]);
      if h[p] == h[q] { PageAlloc.TwiceIn(h, p, q); }
    }
    assert forall e :: e in h <==> e in multiset(h);
    assert forall e :: e in s <==> e in multiset(s);
  }

  /** Returns the loose pages to me_pghead: sorted into a list of their own, then merged.  As for the
      sort, the result is false if there are too many of them for it. */
  method ReturnLoose(pghead: array<Id>, loose: seq<Id>) returns (ok: bool, mop: array<Id>)
    requires Valid(pghead) && Strict(Ids(pghead)) && Distinct(loose)
    requires PageAlloc.Pages(loose) !! PageAlloc.Pages(Ids(pghead)) && forall p :: p in loose ==> p <= ID_MAX
    modifies pghead
    ensures |loose| <= IdSort.MAX_SORT ==> ok
    ensures ok ==> Valid(mop) && Strict(Ids(mop))
    ensures ok ==> PageAlloc.Pages(Ids(mop)) == old(PageAlloc.Pages(Ids(pghead))) + PageAlloc.Pages(loose)
  {
    ghost var head := Ids(pghead);
    var list := PageAlloc.AsList(loose);
    ok := IdSort.Sort(list);
    mop := pghead;
    if !ok { return; }
    ghost var sorted := Ids(list);
    SortedStrictly(sorted, loose);
    mop := PageAlloc.Need(pghead, 2 * |loose| + 1);
    PageAlloc.StrictDescends(head);
    assert forall m :: m in sorted ==> m in PageAlloc.Pages(loose);
    XMerge(mop, list);
    PageAlloc.MergedStrictly(Ids(mop), head, sorted);
  }
}
