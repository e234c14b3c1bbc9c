/**
Every allocation of pages is a run of steps of the snapshot protocol: perhaps a look at the reader table,
the records that are consumed, and the pages that are taken.
*/
module AllocSteps {
  import opened Common
  import opened IdList
  import opened PageAlloc
  import Mvcc

  // ---------------------------------------------------------------- runs of enabled steps

  ghost predicate Can(e: Mvcc.Env, steps: seq<Mvcc.Step>)
    decreases |steps|
  {
    steps == [] || (Mvcc.Enabled(e, steps[0]) && Can(Mvcc.Apply(e, steps[0]), steps[1..]))
  }

  ghost function After(e: Mvcc.Env, steps: seq<Mvcc.Step>): Mvcc.Env
    requires Can(e, steps)
    decreases |steps|
  {
    if steps == [] then e else After(Mvcc.Apply(e, steps[0]), steps[1..])
  }

  lemma {:induction false} CanConcat(e: Mvcc.Env, a: seq<Mvcc.Step>, b: seq<Mvcc.Step>)
    requires Can(e, a) && Can(After(e, a), b)
    ensures Can(e, a + b) && After(e, a + b) == After(After(e, a), b)
    decreases |a|
  {
    if a == [] {
      assert a + b == b;
    } else {
      CanConcat(Mvcc.Apply(e, a[0]), a[1..], b);
      assert (a + b)[0] == a[0] && (a + b)[1..] == a[1..] + b;
    }
  }

  lemma {:induction false} CanKeeps(e: Mvcc.Env, steps: seq<Mvcc.Step>)
    requires Can(e, steps) && Mvcc.Inv(e)
    ensures Mvcc.Inv(After(e, steps))
    decreases |steps|
  {
    if steps != [] {
      Mvcc.StepKeeps(e, steps[0]);
      CanKeeps(Mvcc.Apply(e, steps[0]), steps[1..]);
    }
  }

  lemma CanOne(e: Mvcc.Env, s: Mvcc.Step)
    requires Mvcc.Enabled(e, s)
    ensures Can(e, [s]) && After(e, [s]) == Mvcc.Apply(e, s)
  {
    assert [s][1..] == [];
  }

  /** Nothing but the write transaction and the cached oldest id changes. */
  ghost predicate Kept(e: Mvcc.Env, e': Mvcc.Env) {
    e' == e.(writer := e'.writer, oldest := e'.oldest)
  }

  // ---------------------------------------------------------------- the allocator and the protocol

  /** What the allocator has, as sets. */
  datatype Stock = Stock(head: set<Id>, loose: set<Id>, next: nat, pglast: nat, oldest: nat)

  /** The records from lo on are those of the protocol that are not consumed yet. */
  ghost predicate SameRecords(records: map<nat, set<nat>>, pglast: nat, recs: seq<Rec>, lo: nat) {
    && (forall k :: k in records && pglast < k ==> exists i :: lo <= i < |recs| && recs[i].key == k)
    && (forall i :: lo <= i < |recs| ==>
          pglast < recs[i].key && recs[i].key in records && records[recs[i].key] == Pages(recs[i].ids))
  }

  /** The slots in use; a reader between two transactions has an id above all. */
  ghost predicate SameReaders(table: map<nat, Mvcc.Meta>, txnid: nat, readers: seq<Reader>) {
    && (forall r :: r in table ==> r < |readers| && readers[r].pid != 0 && readers[r].txnid == table[r].txnid)
    && (forall r :: 0 <= r < |readers| && readers[r].pid != 0 && readers[r].txnid < txnid ==> r in table)
  }

  ghost predicate Mirrors(e: Mvcc.Env, s: Stock, recs: seq<Rec>, lo: nat) {
    && Mvcc.WriterIn(e, Mvcc.Active) && e.oldest == s.oldest && lo <= |recs|
    && var w := e.writer.value;
       && w.head == s.head && w.loose == s.loose && w.next == s.next && w.pglast == s.pglast
       && SameRecords(w.records, w.pglast, recs, lo)
  }

  /** A look at the reader table. */
  lemma LookStep(e: Mvcc.Env, s: Stock, recs: seq<Rec>, lo: nat, o: nat, readers: seq<Reader>)
    requires Mirrors(e, s, recs, lo) && SameReaders(e.readers, e.writer.value.txnid, readers)
    requires IsOldest(o, e.writer.value.txnid, readers)
    ensures Mvcc.Enabled(e, Mvcc.FindOldest(o))
    ensures Mirrors(Mvcc.Apply(e, Mvcc.FindOldest(o)), s.(oldest := o), recs, lo)
    ensures Kept(e, Mvcc.Apply(e, Mvcc.FindOldest(o)))
  {
    var txnid := e.writer.value.txnid;
    if o != txnid - 1 {
      var r :| 0 <= r < |readers| && readers[r].pid != 0 && o == readers[r].txnid;
      assert r in e.readers;
    }
  }

  /** A record that is old enough is the next one to be consumed. */
  lemma ConsumeStep(e: Mvcc.Env, s: Stock, recs: seq<Rec>, lo: nat)
    requires Mirrors(e, s, recs, lo) && KeysAscend(recs) && lo < |recs| && recs[lo].key < s.oldest
    ensures var key := recs[lo].key;
      && Mvcc.Enabled(e, Mvcc.Consume(key)) && Kept(e, Mvcc.Apply(e, Mvcc.Consume(key)))
      && Mirrors(Mvcc.Apply(e, Mvcc.Consume(key)), s.(head := s.head + Pages(recs[lo].ids), pglast := key), recs,
                 lo + 1)
  {
    var key, w := recs[lo].key, e.writer.value;
    forall k | k in w.records && w.pglast < k ensures key <= k {
      var i :| lo <= i < |recs| && recs[i].key == k;
    }
    forall k | k in w.records && key < k ensures exists i :: lo + 1 <= i < |recs| && recs[i].key == k {
      var i :| lo <= i < |recs| && recs[i].key == k;
      assert lo + 1 <= i;
    }
  }

  function Consumes(recs: seq<Rec>, lo: nat, hi: nat): seq<Mvcc.Step>
    requires lo <= hi <= |recs|
    decreases hi - lo
  {
    if lo == hi then [] else [Mvcc.Consume(recs[lo].key)] + Consumes(recs, lo + 1, hi)
  }

  lemma {:induction false} PagesFirst(recs: seq<Rec>, lo: nat, hi: nat)
    requires lo < hi <= |recs|
    ensures RecPages(recs, lo, hi) == Pages(recs[lo].ids) + RecPages(recs, lo + 1, hi)
    decreases hi
  {
    if lo + 1 < hi { PagesFirst(recs, lo, hi - 1); }
  }

  /** The stock after the records lo..hi-1. */
  ghost function Consumed(s: Stock, recs: seq<Rec>, lo: nat, hi: nat): Stock
    requires lo <= hi <= |recs|
  {
    s.(head := s.head + RecPages(recs, lo, hi), pglast := if lo == hi then s.pglast else recs[hi - 1].key)
  }

  lemma {:induction false} ConsumeSteps(e: Mvcc.Env, s: Stock, recs: seq<Rec>, lo: nat, hi: nat)
    requires Mirrors(e, s, recs, lo) && KeysAscend(recs) && lo <= hi <= |recs|
    requires forall k :: lo <= k < hi ==> recs[k].key < s.oldest
    ensures Can(e, Consumes(recs, lo, hi)) && Kept(e, After(e, Consumes(recs, lo, hi)))
    ensures Mirrors(After(e, Consumes(recs, lo, hi)), Consumed(s, recs, lo, hi), recs, hi)
    decreases hi - lo
  {
    if lo == hi {
      assert s.head + {} == s.head;
    } else {
      var step := Mvcc.Consume(recs[lo].key);
      ConsumeStep(e, s, recs, lo);
      var e', s' := Mvcc.Apply(e, step), s.(head := s.head + Pages(recs[lo].ids), pglast := recs[lo].key);
      ConsumeSteps(e', s', recs, lo + 1, hi);
      assert Consumes(recs, lo, hi)[1..] == Consumes(recs, lo + 1, hi);
      PagesFirst(recs, lo, hi);
      assert s'.head + RecPages(recs, lo + 1, hi) == s.head + RecPages(recs, lo, hi);
    }
  }

  // ---------------------------------------------------------------- the pages taken

  lemma RunIsRange(pg: Id, num: nat)
    ensures Pages(Run(pg, num)) == Mvcc.Range(pg, pg + num)
  {
    forall x: nat ensures x in Pages(Run(pg, num)) <==> x in Mvcc.Range(pg, pg + num) {
      if pg <= x < pg + num {
        assert Run(pg, num)[pg + num - 1 - x] == x;
        assert Mvcc.Between(pg, x, pg + num);
      }
    }
  }

  ghost predicate Owns(e: Mvcc.Env, pg: Id, num: nat) {
    Mvcc.WriterIn(e, Mvcc.Active) && Pages(Run(pg, num)) <= e.writer.value.owned
  }

  lemma TakeLoose(e: Mvcc.Env, s: Stock, recs: seq<Rec>, lo: nat, pg: Id, c: Mvcc.Content)
    requires Mirrors(e, s, recs, lo) && pg in s.loose
    ensures Mvcc.Enabled(e, Mvcc.AllocLoose(pg, c))
    ensures Mirrors(Mvcc.Apply(e, Mvcc.AllocLoose(pg, c)), s.(loose := s.loose - {pg}), recs, lo)
    ensures Owns(Mvcc.Apply(e, Mvcc.AllocLoose(pg, c)), pg, 1)
  {
  }

  lemma TakeRun(e: Mvcc.Env, s: Stock, recs: seq<Rec>, lo: nat, pg: Id, num: nat, c: Mvcc.Content)
    requires Mirrors(e, s, recs, lo) && Pages(Run(pg, num)) <= s.head
    ensures Mvcc.Enabled(e, Mvcc.AllocHead(pg, num, c))
    ensures Mirrors(Mvcc.Apply(e, Mvcc.AllocHead(pg, num, c)), s.(head := s.head - Pages(Run(pg, num))), recs, lo)
    ensures Owns(Mvcc.Apply(e, Mvcc.AllocHead(pg, num, c)), pg, num)
  {
    RunIsRange(pg, num);
  }

  lemma TakeNew(e: Mvcc.Env, s: Stock, recs: seq<Rec>, lo: nat, num: nat, c: Mvcc.Content)
    requires Mirrors(e, s, recs, lo) && s.next + num < e.maxpg
    ensures Mvcc.Enabled(e, Mvcc.AllocFresh(num, c))
    ensures Mirrors(Mvcc.Apply(e, Mvcc.AllocFresh(num, c)), s.(next := s.next + num), recs, lo)
    ensures Owns(Mvcc.Apply(e, Mvcc.AllocFresh(num, c)), s.next, num)
  {
    RunIsRange(s.next, num);
  }

  /** No snapshot that a reader or a recovery may follow has a page the writer allocated. */
  lemma OwnedApart(e: Mvcc.Env, steps: seq<Mvcc.Step>, pg: Id, num: nat)
    requires Can(e, steps) && Mvcc.Inv(e) && Owns(After(e, steps), pg, num) && Kept(e, After(e, steps))
    ensures forall m :: Mvcc.Pinned(e, m) ==> Pages(Run(pg, num)) !! m.snap.pages.Keys
  {
    CanKeeps(e, steps);
    var e' := After(e, steps);
    forall m | Mvcc.Pinned(e, m) ensures Pages(Run(pg, num)) !! m.snap.pages.Keys {
      assert Mvcc.Pinned(e', m) && Mvcc.Apart(e'.writer.value, m);
    }
  }

  /** The steps up to the point where pages are taken. */
  lemma Reclaim(e: Mvcc.Env, s: Stock, recs: seq<Rec>, lo: nat, hi: nat, o: nat, readers: seq<Reader>)
    returns (steps: seq<Mvcc.Step>)
    requires Mirrors(e, s, recs, lo) && SameReaders(e.readers, e.writer.value.txnid, readers) && KeysAscend(recs)
    requires o == s.oldest || IsOldest(o, e.writer.value.txnid, readers)
    requires lo <= hi <= |recs| && forall k :: lo <= k < hi ==> recs[k].key < o
    ensures Can(e, steps) && Kept(e, After(e, steps))
    ensures Mirrors(After(e, steps), Consumed(s.(oldest := o), recs, lo, hi), recs, hi)
  {
    if o == s.oldest {
      ConsumeSteps(e, s, recs, lo, hi);
      return Consumes(recs, lo, hi);
    }
    var look := Mvcc.FindOldest(o);
    LookStep(e, s, recs, lo, o, readers);
    CanOne(e, look);
    ConsumeSteps(Mvcc.Apply(e, look), s.(oldest := o), recs, lo, hi);
    CanConcat(e, [look], Consumes(recs, lo, hi));
    return [look] + Consumes(recs, lo, hi);
  }

  lemma AndThen(e: Mvcc.Env, steps: seq<Mvcc.Step>, s: Mvcc.Step)
    requires Can(e, steps) && Mvcc.Enabled(After(e, steps), s)
    ensures Can(e, steps + [s]) && After(e, steps + [s]) == Mvcc.Apply(After(e, steps), s)
  {
    CanOne(After(e, steps), s);
    CanConcat(e, steps, [s]);
  }

  ghost function StockOf(a: Allocator): Stock
    requires Valid(a.pghead)
    reads a, a.pghead
  {
    Stock(Pages(Ids(a.pghead)), Pages(a.loose), a.next, a.pglast, a.pgoldest)
  }

  lemma LooseLeft(loose: seq<Id>)
    requires loose != [] && forall i, j :: 0 <= i < j < |loose| ==> loose[i] != loose[j]
    ensures Pages(loose[..|loose| - 1]) == Pages(loose) - {loose[|loose| - 1]}
    ensures loose[|loose| - 1] in Pages(loose)
  {
    var n := |loose| - 1;
    assert loose == loose[..n] + [loose[n]];
  }

  /** The stock s1 is what is left of s0 when the call answered r after the records lo..hi-1. */
  ghost predicate Left(s0: Stock, s1: Stock, recs: seq<Rec>, lo: nat, hi: nat, num: nat, maxpg: nat, r: Outcome) {
    && lo <= hi <= |recs| && (forall k :: lo <= k < hi ==> recs[k].key < s1.oldest)
    && s1.loose == s0.loose && s1.pglast == Consumed(s0, recs, lo, hi).pglast
    && var pool := s0.head + RecPages(recs, lo, hi);
       match r
       case Page(pg) =>
         if s1.next == s0.next
         then Pages(Run(pg, num)) <= pool && s1.head == pool - Pages(Run(pg, num))
         else pg == s0.next && s1.next == pg + num < maxpg && s1.head == pool
       case _ => s1.next == s0.next && s1.head == pool
  }

  ghost function LastStep(s0: Stock, s1: Stock, pg: nat, num: nat, c: Mvcc.Content): Mvcc.Step {
    if s1.next == s0.next then Mvcc.AllocHead(pg, num, c) else Mvcc.AllocFresh(num, c)
  }

  lemma LeftBySteps(e: Mvcc.Env, s0: Stock, s1: Stock, recs: seq<Rec>, lo: nat, hi: nat, num: nat, r: Outcome,
                    c: Mvcc.Content, readers: seq<Reader>) returns (steps: seq<Mvcc.Step>)
    requires Mirrors(e, s0, recs, lo) && SameReaders(e.readers, e.writer.value.txnid, readers) && KeysAscend(recs)
    requires s1.oldest == s0.oldest || IsOldest(s1.oldest, e.writer.value.txnid, readers)
    requires Left(s0, s1, recs, lo, hi, num, e.maxpg, r)
    ensures Can(e, steps) && Mirrors(After(e, steps), s1, recs, hi) && Kept(e, After(e, steps))
    ensures r.Page? ==> steps != [] && steps[|steps| - 1] == LastStep(s0, s1, r.pgno, num, c)
    ensures r.Page? ==> Owns(After(e, steps), r.pgno, num)
  {
    steps := Reclaim(e, s0, recs, lo, hi, s1.oldest, readers);
    var s, e1 := Consumed(s0.(oldest := s1.oldest), recs, lo, hi), After(e, steps);
    if r.Page? {
      var last := LastStep(s0, s1, r.pgno, num, c);
      if s1.next == s0.next {
        TakeRun(e1, s, recs, hi, r.pgno, num, c);
      } else {
        TakeNew(e1, s, recs, hi, num, c);
      }
      AndThen(e, steps, last);
      steps := steps + [last];
    }
  }

  lemma LooseSteps(e: Mvcc.Env, s0: Stock, loose: seq<Id>, recs: seq<Rec>, lo: nat, c: Mvcc.Content)
    requires Mirrors(e, s0, recs, lo) && s0.loose == Pages(loose) && loose != []
    requires forall i, j :: 0 <= i < j < |loose| ==> loose[i] != loose[j]
    ensures var n := |loose| - 1; var s := Mvcc.AllocLoose(loose[n], c);
      && Can(e, [s]) && Mirrors(After(e, [s]), s0.(loose := Pages(loose[..n])), recs, lo)
      && Kept(e, After(e, [s])) && Owns(After(e, [s]), loose[n], 1)
  {
    LooseLeft(loose);
    TakeLoose(e, s0, recs, lo, loose[|loose| - 1], c);
    CanOne(e, Mvcc.AllocLoose(loose[|loose| - 1], c));
  }

  /** mdb_page_alloc is a run of enabled steps that ends in the state of the allocator. */
  method AllocRun(a: Allocator, num: nat, ghost lo: nat, ghost e: Mvcc.Env, ghost c: Mvcc.Content)
    returns (r: Outcome, ghost hi: nat, ghost steps: seq<Mvcc.Step>)
    requires a.Ok(lo) && 0 < num && forall i, j :: 0 <= i < j < |a.loose| ==> a.loose[i] != a.loose[j]
    requires Mirrors(e, StockOf(a), a.recs, lo) && e.maxpg == a.maxpg && e.writer.value.txnid == a.txnid
    requires SameReaders(e.readers, a.txnid, a.readers[..])
    modifies a, a.pghead
    ensures a.Ok(hi) && Can(e, steps) && Mirrors(After(e, steps), StockOf(a), a.recs, hi) && Kept(e, After(e, steps))
    ensures r.Page? ==>
      && steps != []
      && steps[|steps| - 1] ==
         if num == 1 && old(a.loose) != [] then Mvcc.AllocLoose(r.pgno, c)
         else if a.next == old(a.next) then Mvcc.AllocHead(r.pgno, num, c) else Mvcc.AllocFresh(num, c)
    ensures r.Page? && Mvcc.Inv(e) ==>
      forall m :: Mvcc.Pinned(e, m) ==> Pages(Run(r.pgno, num)) !! m.snap.pages.Keys
  {
    ghost var s0, loose0, full := StockOf(a), a.loose, a.dirtyRoom == 0;
    r, hi := a.Alloc(num, lo);
    if num == 1 && loose0 != [] {
      LooseSteps(e, s0, loose0, a.recs, lo, c);
      steps := [Mvcc.AllocLoose(r.pgno, c)];
    } else if full {
      steps := [];
    } else {
      ghost var s1 := StockOf(a);
      assert Left(s0, s1, a.recs, lo, hi, num, a.maxpg, r);
      steps := LeftBySteps(e, s0, s1, a.recs, lo, hi, num, r, c, a.readers[..]);
    }
    if r.Page? && Mvcc.Inv(e) { OwnedApart(e, steps, r.pgno, num); }
  }
}
