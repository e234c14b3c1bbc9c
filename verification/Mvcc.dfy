/**
The multi-version commit and page-reclaim protocol of an LMDB environment, as a step machine.

One writer at a time copies pages before changing them; readers pin the meta page they started
from; freed pages are filed in the free database under the id of the transaction that freed them
and are handed out again only once no reader can reach them.  Page writes reach the disk in any
order until the file is synced; the meta page is written last, atomically, over the older one.
*/
module Mvcc {
  import opened Common

  /** The bytes of one page. */
  type Content = seq<int>

  /** What a meta page denotes: the pages reachable from its two roots with their contents, the
      records of the free database, and the first page number never used. */
  datatype Snapshot = Snapshot(pages: map<nat, Content>, free: map<nat, set<nat>>, next: nat)

  datatype Meta = Meta(txnid: nat, snap: Snapshot)

  datatype Phase = Active | Saved | Synced | Committed

  /** The write transaction.  `live` holds the pages of its trees, `owned` every page it ever
      allocated, `head` and `pglast` are me_pghead and me_pglast, `freed` is mt_free_pgs. */
  datatype Writer = Writer(
    txnid: nat, live: map<nat, Content>, owned: set<nat>, loose: set<nat>, freed: set<nat>,
    head: set<nat>, pglast: nat, records: map<nat, set<nat>>, next: nat, phase: Phase)

  /** The environment.  `disk` is what the page cache shows, `durable` what a crash would leave.
      `txnid` is mti_txnid, `readers` the occupied slots of the reader table with the meta each
      reader copied, `oldest` the cached me_pgoldest, `maxpg` the size of the map in pages. */
  datatype Env = Env(
    disk: map<nat, Content>, durable: map<nat, Content>, meta0: Meta, meta1: Meta,
    txnid: nat, readers: map<nat, Meta>, oldest: nat, writer: Option<Writer>, maxpg: nat)

  datatype Step =
    | ReaderBegin(slot: nat)
    | ReaderEnd(slot: nat)
    | WriterBegin
    | FindOldest(o: nat)
    | Consume(key: nat)
    | AllocLoose(pg: nat, c: Content)
    | AllocHead(first: nat, num: nat, c: Content)
    | AllocFresh(num: nat, c: Content)
    | Modify(pg: nat, c: Content)
    | FreeToList(ps: set<nat>)
    | FreeToLoose(pg: nat)
    | FreeToHead(ps: set<nat>)
    | LooseToFreed
    | SaveFreelist(refile: map<nat, set<nat>>)
    | WriteOut(pg: nat, c: Content)
    | Writeback(pg: nat)
    | Sync
    | WriteMeta
    | Publish
    | Abort
    | Crash

  // ---------------------------------------------------------------- helpers

  predicate Between(lo: nat, p: nat, hi: nat) { lo <= p < hi }

  /** The page numbers lo..hi-1. */
  function Range(lo: nat, hi: nat): set<nat> { set p: nat | lo <= p < hi && Between(lo, p, hi) }

  /** All pages filed in records with a key greater than `lo`. */
  function Above(recs: map<nat, set<nat>>, lo: nat): set<nat> {
    set k, p | k in recs.Keys && lo < k && p in recs[k] :: p
  }

  /** mdb_env_pick_meta: the slot of the newer meta page. */
  function PickMeta(e: Env): nat { if e.meta0.txnid < e.meta1.txnid then 1 else 0 }

  function MetaAt(e: Env, slot: nat): Meta { if slot % 2 == 0 then e.meta0 else e.meta1 }

  function Newest(e: Env): Meta { MetaAt(e, PickMeta(e)) }

  /** The result of mdb_find_oldest: the least of txnid-1 and the ids of the live readers. */
  ghost predicate IsOldest(o: nat, txnid: nat, readers: map<nat, Meta>) {
    && o < txnid
    && (forall r :: r in readers ==> o <= readers[r].txnid)
    && (o == txnid - 1 || exists r :: r in readers && o == readers[r].txnid)
  }

  /** The free database after mdb_freelist_save: the records not consumed, the transaction's own
      freed pages under its own id, and the unused reclaimed pages under recycled keys. */
  function NewRecords(w: Writer, refile: map<nat, set<nat>>): map<nat, set<nat>> {
    (map k | k in w.records && w.pglast < k :: w.records[k])
      + refile
      + (if w.freed == {} then map[] else map[w.txnid := w.freed])
  }

  // ---------------------------------------------------------------- the steps

  ghost predicate WriterIn(e: Env, ph: Phase) { e.writer.Some? && e.writer.value.phase == ph }

  /** What the code checks, and what its callers guarantee, before each step. */
  ghost predicate Enabled(e: Env, s: Step) {
    match s
    case ReaderBegin(slot) => slot !in e.readers
    case ReaderEnd(slot) => slot in e.readers
    case WriterBegin => e.writer.None?
    case Writeback(pg) => pg in e.disk
    case Abort => e.writer.Some? && e.writer.value.phase != Committed
    case Crash => true
    case WriteOut(pg, _) =>
      (WriterIn(e, Active) || WriterIn(e, Saved)) && pg in e.writer.value.owned
    case Sync => WriterIn(e, Saved) && Flushed(e.writer.value.live, e.disk)
    case WriteMeta => WriterIn(e, Synced)
    case Publish => WriterIn(e, Committed)
    case FindOldest(o) => WriterIn(e, Active) && IsOldest(o, e.writer.value.txnid, e.readers)
    case _ => WriterIn(e, Active) && WriterEnabled(e.writer.value, s, e.oldest, e.maxpg)
  }

  /** The steps that only touch the write transaction's own lists. */
  ghost predicate WriterEnabled(w: Writer, s: Step, oldest: nat, maxpg: nat) {
    match s
    case Consume(key) =>
      && key in w.records && w.pglast < key < oldest
      && forall k :: k in w.records && w.pglast < k ==> key <= k
    case AllocLoose(pg, _) => pg in w.loose
    case AllocHead(first, num, _) => Range(first, first + num) <= w.head
    case AllocFresh(num, _) => w.next + num < maxpg
    case Modify(pg, _) => pg in w.owned && pg in w.live
    case FreeToList(ps) => ps <= w.live.Keys
    case FreeToLoose(pg) => pg in w.owned && pg in w.live
    case FreeToHead(ps) => ps <= w.owned && ps <= w.live.Keys && 0 < w.pglast
    case LooseToFreed => w.pglast == 0
    case SaveFreelist(refile) =>
      && (forall k :: k in refile ==> 1 <= k <= w.pglast)
      && Separate(refile, 0)
      && Above(refile, 0) == w.head + w.loose
    case _ => false
  }

  ghost predicate Flushed(live: map<nat, Content>, disk: map<nat, Content>) {
    forall p :: p in live ==> p in disk && disk[p] == live[p]
  }

  function Begin(e: Env): Writer {
    var m := MetaAt(e, e.txnid);
    Writer(e.txnid + 1, m.snap.pages, {}, {}, {}, {}, 0, m.snap.free, m.snap.next, Active)
  }

  function Fill(ps: set<nat>, c: Content): map<nat, Content> { map p | p in ps :: c }

  ghost function WriterApply(w: Writer, s: Step): Writer
    requires s.Consume? ==> s.key in w.records
  {
    match s
    case Consume(key) => w.(head := w.head + w.records[key], pglast := key)
    case AllocLoose(pg, c) =>
      w.(loose := w.loose - {pg}, live := w.live + Fill({pg}, c), owned := w.owned + {pg})
    case AllocHead(first, num, c) =>
      var ps := Range(first, first + num);
      w.(head := w.head - ps, live := w.live + Fill(ps, c), owned := w.owned + ps)
    case AllocFresh(num, c) =>
      var ps := Range(w.next, w.next + num);
      w.(next := w.next + num, live := w.live + Fill(ps, c), owned := w.owned + ps)
    case Modify(pg, c) => w.(live := w.live[pg := c])
    case FreeToList(ps) => w.(live := w.live - ps, freed := w.freed + ps)
    case FreeToLoose(pg) => w.(live := w.live - {pg}, loose := w.loose + {pg})
    case FreeToHead(ps) => w.(live := w.live - ps, head := w.head + ps)
    case LooseToFreed => w.(freed := w.freed + w.loose, loose := {})
    case SaveFreelist(refile) =>
      w.(records := NewRecords(w, refile), head := {}, loose := {}, freed := {}, pglast := 0,
         phase := Saved)
    case _ => w
  }

  /** Overwrites the older meta page with the transaction's roots (mdb_env_write_meta). */
  function PutMeta(e: Env, w: Writer): Env {
    var m := Meta(w.txnid, Snapshot(w.live, w.records, w.next));
    if w.txnid % 2 == 0 then e.(meta0 := m) else e.(meta1 := m)
  }

  ghost function Apply(e: Env, s: Step): Env
    requires Enabled(e, s)
  {
    match s
    case ReaderBegin(slot) => e.(readers := e.readers[slot := MetaAt(e, e.txnid)])
    case ReaderEnd(slot) => e.(readers := e.readers - {slot})
    case WriterBegin => e.(writer := Some(Begin(e)))
    case FindOldest(o) => e.(oldest := o)
    case WriteOut(pg, c) => e.(disk := e.disk[pg := c])
    case Writeback(pg) => e.(durable := e.durable[pg := e.disk[pg]])
    case Sync => e.(durable := e.disk, writer := Some(e.writer.value.(phase := Synced)))
    case WriteMeta =>
      PutMeta(e, e.writer.value).(writer := Some(e.writer.value.(phase := Committed)))
    case Publish => e.(txnid := e.writer.value.txnid, writer := None)
    case Abort => e.(writer := None)
    case Crash =>
      e.(disk := e.durable, readers := map[], writer := None, txnid := Newest(e).txnid, oldest := 0)
    case _ => e.(writer := Some(WriterApply(e.writer.value, s)))
  }

  // ---------------------------------------------------------------- the invariant

  /** No page is filed under two keys. */
  ghost predicate Separate(recs: map<nat, set<nat>>, lo: nat) {
    forall k1, k2 :: k1 in recs && k2 in recs && lo < k1 < k2 ==> recs[k1] !! recs[k2]
  }

  /** Every page number from 2 up to `next` has exactly one role. */
  ghost predicate Partition(live: set<nat>, head: set<nat>, loose: set<nat>, freed: set<nat>,
                            filed: set<nat>, next: nat)
  {
    && (forall p :: p in live || p in head || p in loose || p in freed || p in filed <==> 2 <= p < next)
    && live !! head && live !! loose && live !! freed && live !! filed
    && head !! loose && head !! freed && head !! filed
    && loose !! freed && loose !! filed && freed !! filed
  }

  ghost predicate SnapOk(s: Snapshot) {
    && 2 <= s.next && 0 !in s.free && Separate(s.free, 0)
    && Partition(s.pages.Keys, {}, {}, {}, Above(s.free, 0), s.next)
  }

  /** A meta some reader, or a recovery, may still follow. */
  ghost predicate Pinned(e: Env, m: Meta) {
    m == e.meta0 || m == e.meta1 || exists r :: r in e.readers && e.readers[r] == m
  }

  /** A record key tells the truth to everyone who may rely on it: pages filed under k are not
      reachable from a pinned snapshot with an id of k or more. */
  ghost predicate Truthful(recs: map<nat, set<nat>>, lo: nat, m: Meta) {
    forall k :: k in recs && lo < k <= m.txnid ==> recs[k] !! m.snap.pages.Keys
  }

  ghost predicate MetasOk(e: Env) {
    && MetaAt(e, e.txnid).txnid == e.txnid
    && var other := MetaAt(e, e.txnid + 1).txnid;
       if WriterIn(e, Committed) then other == e.txnid + 1
       else other + 1 == e.txnid || (other == 0 && e.txnid == 0)
  }

  ghost predicate PinnedOk(e: Env, m: Meta) {
    && SnapOk(m.snap)
    && Flushed(m.snap.pages, e.disk)
    && Flushed(m.snap.pages, e.durable)
    && m.txnid <= Newest(e).txnid && m.snap.next <= Newest(e).snap.next
    && Truthful(Newest(e).snap.free, 0, m)
  }

  ghost predicate KeysUpTo(recs: map<nat, set<nat>>, hi: nat) {
    forall k :: k in recs ==> 1 <= k <= hi
  }

  /** The pages the writer may still write are invisible to a pinned snapshot. */
  ghost predicate Apart(w: Writer, m: Meta) {
    && w.owned !! m.snap.pages.Keys
    && w.head !! m.snap.pages.Keys
    && w.loose !! m.snap.pages.Keys
    && Truthful(w.records, w.pglast, m)
  }

  ghost predicate Conserved(w: Writer) {
    && Separate(w.records, w.pglast)
    && Partition(w.live.Keys, w.head, w.loose, w.freed, Above(w.records, w.pglast), w.next)
  }

  ghost predicate WriterOk(e: Env, w: Writer) {
    && w.txnid == e.txnid + 1 && 2 <= w.next
    && Conserved(w)
    && KeysUpTo(w.records, if w.phase == Active then e.txnid else w.txnid)
    && w.pglast <= e.txnid
    && (w.phase != Active ==> w.head == {} && w.loose == {} && w.freed == {} && w.pglast == 0)
    && (w.phase == Committed ==>
          MetaAt(e, w.txnid) == Meta(w.txnid, Snapshot(w.live, w.records, w.next)))
    && (w.phase != Committed ==> forall m :: Pinned(e, m) ==> Apart(w, m))
    && (w.phase == Synced ==> Flushed(w.live, e.disk) && Flushed(w.live, e.durable))
    && MetaAt(e, e.txnid).snap.next <= w.next
  }

  ghost predicate OldestOk(e: Env) {
    e.oldest <= e.txnid && forall r :: r in e.readers ==> e.oldest <= e.readers[r].txnid
  }

  ghost predicate Inv(e: Env) {
    && MetasOk(e)
    && KeysUpTo(Newest(e).snap.free, Newest(e).txnid)
    && (forall m :: Pinned(e, m) ==> PinnedOk(e, m))
    && OldestOk(e)
    && (e.writer.Some? ==> WriterOk(e, e.writer.value))
  }
  // ---------------------------------------------------------------- every step keeps it

  lemma NewestIsPublished(e: Env)
    requires MetasOk(e) && !WriterIn(e, Committed)
    ensures Newest(e) == MetaAt(e, e.txnid)
  {
  }

  lemma ReaderBeginKeeps(e: Env, slot: nat)
    requires Inv(e) && slot !in e.readers
    ensures Inv(Apply(e, ReaderBegin(slot)))
  {
    var e' := Apply(e, ReaderBegin(slot));
    forall m | Pinned(e', m) ensures Pinned(e, m) {
      if m != e.meta0 && m != e.meta1 {
        var r :| r in e'.readers && e'.readers[r] == m;
      }
    }
  }

  lemma ReaderEndKeeps(e: Env, slot: nat)
    requires Inv(e) && slot in e.readers
    ensures Inv(Apply(e, ReaderEnd(slot)))
  {
    var e' := Apply(e, ReaderEnd(slot));
    forall m | Pinned(e', m) ensures Pinned(e, m) {
      if m != e.meta0 && m != e.meta1 {
        var r :| r in e'.readers && e'.readers[r] == m;
        assert r in e.readers;
      }
    }
  }

  /** A step that only changes the writer is judged on the writer alone. */
  lemma WriterOnly(e: Env, w': Writer)
    requires Inv(e) && !WriterIn(e, Committed) && w'.phase != Committed
    requires WriterOk(e, w')
    ensures Inv(e.(writer := Some(w')))
  {
    var e' := e.(writer := Some(w'));
    assert Newest(e') == Newest(e);
    assert forall m :: Pinned(e', m) <==> Pinned(e, m);
    forall m | Pinned(e', m) ensures PinnedOk(e', m) { assert PinnedOk(e, m); }
  }

  lemma WriterBeginKeeps(e: Env)
    requires Inv(e) && e.writer.None?
    ensures Inv(Apply(e, WriterBegin))
  {
    NewestIsPublished(e);
    assert Pinned(e, Newest(e));
    var w := Begin(e);
    assert PinnedOk(e, Newest(e));
    forall m | Pinned(e, m) ensures Apart(w, m) { assert PinnedOk(e, m); }
    WriterOnly(e, w);
  }

  lemma ConsumeConserves(w: Writer, key: nat, oldest: nat, maxpg: nat)
    requires Conserved(w) && WriterEnabled(w, Consume(key), oldest, maxpg)
    ensures Conserved(WriterApply(w, Consume(key)))
  {
    var rest := Above(w.records, key);
    assert Above(w.records, w.pglast) == w.records[key] + rest;
    assert w.records[key] !! rest;
    FiledToHead(w.live.Keys, w.head, w.loose, w.freed, rest, w.next, w.records[key]);
  }

  // Pages that change roles, role by role.

  lemma FiledToHead(live: set<nat>, head: set<nat>, loose: set<nat>, freed: set<nat>, filed: set<nat>,
                    next: nat, ps: set<nat>)
    requires Partition(live, head, loose, freed, ps + filed, next) && ps !! filed
    ensures Partition(live, head + ps, loose, freed, filed, next)
  {
  }

  lemma HeadToLive(live: set<nat>, head: set<nat>, loose: set<nat>, freed: set<nat>, filed: set<nat>,
                   next: nat, ps: set<nat>)
    requires Partition(live, head, loose, freed, filed, next) && ps <= head
    ensures Partition(live + ps, head - ps, loose, freed, filed, next)
  {
  }

  lemma LooseToLive(live: set<nat>, head: set<nat>, loose: set<nat>, freed: set<nat>, filed: set<nat>,
                    next: nat, ps: set<nat>)
    requires Partition(live, head, loose, freed, filed, next) && ps <= loose
    ensures Partition(live + ps, head, loose - ps, freed, filed, next)
  {
  }

  lemma NewToLive(live: set<nat>, head: set<nat>, loose: set<nat>, freed: set<nat>, filed: set<nat>,
                  next: nat, num: nat)
    requires Partition(live, head, loose, freed, filed, next) && 2 <= next
    ensures Partition(live + Range(next, next + num), head, loose, freed, filed, next + num)
  {
  }

  lemma LiveToOther(live: set<nat>, head: set<nat>, loose: set<nat>, freed: set<nat>, filed: set<nat>,
                    next: nat, ps: set<nat>)
    requires Partition(live, head, loose, freed, filed, next) && ps <= live
    ensures Partition(live - ps, head + ps, loose, freed, filed, next)
    ensures Partition(live - ps, head, loose + ps, freed, filed, next)
    ensures Partition(live - ps, head, loose, freed + ps, filed, next)
  {
  }

  lemma AllocConserves(w: Writer, s: Step, oldest: nat, maxpg: nat)
    requires Conserved(w) && 2 <= w.next && WriterEnabled(w, s, oldest, maxpg)
    requires s.AllocLoose? || s.AllocHead? || s.AllocFresh? || s.Modify?
    ensures Conserved(WriterApply(w, s))
  {
    var w' := WriterApply(w, s);
    var filed := Above(w.records, w.pglast);
    if s.AllocLoose? {
      LooseToLive(w.live.Keys, w.head, w.loose, w.freed, filed, w.next, {s.pg});
      assert w'.live.Keys == w.live.Keys + {s.pg};
    } else if s.AllocHead? {
      var ps := Range(s.first, s.first + s.num);
      HeadToLive(w.live.Keys, w.head, w.loose, w.freed, filed, w.next, ps);
      assert w'.live.Keys == w.live.Keys + ps;
    } else if s.AllocFresh? {
      NewToLive(w.live.Keys, w.head, w.loose, w.freed, filed, w.next, s.num);
      assert w'.live.Keys == w.live.Keys + Range(w.next, w.next + s.num);
    } else {
      assert w'.live.Keys == w.live.Keys;
    }
  }

  lemma FreeConserves(w: Writer, s: Step, oldest: nat, maxpg: nat)
    requires Conserved(w) && WriterEnabled(w, s, oldest, maxpg)
    requires s.FreeToList? || s.FreeToLoose? || s.FreeToHead? || s.LooseToFreed?
    ensures Conserved(WriterApply(w, s))
  {
    var w' := WriterApply(w, s);
    var filed := Above(w.records, w.pglast);
    if !s.LooseToFreed? {
      var ps := if s.FreeToLoose? then {s.pg} else s.ps;
      assert w'.live.Keys == w.live.Keys - ps;
      LiveToOther(w.live.Keys, w.head, w.loose, w.freed, filed, w.next, ps);
    }
  }

  /** A reclaimed record is older than every pinned snapshot, so its pages are nobody's. */
  lemma ConsumeKeeps(e: Env, key: nat)
    requires Inv(e) && Enabled(e, Consume(key))
    ensures Inv(Apply(e, Consume(key)))
  {
    var w := e.writer.value;
    var w' := WriterApply(w, Consume(key));
    forall m | Pinned(e, m) ensures Apart(w', m) {
      assert PinnedOk(e, m) && Apart(w, m);
      assert key <= m.txnid;
    }
    ConsumeConserves(w, key, e.oldest, e.maxpg);
    WriterOnly(e, w');
  }

  lemma MovesKeep(e: Env, s: Step)
    requires Inv(e) && IsMove(s) && Enabled(e, s)
    ensures Inv(Apply(e, s))
  {
    var w := e.writer.value;
    var w' := WriterApply(w, s);
    NewestIsPublished(e);
    forall m | Pinned(e, m) ensures Apart(w', m) {
      assert PinnedOk(e, m) && Apart(w, m);
    }
    if s.AllocLoose? || s.AllocHead? || s.AllocFresh? || s.Modify? {
      AllocConserves(w, s, e.oldest, e.maxpg);
    } else {
      FreeConserves(w, s, e.oldest, e.maxpg);
    }
    WriterOnly(e, w');
  }

  /** Leftover pages re-filed under smaller keys lie outside every pinned snapshot, so the smaller
      keys are still truthful; the transaction's own id is newer than every pinned snapshot. */
  lemma SaveKeeps(e: Env, refile: map<nat, set<nat>>)
    requires Inv(e) && Enabled(e, SaveFreelist(refile))
    ensures Inv(Apply(e, SaveFreelist(refile)))
  {
    var w := e.writer.value;
    var w' := WriterApply(w, SaveFreelist(refile));
    NewestIsPublished(e);
    SaveConserves(w, refile, e.oldest, e.maxpg, e.txnid);
    forall m | Pinned(e, m) ensures Apart(w', m) {
      assert PinnedOk(e, m) && Apart(w, m);
      forall k | k in w'.records && 0 < k <= m.txnid ensures w'.records[k] !! m.snap.pages.Keys {
        if k in refile {
          assert refile[k] <= Above(refile, 0);
        }
      }
    }
    WriterOnly(e, w');
  }

  /** Where a saved record's pages come from. */
  lemma RecordOrigin(w: Writer, refile: map<nat, set<nat>>, k: nat)
    requires k in NewRecords(w, refile) && w.pglast < w.txnid && w.txnid !in w.records
    requires forall k :: k in refile ==> 1 <= k <= w.pglast
    ensures k == w.txnid ==> NewRecords(w, refile)[k] == w.freed
    ensures k in refile ==> k <= w.pglast && NewRecords(w, refile)[k] == refile[k] <= Above(refile, 0)
    ensures k !in refile && k != w.txnid ==>
              k in w.records && w.pglast < k && NewRecords(w, refile)[k] == w.records[k]
  {
  }

  lemma SavedPages(w: Writer, refile: map<nat, set<nat>>)
    requires w.pglast < w.txnid && w.txnid !in w.records
    requires forall k :: k in refile ==> 1 <= k <= w.pglast
    ensures Above(NewRecords(w, refile), 0)
         == Above(w.records, w.pglast) + Above(refile, 0) + w.freed
  {
    var saved := NewRecords(w, refile);
    forall p | p in Above(saved, 0)
      ensures p in Above(w.records, w.pglast) + Above(refile, 0) + w.freed
    {
      var k :| k in saved && 0 < k && p in saved[k];
      RecordOrigin(w, refile, k);
    }
    forall p | p in Above(w.records, w.pglast) + Above(refile, 0) + w.freed
      ensures p in Above(saved, 0)
    {
      if p in w.freed {
        assert w.txnid in saved && p in saved[w.txnid];
      } else if p in Above(refile, 0) {
        var k :| k in refile && 0 < k && p in refile[k];
        assert k in saved && p in saved[k];
      } else {
        var k :| k in w.records && w.pglast < k && p in w.records[k];
        assert k in saved && p in saved[k];
      }
    }
  }

  lemma SavedSeparate(w: Writer, refile: map<nat, set<nat>>)
    requires Conserved(w) && w.pglast < w.txnid && w.txnid !in w.records
    requires forall k :: k in refile ==> 1 <= k <= w.pglast
    requires Separate(refile, 0) && Above(refile, 0) == w.head + w.loose
    ensures Separate(NewRecords(w, refile), 0)
  {
    var saved := NewRecords(w, refile);
    forall k1, k2 | k1 in saved && k2 in saved && 0 < k1 < k2 ensures saved[k1] !! saved[k2] {
      RecordOrigin(w, refile, k1);
      RecordOrigin(w, refile, k2);
      if k1 !in refile && k1 != w.txnid { assert w.records[k1] <= Above(w.records, w.pglast); }
      if k2 !in refile && k2 != w.txnid { assert w.records[k2] <= Above(w.records, w.pglast); }
    }
  }

  lemma SaveConserves(w: Writer, refile: map<nat, set<nat>>, oldest: nat, maxpg: nat, last: nat)
    requires Conserved(w) && WriterEnabled(w, SaveFreelist(refile), oldest, maxpg)
    requires KeysUpTo(w.records, last) && w.txnid == last + 1 && w.pglast <= last
    ensures Conserved(WriterApply(w, SaveFreelist(refile)))
    ensures KeysUpTo(NewRecords(w, refile), w.txnid)
  {
    SavedPages(w, refile);
    SavedSeparate(w, refile);
  }

  lemma WriteOutKeeps(e: Env, pg: nat, c: Content)
    requires Inv(e) && Enabled(e, WriteOut(pg, c))
    ensures Inv(Apply(e, WriteOut(pg, c)))
  {
    var e', w := Apply(e, WriteOut(pg, c)), e.writer.value;
    assert Newest(e') == Newest(e);
    assert forall m :: Pinned(e', m) <==> Pinned(e, m);
    forall m | Pinned(e', m) ensures PinnedOk(e', m) && Apart(w, m) {
      assert PinnedOk(e, m) && Apart(w, m);
    }
  }

  lemma DurableKeeps(e: Env, s: Step)
    requires Inv(e) && Enabled(e, s) && (s.Writeback? || s.Sync?)
    ensures Inv(Apply(e, s))
  {
    var e' := Apply(e, s);
    assert Newest(e') == Newest(e);
    assert forall m :: Pinned(e', m) <==> Pinned(e, m);
    forall m | Pinned(e', m) ensures PinnedOk(e', m) { assert PinnedOk(e, m); }
    if e'.writer.Some? && !WriterIn(e, Committed) {
      forall m | Pinned(e', m) ensures Apart(e'.writer.value, m) { assert Apart(e.writer.value, m); }
    }
  }

  /** The snapshot being committed is durable, conserved, and no record names one of its pages. */
  lemma CommittedOk(e: Env, w: Writer)
    requires Inv(e) && WriterIn(e, Synced) && w == e.writer.value
    ensures var m := Meta(w.txnid, Snapshot(w.live, w.records, w.next));
      SnapOk(m.snap) && Truthful(w.records, 0, m)
  {
    forall k | k in w.records && 0 < k <= w.txnid ensures w.records[k] !! w.live.Keys {
      assert w.records[k] <= Above(w.records, 0);
    }
  }

  /** The meta write replaces the older meta by one whose snapshot is already durable. */
  lemma WriteMetaKeeps(e: Env)
    requires Inv(e) && Enabled(e, WriteMeta)
    ensures Inv(Apply(e, WriteMeta))
  {
    var e', w := Apply(e, WriteMeta), e.writer.value;
    NewestIsPublished(e);
    CommittedOk(e, w);
    var m' := MetaAt(e', w.txnid);
    assert MetaAt(e', e.txnid) == MetaAt(e, e.txnid) && Newest(e') == m';
    forall m | Pinned(e', m) ensures PinnedOk(e', m) {
      if m != m' {
        assert Pinned(e, m) by {
          if m != e.meta0 && m != e.meta1 {
            var r :| r in e'.readers && e'.readers[r] == m;
          }
        }
        assert PinnedOk(e, m) && Apart(w, m);
      }
    }
  }

  lemma PublishKeeps(e: Env)
    requires Inv(e) && Enabled(e, Publish)
    ensures Inv(Apply(e, Publish))
  {
    var e' := Apply(e, Publish);
    assert Newest(e') == Newest(e);
    assert forall m :: Pinned(e', m) <==> Pinned(e, m);
    forall m | Pinned(e', m) ensures PinnedOk(e', m) { assert PinnedOk(e, m); }
  }

  lemma AbortKeeps(e: Env)
    requires Inv(e) && Enabled(e, Abort)
    ensures Inv(Apply(e, Abort))
  {
    var e' := Apply(e, Abort);
    assert Newest(e') == Newest(e);
    assert forall m :: Pinned(e', m) <==> Pinned(e, m);
    forall m | Pinned(e', m) ensures PinnedOk(e', m) { assert PinnedOk(e, m); }
  }

  lemma FindOldestKeeps(e: Env, o: nat)
    requires Inv(e) && Enabled(e, FindOldest(o))
    ensures Inv(Apply(e, FindOldest(o))) && e.oldest <= o
  {
    var e' := Apply(e, FindOldest(o));
    assert Newest(e') == Newest(e);
    assert forall m :: Pinned(e', m) <==> Pinned(e, m);
    forall m | Pinned(e', m) ensures PinnedOk(e', m) && Apart(e.writer.value, m) {
      assert PinnedOk(e, m) && Apart(e.writer.value, m);
    }
  }

  lemma CrashKeeps(e: Env)
    requires Inv(e)
    ensures Inv(Apply(e, Crash)) && Newest(Apply(e, Crash)) == Newest(e)
  {
    var e' := Apply(e, Crash);
    assert Newest(e') == Newest(e);
    forall m | Pinned(e', m) ensures PinnedOk(e', m) { assert Pinned(e, m) && PinnedOk(e, m); }
    assert Newest(e).txnid == if WriterIn(e, Committed) then e.txnid + 1 else e.txnid;
  }

  /** The steps that only move pages between the writer's lists. */
  predicate IsMove(s: Step) {
    || s.AllocLoose? || s.AllocHead? || s.AllocFresh? || s.Modify?
    || s.FreeToList? || s.FreeToLoose? || s.FreeToHead? || s.LooseToFreed?
  }

  lemma WriterStepKeeps(e: Env, s: Step)
    requires Inv(e) && Enabled(e, s) && (s.WriterBegin? || s.Consume? || s.SaveFreelist? || IsMove(s))
    ensures Inv(Apply(e, s))
  {
    if s.WriterBegin? { WriterBeginKeeps(e); }
    else if s.Consume? { ConsumeKeeps(e, s.key); }
    else if s.SaveFreelist? { SaveKeeps(e, s.refile); }
    else { MovesKeep(e, s); }
  }

  /** Every step of every transaction, reader or crash keeps the invariant. */
  lemma StepKeeps(e: Env, s: Step)
    requires Inv(e) && Enabled(e, s)
    ensures Inv(Apply(e, s))
  {
    if s.ReaderBegin? { ReaderBeginKeeps(e, s.slot); }
    else if s.ReaderEnd? { ReaderEndKeeps(e, s.slot); }
    else if s.WriteOut? { WriteOutKeeps(e, s.pg, s.c); }
    else if s.Writeback? || s.Sync? { DurableKeeps(e, s); }
    else if s.WriteMeta? { WriteMetaKeeps(e); }
    else if s.Publish? { PublishKeeps(e); }
    else if s.Abort? { AbortKeeps(e); }
    else if s.FindOldest? { FindOldestKeeps(e, s.o); }
    else if s.Crash? { CrashKeeps(e); }
    else { WriterStepKeeps(e, s); }
  }

  // ---------------------------------------------------------------- whole runs

  ghost predicate Leads(e: Env, s: Step, e': Env) { Enabled(e, s) && e' == Apply(e, s) }

  /** A run: the environments visited, each obtained from the previous one by an enabled step. */
  ghost predicate IsRun(run: seq<Env>, steps: seq<Step>) {
    && |run| == |steps| + 1
    && forall i :: 0 <= i < |steps| ==> Leads(run[i], steps[i], run[i + 1])
  }

  /** A freshly created environment: both metas hold transaction 0 and two pages are in use. */
  function Fresh(maxpg: nat): Env {
    var m := Meta(0, Snapshot(map[], map[], 2));
    Env(map[], map[], m, m, 0, map[], 0, None, maxpg)
  }

  lemma {:induction false} RunKeeps(run: seq<Env>, steps: seq<Step>, i: nat)
    requires IsRun(run, steps) && Inv(run[0]) && i < |run|
    ensures Inv(run[i])
  {
    if i > 0 {
      RunKeeps(run, steps, i - 1);
      assert Leads(run[i - 1], steps[i - 1], run[i - 1 + 1]);
      StepKeeps(run[i - 1], steps[i - 1]);
    }
  }

  lemma FreshOk(maxpg: nat)
    ensures Inv(Fresh(maxpg))
  {
  }

  /** What reader `slot` sees: the pages of its snapshot, read from the disk as it is now. */
  ghost function View(e: Env, slot: nat): map<nat, Content>
    requires slot in e.readers
    requires e.readers[slot].snap.pages.Keys <= e.disk.Keys
  {
    map p | p in e.readers[slot].snap.pages :: e.disk[p]
  }

  lemma ReaderSees(e: Env, slot: nat)
    requires Inv(e) && slot in e.readers
    ensures e.readers[slot].snap.pages.Keys <= e.disk.Keys
    ensures View(e, slot) == e.readers[slot].snap.pages
  {
    assert Pinned(e, e.readers[slot]);
  }

  lemma ReaderStep(e: Env, s: Step, e': Env, slot: nat)
    requires Leads(e, s, e') && slot in e.readers && slot in e'.readers
    ensures e'.readers[slot] == e.readers[slot]
  {
  }

  lemma {:induction false} ReaderStays(run: seq<Env>, steps: seq<Step>, slot: nat, i: nat, j: nat)
    requires IsRun(run, steps) && i <= j < |run|
    requires forall k :: i <= k <= j ==> slot in run[k].readers
    ensures run[j].readers[slot] == run[i].readers[slot]
    decreases j
  {
    if i < j {
      ReaderStays(run, steps, slot, i, j - 1);
      assert Leads(run[j - 1], steps[j - 1], run[j - 1 + 1]);
      ReaderStep(run[j - 1], steps[j - 1], run[j], slot);
    }
  }

  /** Snapshot isolation.  A reader that is live from state i to state j of any run from a fresh
      environment sees at j exactly the pages it saw at i. */
  lemma SnapshotIsolation(run: seq<Env>, steps: seq<Step>, maxpg: nat, slot: nat, i: nat, j: nat)
    requires IsRun(run, steps) && run[0] == Fresh(maxpg) && i <= j < |run|
    requires forall k :: i <= k <= j ==> slot in run[k].readers
    ensures run[i].readers[slot].snap.pages.Keys <= run[i].disk.Keys
    ensures run[j].readers[slot].snap.pages.Keys <= run[j].disk.Keys
    ensures View(run[j], slot) == View(run[i], slot) == run[i].readers[slot].snap.pages
  {
    FreshOk(maxpg);
    RunKeeps(run, steps, i);
    RunKeeps(run, steps, j);
    ReaderSees(run[i], slot);
    ReaderSees(run[j], slot);
    ReaderStays(run, steps, slot, i, j);
  }

  /** The pages a step hands out for writing, or writes. */
  function Handed(w: Writer, s: Step): set<nat> {
    match s
    case AllocLoose(pg, _) => {pg}
    case AllocHead(first, num, _) => Range(first, first + num)
    case AllocFresh(num, _) => Range(w.next, w.next + num)
    case Modify(pg, _) => {pg}
    case WriteOut(pg, _) => {pg}
    case _ => {}
  }

  lemma HandedApart(e: Env, s: Step, m: Meta)
    requires Inv(e) && e.writer.Some? && Enabled(e, s) && Pinned(e, m)
    ensures Handed(e.writer.value, s) !! m.snap.pages.Keys
  {
    assert PinnedOk(e, m);
    if !WriterIn(e, Committed) {
      NewestIsPublished(e);
      assert Apart(e.writer.value, m);
    }
  }

  /** No page reachable from a live reader's snapshot, or from either meta page, is ever handed
      out for writing; and the cached oldest id never exceeds the true one. */
  lemma NeverHandedOut(run: seq<Env>, steps: seq<Step>, maxpg: nat, i: nat)
    requires IsRun(run, steps) && run[0] == Fresh(maxpg) && i < |steps| && run[i].writer.Some?
    ensures forall r :: r in run[i].readers ==>
              Handed(run[i].writer.value, steps[i]) !! run[i].readers[r].snap.pages.Keys
    ensures Handed(run[i].writer.value, steps[i]) !! run[i].meta0.snap.pages.Keys
    ensures Handed(run[i].writer.value, steps[i]) !! run[i].meta1.snap.pages.Keys
    ensures forall o :: IsOldest(o, run[i].writer.value.txnid, run[i].readers) ==> run[i].oldest <= o
  {
    FreshOk(maxpg);
    RunKeeps(run, steps, i);
    var e := run[i];
    assert Leads(e, steps[i], run[i + 1]);
    HandedApart(e, steps[i], e.meta0);
    HandedApart(e, steps[i], e.meta1);
    forall r | r in e.readers
      ensures Handed(e.writer.value, steps[i]) !! e.readers[r].snap.pages.Keys
    {
      HandedApart(e, steps[i], e.readers[r]);
    }
  }

  /** Crash atomicity.  Whatever step a run has reached, and whichever unsynced page writes
      survive, recovery finds every page of the newer meta intact on the durable disk; and that
      meta is the published snapshot, or the committing transaction's once its meta is written. */
  lemma CrashAtomicity(run: seq<Env>, steps: seq<Step>, maxpg: nat, i: nat)
    requires IsRun(run, steps) && run[0] == Fresh(maxpg) && i < |run|
    ensures var e := run[i]; var r := Apply(e, Crash);
      && Flushed(Newest(r).snap.pages, r.disk)
      && r.txnid == Newest(r).txnid
      && (if WriterIn(e, Committed)
          then var w := e.writer.value;
               Newest(r) == Meta(w.txnid, Snapshot(w.live, w.records, w.next))
          else Newest(r) == MetaAt(e, e.txnid) && r.txnid == e.txnid)
      && Inv(r)
  {
    FreshOk(maxpg);
    RunKeeps(run, steps, i);
    CrashKeeps(run[i]);
    assert Pinned(Apply(run[i], Crash), Newest(run[i]));
    if !WriterIn(run[i], Committed) { NewestIsPublished(run[i]); }
  }


  // ---------------------------------------------------------------- page conservation

  /** The pages on file, added up record by record as mdb_audit does with a cursor. */
  function FreeCount(recs: map<nat, set<nat>>, hi: nat): nat {
    if hi == 0 then 0
    else FreeCount(recs, hi - 1) + if hi in recs then |recs[hi]| else 0
  }

  function UpTo(recs: map<nat, set<nat>>, hi: nat): set<nat> {
    set k, p | k in recs.Keys && 0 < k <= hi && p in recs[k] :: p
  }

  lemma OneMoreRecord(recs: map<nat, set<nat>>, hi: nat)
    requires Separate(recs, 0) && 0 < hi
    ensures |UpTo(recs, hi)| == |UpTo(recs, hi - 1)| + if hi in recs then |recs[hi]| else 0
  {
    var last := if hi in recs then recs[hi] else {};
    assert UpTo(recs, hi - 1) !! last;
    assert UpTo(recs, hi) == UpTo(recs, hi - 1) + last;
  }

  lemma {:induction false} CountsRecords(recs: map<nat, set<nat>>, hi: nat)
    requires Separate(recs, 0)
    ensures |UpTo(recs, hi)| == FreeCount(recs, hi)
  {
    if hi == 0 {
      assert UpTo(recs, 0) == {};
    } else {
      CountsRecords(recs, hi - 1);
      OneMoreRecord(recs, hi);
    }
  }

  lemma {:induction false} RangeSize(lo: nat, hi: nat)
    requires lo <= hi
    ensures |Range(lo, hi)| == hi - lo
  {
    if lo < hi {
      RangeSize(lo, hi - 1);
      assert Range(lo, hi) == Range(lo, hi - 1) + {hi - 1};
    } else {
      assert Range(lo, hi) == {};
    }
  }

  /** In every reachable state each page number below mt_next_pgno has exactly one role in the
      running write transaction, and the newest committed snapshot passes the audit:
      free pages + used pages + the two metas = next page number. */
  lemma PageConservation(run: seq<Env>, steps: seq<Step>, maxpg: nat, i: nat)
    requires IsRun(run, steps) && run[0] == Fresh(maxpg) && i < |run|
    ensures run[i].writer.Some? ==> Conserved(run[i].writer.value)
    ensures var m := Newest(run[i]);
      FreeCount(m.snap.free, m.txnid) + |m.snap.pages| + 2 == m.snap.next
  {
    FreshOk(maxpg);
    RunKeeps(run, steps, i);
    var m := Newest(run[i]);
    assert Pinned(run[i], m) && PinnedOk(run[i], m);
    CountsRecords(m.snap.free, m.txnid);
    RangeSize(2, m.snap.next);
    assert UpTo(m.snap.free, m.txnid) == Above(m.snap.free, 0);
    assert m.snap.pages.Keys + Above(m.snap.free, 0) == Range(2, m.snap.next);
    assert |m.snap.pages| == |m.snap.pages.Keys|;
  }
}
