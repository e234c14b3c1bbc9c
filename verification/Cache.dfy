/**
The two-generation cache (lib/cache on lib/lmdb): puts are collected in batches and written to the
current environment; when that is full, it becomes the old one, a fresh environment takes its place and
the batch that did not fit is replayed there.  A lookup asks the current environment, then the old one.
*/
module Cache {
  import opened Common

  /** A put.  The value 0 stands for those that count as false; the number, which the source does not have,
      tells puts of the same value apart. */
  datatype Op = Put(key: int, val: int, num: nat)

  ghost function Ops(s: seq<Op>): set<Op> { set op | op in s }

  function Apply(store: map<int, int>, ops: seq<Op>): map<int, int> {
    if ops == [] then store else Apply(store, ops[..|ops| - 1])[ops[|ops| - 1].key := ops[|ops| - 1].val]
  }

  /** The value of the last put of a key. */
  function Latest(ops: seq<Op>, key: int): Option<int> {
    if ops == [] then None
    else if ops[|ops| - 1].key == key then Some(ops[|ops| - 1].val)
    else Latest(ops[..|ops| - 1], key)
  }

  function Lookup(store: map<int, int>, key: int): Option<int> { if key in store then Some(store[key]) else None }

  lemma {:induction false} ApplyConcat(store: map<int, int>, a: seq<Op>, b: seq<Op>)
    ensures Apply(store, a + b) == Apply(Apply(store, a), b)
  {
    if b == [] {
      assert a + b == a;
    } else {
      ApplyConcat(store, a, b[..|b| - 1]);
      assert (a + b)[..|a + b| - 1] == a + b[..|b| - 1];
    }
  }

  lemma {:induction false} LookupLatest(ops: seq<Op>, key: int)
    ensures Lookup(Apply(map[], ops), key) == Latest(ops, key)
  {
    if ops != [] { LookupLatest(ops[..|ops| - 1], key); }
  }

  lemma {:induction false} LatestConcat(a: seq<Op>, b: seq<Op>, key: int)
    ensures Latest(a + b, key) == if Latest(b, key).Some? then Latest(b, key) else Latest(a, key)
  {
    if b == [] {
      assert a + b == a;
    } else {
      LatestConcat(a, b[..|b| - 1], key);
      assert (a + b)[..|a + b| - 1] == a + b[..|b| - 1];
    }
  }

  /** The value found first, where one that counts as false is as good as none. */
  function Either(cur: Option<int>, prev: Option<int>): Option<int> {
    if cur.Some? && cur.value != 0 then cur else prev
  }

  /** Asking the current environment, then the old one, finds the latest put unless that put a value
      which counts as false, and then exactly if the old environment has the same. */
  lemma EitherLatest(prev: seq<Op>, cur: seq<Op>, key: int)
    ensures Either(Latest(cur, key), Latest(prev, key)) == Latest(prev + cur, key)
       <==> Latest(cur, key) != Some(0) || Latest(prev, key) == Some(0)
  {
    LatestConcat(prev, cur, key);
  }

  lemma CanBeStale()
    ensures var prev, cur := [Put(1, 5, 0)], [Put(1, 0, 1)];
      Latest(prev + cur, 1) == Some(0) && Either(Latest(cur, 1), Latest(prev, 1)) == Some(5)
  {
    LatestConcat([Put(1, 5, 0)], [Put(1, 0, 1)], 1);
  }

  // ---------------------------------------------------------------- generation numbers

  ghost predicate Ascending(s: seq<nat>) { forall i, j :: 0 <= i < j < |s| ==> s[i] < s[j] }

  /** The same, told from the end. */
  ghost predicate Climbs(s: seq<nat>) {
    |s| <= 1 || (s[|s| - 2] < s[|s| - 1] && Climbs(s[..|s| - 1]))
  }

  lemma {:induction false} ClimbsIff(s: seq<nat>)
    ensures Climbs(s) <==> Ascending(s)
  {
    if |s| > 1 {
      ClimbsIff(s[..|s| - 1]);
      if Climbs(s) {
        forall i, j | 0 <= i < j < |s| ensures s[i] < s[j] {
          assert i < |s| - 2 ==> s[..|s| - 1][i] < s[..|s| - 1][|s| - 2];
          assert j < |s| - 1 ==> s[..|s| - 1][i] < s[..|s| - 1][j];
        }
      }
    }
  }

  /** The directories a cache finds or makes (_openEnv), in ascending order; the last one is current. */
  function OpenDirs(found: seq<nat>, rotate: bool, current: nat): seq<nat> {
    var d := if |found| == 0 then [1, 2] else found;
    if |d| == 1 then d + [d[0] + 1]
    else if rotate then d + [current + 1]
    else d
  }

  /** Opening keeps every directory and has two; a rotation adds a number above every generation there is. */
  lemma OpenedDirs(found: seq<nat>, rotate: bool, current: nat)
    requires Climbs(found) && (rotate ==> |found| >= 2 && found[|found| - 1] == current)
    ensures var out := OpenDirs(found, rotate, current);
      && |out| >= 2 && Climbs(out) && found <= out
      && (rotate ==> out == found + [current + 1] && forall i :: 0 <= i < |found| ==> found[i] < current + 1)
      && (!rotate && |found| >= 2 ==> out == found)
  {
    var out := OpenDirs(found, rotate, current);
    if out != found && found != [] { assert out[..|out| - 1] == found; }
    ClimbsIff(found);
  }

  // ---------------------------------------------------------------- one environment

  /** How a write transaction ends: committed, MDB_MAP_FULL, or another error. */
  datatype Outcome = Fits | Full | Fails

  /** An environment: its directory, the number it is given, what it holds, the batch that is waiting, and
      the batch size. */
  class Env {
    const dir: nat
    const num: nat
    var store: map<int, int>
    var batch: seq<Op>
    var size: int
    /** The puts that were written, in order. */
    ghost var log: seq<Op>

    ghost predicate Valid()
      reads this
    {
      store == Apply(map[], log)
    }

    /** Opens a directory that holds what the puts of the log have left. */
    constructor (dir: nat, num: nat, size: int, store: map<int, int>, ghost log: seq<Op>)
      requires store == Apply(map[], log)
      ensures Valid() && this.dir == dir && this.num == num && this.size == size
      ensures this.store == store && batch == [] && this.log == log
    {
      this.dir, this.num, this.size, this.store, batch, this.log := dir, num, size, store, [], log;
    }

    /** The transaction of flushBatchOps: the whole batch is written, or, if there is an error, none of it. */
    method Write(o: Outcome)
      requires Valid()
      modifies this`store, this`log
      ensures Valid()
      ensures if o.Fits? then log == old(log) + batch else log == old(log) && store == old(store)
    {
      var s := store;
      for i := 0 to |batch|
        invariant s == Apply(store, batch[..i])
      {
        s := s[batch[i].key := batch[i].val];
        assert batch[..i + 1][..i] == batch[..i];
      }
      assert batch[..|batch|] == batch;
      if o.Fits? {
        ApplyConcat(map[], log, batch);
        store, log := s, log + batch;
      }
    }
  }

  // ---------------------------------------------------------------- the outcomes of the writes of a call

  /** The writes of one call end like this, one after the other; those beyond the end of the list fit. */
  type Outcomes = seq<Outcome>

  function Next(outs: Outcomes): Outcome { if outs == [] then Fits else outs[0] }

  function Later(outs: Outcomes): Outcomes { if outs == [] then [] else outs[1..] }

  /** The first writes find the map full, and then one fails. */
  predicate Doomed(outs: Outcomes)
    decreases |outs|
  {
    outs != [] && (outs[0].Fails? || (outs[0].Full? && Doomed(outs[1..])))
  }

  ghost predicate NoFailure(outs: Outcomes) { forall i :: 0 <= i < |outs| ==> !outs[i].Fails? }

  /** No write fails after one that found the map full. */
  ghost predicate NoLateFailure(outs: Outcomes) {
    forall i, j :: 0 <= i < j < |outs| && outs[i].Full? ==> !outs[j].Fails?
  }

  // ---------------------------------------------------------------- two generations

  /** A batch that is written when it has this many operations. */
  function AtLeastOne(size: int): nat { if size < 1 then 1 else size }

  /** How many of n operations are put before the first write, with this much room in the batch. */
  function FirstWrite(room: int, n: nat): nat {
    var k := AtLeastOne(room);
    if k < n then k else n
  }

  /** Batches hold no more than 256 operations. */
  function Capped(num: int): int { if num < 256 then num else 256 }

  lemma Joined(a: seq<Op>, b: seq<Op>, c: seq<Op>, d: seq<Op>)
    ensures a + b + (c + d) + [] == a + b + c + d && a + b + c + [] + [] == a + b + c
  {
  }

  lemma JoinedOp(a: seq<Op>, b: seq<Op>, c: seq<Op>, d: seq<Op>, op: Op)
    ensures a + b + c + (d + [op]) == a + b + c + d + [op]
  {
  }

  lemma Cancel(a: seq<Op>, b: seq<Op>, c: seq<Op>)
    requires a + b + [] == a + [] + [] + c
    ensures b == c
  {
    assert a + b + [] == a + b && a + [] + [] == a;
    assert b == (a + b)[|a|..] && c == (a + c)[|a|..];
  }

  lemma BothPrefixes(a: seq<Op>, b: seq<Op>, c: seq<Op>)
    requires a <= c && b <= c && |a| <= |b|
    ensures a <= b
  {
  }

  lemma OpsInserted(a: seq<Op>, b: seq<Op>, c: seq<Op>, d: seq<Op>)
    ensures Ops(a + (b + c) + d) == Ops(a + b + d) + Ops(c)
  {
    assert Ops(a + (b + c) + d) == Ops(a) + Ops(b) + Ops(c) + Ops(d);
    assert Ops(a + b + d) == Ops(a) + Ops(b) + Ops(d);
  }

  lemma PartOf(a: seq<Op>, ops: seq<Op>, i: nat)
    requires i < |ops|
    ensures a + ops[..i] + [ops[i]] == a + ops[..i + 1] <= a + ops && Ops(a + ops[..i + 1]) <= Ops(a + ops)
  {
  }

  /** Where the puts are: in a log, waiting in the current or in the previous environment, or in a batch
      that an environment had when it was closed; and all of them. */
  datatype Books = Book(settled: seq<Op>, batch: seq<Op>, behind: seq<Op>, dropped: set<Op>, issued: seq<Op>,
                        open: bool)
  {
    /** The puts in a log, or in the batch of an environment that is open. */
    ghost function Here(): set<Op> { Ops(settled) + if open then Ops(batch) + Ops(behind) else {} }

    /** A put that is in no log and in no batch any more. */
    ghost predicate Lost(op: Op) { op in issued && op !in Here() }

    /** A put that waits in the previous environment only: it was not put again after a rotation. */
    ghost predicate Rest(op: Op) { open && op in issued && op in behind && op !in settled && op !in batch }

    /** No put vanishes but from the batch of an environment that was closed. */
    ghost predicate Conserved() { Ops(issued) <= Here() + dropped && Here() <= Ops(issued) }
  }

  /** What every call keeps that does not flush the previous environment: what is written stays written, what
      is lost stays lost, and a put that waits in the previous environment only goes on waiting, or is lost,
      exactly if that environment is closed. */
  ghost predicate Keeps(b: Books, b': Books, closed: bool) {
    && Ops(b.settled) <= Ops(b'.settled)
    && (forall op :: b.Lost(op) ==> b'.Lost(op))
    && (forall op :: b.Rest(op) ==> if closed then b'.Lost(op) else b'.Rest(op))
  }

  /** Where the puts go when `batch` is to be written: none vanishes but with the previous environment. */
  ghost predicate Flows(b: Books, b': Books, batch: seq<Op>, closed: bool) {
    && b'.open && Ops(b.settled) <= Ops(b'.settled) && b.dropped <= b'.dropped
    && Ops(batch) <= b'.Here() + b'.dropped
    && Ops(b'.settled) + Ops(b'.batch) <= Ops(b.settled) + Ops(batch)
    && if closed then Ops(b.behind) <= b'.dropped && Ops(b'.behind) <= Ops(b.settled) + Ops(batch)
       else b'.behind == b.behind
  }

  /** The batch was written, at once or after rotations, or was kept somewhere after an error. */
  ghost predicate Went(b: Books, b': Books, batch: seq<Op>, closed: bool, threw: bool) {
    && b'.open && b.dropped <= b'.dropped && |b.settled| <= |b'.settled|
    && b'.settled + b'.batch <= b.settled + batch
    && (threw ==> b'.batch == batch || b'.behind == batch || Ops(batch) <= b'.dropped)
    && (!threw ==> b'.settled + b'.batch == b.settled + batch)
    && if closed then Ops(b.behind) <= b'.dropped && Ops(b'.behind) <= Ops(b.settled + batch)
       else b'.behind == b.behind
  }

  lemma BatchFlows(b: Books, b': Books, batch: seq<Op>, closed: bool, threw: bool)
    requires Went(b, b', batch, closed, threw)
    ensures Flows(b, b', batch, closed)
  {
    var h := b.settled + batch;
    BothPrefixes(b.settled, b'.settled, h);
    assert Ops(h) == Ops(b.settled) + Ops(batch);
    assert Ops(b'.settled + b'.batch) == Ops(b'.settled) + Ops(b'.batch);
  }

  lemma FlowKeeps(b: Books, b': Books, batch: seq<Op>, more: set<Op>, closed: bool)
    requires b.open && b.Conserved() && Flows(b, b', batch, closed) && Ops(batch) == Ops(b.batch) + more
    requires Ops(b'.issued) == Ops(b.issued) + more && more !! Ops(b.issued)
    ensures b'.Conserved() && Keeps(b, b', closed)
  {
    forall op | b.Rest(op) ensures op !in Ops(b.settled) + Ops(batch) && op in b'.issued {
      assert op in Ops(b.issued) && op !in more && op in Ops(b'.issued);
    }
    forall op | b.Lost(op) ensures b'.Lost(op) {
      assert op in Ops(b.issued) && op !in more && op in Ops(b'.issued);
    }
  }

  lemma WentKeeps(b: Books, b': Books, batch: seq<Op>, more: seq<Op>, closed: bool, threw: bool)
    requires b.open && b.Conserved() && Went(b, b', batch, closed, threw) && batch == b.batch + more
    requires b'.issued == b.issued + more && Ops(more) !! Ops(b.issued)
    ensures b'.Conserved() && Keeps(b, b', closed)
  {
    BatchFlows(b, b', batch, closed, threw);
    assert Ops(batch) == Ops(b.batch) + Ops(more) && Ops(b'.issued) == Ops(b.issued) + Ops(more);
    FlowKeeps(b, b', batch, Ops(more), closed);
  }

  class TwoGenerations {
    var cur: Env
    var prev: Env
    /** The numbered directories on the disk. */
    var dirs: seq<nat>
    const batchSize: int
    /** The number of the next put, and whether the cache has been closed. */
    var count: nat
    var shut: bool
    /** All puts so far; the ones in the logs of generations that were closed; and the ones that waited in
        the batch of an environment when it was closed. */
    ghost var issued: seq<Op>
    ghost var gone: seq<Op>
    ghost var dropped: set<Op>

    /** The directories in use are the two newest; the current environment has its own number, the previous
        one its own or, if it was opened together with the current one, that one's. */
    ghost predicate Placed()
      reads this`cur, this`prev, this`dirs
    {
      && cur != prev && |dirs| >= 2 && Climbs(dirs)
      && cur.dir == cur.num == dirs[|dirs| - 1] && prev.dir == dirs[|dirs| - 2]
      && (prev.num == prev.dir || prev.num == cur.num)
    }

    ghost predicate Sound()
      reads this`cur, this`prev, this`dirs, this`shut, cur, prev
    {
      !shut && Placed() && cur.Valid() && prev.Valid()
    }

    /** The puts that are gone or written, in this order, and those together with the ones that wait in the
        current environment. */
    ghost function Settled(): seq<Op>
      reads this`cur, this`prev, this`gone, cur, prev
    {
      gone + prev.log + cur.log
    }

    ghost function History(): seq<Op>
      reads this`cur, this`prev, this`gone, cur, prev
    {
      Settled() + cur.batch
    }

    ghost function Books(): Books
      reads this, cur, prev
    {
      Book(Settled(), cur.batch, prev.batch, dropped, issued, !shut)
    }

    ghost predicate Valid()
      reads this, cur, prev
    {
      Sound() && Books().Conserved() && forall op :: op in issued ==> op.num < count
    }

    /** All puts are there, in order. */
    ghost predicate Whole()
      reads this, cur, prev
    {
      prev.batch == [] && issued == History()
    }

    /** Opens the two newest directories that are found, or makes those that are missing. */
    constructor (batchSize: int, found: seq<nat>, older: map<int, int>, newer: map<int, int>, first: nat,
                 ghost olderLog: seq<Op>, ghost newerLog: seq<Op>)
      requires Climbs(found) && older == Apply(map[], olderLog) && newer == Apply(map[], newerLog)
      requires (found == [] ==> olderLog == []) && (|found| < 2 ==> newerLog == [])
      requires forall op :: op in olderLog + newerLog ==> op.num < first
      ensures Valid() && Whole() && fresh(cur) && fresh(prev) && issued == olderLog + newerLog
      ensures this.batchSize == batchSize && count == first && dropped == {}
      ensures dirs == OpenDirs(found, false, 0) && prev.log == olderLog && cur.log == newerLog && cur.batch == []
      ensures prev.num == cur.num && cur.size == batchSize
    {
      this.batchSize := batchSize;
      OpenedDirs(found, false, 0);
      var d := OpenDirs(found, false, 0);
      dirs := d;
      cur := new Env(d[|d| - 1], d[|d| - 1], batchSize, newer, newerLog);
      prev := new Env(d[|d| - 2], d[|d| - 1], batchSize, older, olderLog);
      Joined([], olderLog, newerLog, []);
      assert [] + olderLog + newerLog == olderLog + newerLog;
      count, shut, dropped := first, false, {};
      issued, gone := olderLog + newerLog, [];
    }

    /** The latest put that was written to the current or the previous generation, and nothing older,
        unless it put a value that counts as false. */
    method Get(key: int) returns (val: Option<int>)
      requires Valid()
      ensures val == Either(Latest(cur.log, key), Latest(prev.log, key))
      ensures val == Latest(prev.log + cur.log, key) <==>
        Latest(cur.log, key) != Some(0) || Latest(prev.log, key) == Some(0)
    {
      LookupLatest(cur.log, key);
      LookupLatest(prev.log, key);
      EitherLatest(prev.log, cur.log, key);
      val := Lookup(cur.store, key);
      if val.None? || val.value == 0 { val := Lookup(prev.store, key); }
    }

    /** rmStale: all but the three newest directories go, and none that is in use. */
    method RemoveStale()
      requires Placed()
      modifies this`dirs
      ensures Placed() && cur.dir in dirs && prev.dir in dirs && |dirs| <= 3
      ensures |dirs| == (if |old(dirs)| < 3 then |old(dirs)| else 3) && dirs == old(dirs)[|old(dirs)| - |dirs|..]
    {
      if |dirs| > 3 {
        ClimbsIff(dirs);
        ClimbsIff(dirs[|dirs| - 3..]);
        dirs := dirs[|dirs| - 3..];
      }
    }

    /** close: neither batch is flushed. */
    method Close()
      requires Valid()
      modifies this`shut, this`dropped
      ensures shut && Books().Conserved() && Settled() == old(Settled())
      ensures dropped == old(dropped) + Ops(prev.batch) + Ops(cur.batch)
      ensures forall op :: Books().Lost(op) <==> op in issued && op !in Settled()
      ensures Follows(old(Books()), Books(), Closed)
    {
      dropped := dropped + Ops(prev.batch) + Ops(cur.batch);
      shut := true;
    }

    /** _rotate: the previous environment is closed, without a flush, and the current one takes its place; a
        fresh one with a number above every directory becomes current. */
    method Rotate()
      requires Sound()
      modifies this`cur, this`prev, this`gone, this`dropped, this`dirs
      ensures Sound() && prev == old(cur) && fresh(cur) && dirs == old(dirs) + [cur.num]
      ensures cur.num == old(cur.num) + 1 && cur.log == [] && cur.batch == [] && cur.size == batchSize
      ensures gone == old(gone) + old(prev.log) && dropped == old(dropped) + Ops(old(prev.batch))
      ensures forall i :: 0 <= i < |old(dirs)| ==> old(dirs)[i] < cur.num
    {
      OpenedDirs(dirs, true, cur.num);
      dirs := OpenDirs(dirs, true, cur.num);
      gone, dropped := gone + prev.log, dropped + Ops(prev.batch);
      prev := cur;
      cur := new Env(dirs[|dirs| - 1], dirs[|dirs| - 1], batchSize, map[], []);
    }

    /** No rotation took place. */
    twostate predicate Stays()
      reads this`cur, this`prev, this`gone, this`dropped, this`dirs
    {
      cur == old(cur) && prev == old(prev) && gone == old(gone) && dropped == old(dropped) && dirs == old(dirs)
    }

    /** What a call does to the generations.  The number of the current one goes up with every rotation; after
        one of them the previous environment is the one that was current, and after more that one is closed. */
    twostate predicate Moved()
      reads this, cur, prev
    {
      && (Stays() || (fresh(cur) && old(cur.num) < cur.num && old(dropped) + Ops(old(prev.batch)) <= dropped))
      && (fresh(cur) ==> if cur.num == old(cur.num) + 1 then prev == old(cur) else fresh(prev))
      && cur.size == (if cur == old(cur) then old(cur.size) else batchSize)
      && old(dirs) <= dirs && issued == old(issued) && count == old(count)
    }

    /** The same, for a call by a user. */
    twostate predicate Turned()
      reads this`cur, this`prev, this`dirs
    {
      && old(dirs) <= dirs
      && if cur == old(cur) then prev == old(prev) && dirs == old(dirs)
         else
           && fresh(cur) && old(cur.num) < cur.num
           && if cur.num == old(cur.num) + 1 then prev == old(cur) else fresh(prev)
    }

    /** Nothing but the batch of the current environment changed. */
    twostate predicate Waiting(batch: seq<Op>)
      reads this`cur, this`prev, this`gone, this`dropped, this`dirs, cur
    {
      Stays() && cur.log == old(cur.log) && cur.batch == batch
    }

    /** What became of a batch that was to be written. */
    twostate predicate Done(batch: seq<Op>, outs: Outcomes, threw: bool)
      reads this`cur, this`prev, this`gone, this`dropped, this`dirs, cur, prev
    {
      match Next(outs)
      case Fits => !threw && Stays() && cur.batch == [] && cur.log == old(cur.log) + batch
      case Fails => threw && Waiting(batch)
      case Full =>
        && fresh(cur) && (NoFailure(Later(outs)) ==> !threw)
        && (|outs| == 1 ==>
              prev == old(cur) && prev.log == old(cur.log) && cur.num == old(cur.num) + 1 && cur.log == batch)
        && (Doomed(Later(outs)) ==>
              && threw && History() == old(Settled()) + batch[..FirstWrite(batchSize, |batch|)]
              && (prev == old(cur) <==> Next(Later(outs)).Fails?)
              && (prev != old(cur) ==> Ops(prev.batch) <= Ops(History())))
        && (threw ==> if prev == old(cur) then prev.batch == batch else Ops(batch) <= dropped)
        && (!threw ==> prev.batch == [])
    }

    /** The operations fill no more than one batch. */
    ghost predicate Short(ops: seq<Op>)
      reads this, cur
    {
      cur.batch == [] && cur.size == batchSize && |ops| <= AtLeastOne(batchSize)
    }

    /** Puts the operations, one by one. */
    method PutAgain(ops: seq<Op>, outs: Outcomes) returns (threw: bool, rest: Outcomes)
      requires Sound()
      modifies this, cur
      ensures Sound() && Moved() && |rest| <= |outs| && (NoFailure(outs) ==> !threw && NoFailure(rest))
      ensures !threw ==> History() == old(History()) + ops && (prev == old(prev) || prev.batch == [])
      ensures History() <= old(History()) + ops && |old(Settled())| <= |Settled()|
      ensures prev == old(prev) || Ops(prev.batch) <= Ops(old(History()) + ops)
      ensures outs == [] ==> Stays()
      ensures Doomed(outs) && old(cur.batch) == [] && old(cur.size) == batchSize ==>
        && History() == old(History()) + ops[..FirstWrite(batchSize, |ops|)]
        && (threw ==> (Next(outs).Fails? <==> Stays()) && (Stays() || Ops(prev.batch) <= Ops(History())))
        && (!threw ==> Stays() && rest == outs && (ops != [] ==> cur.batch != []))
      ensures old(Short(ops)) ==> History() == old(History()) + ops && (!threw ==> |cur.batch| <= |ops|)
      decreases |outs|, 2
    {
      rest, threw := outs, false;
      ghost var one := Short(ops);
      ghost var doomed := Doomed(outs) && cur.batch == [] && cur.size == batchSize;
      for i := 0 to |ops|
        invariant Sound() && Moved() && |rest| <= |outs| && (NoFailure(outs) ==> NoFailure(rest))
        invariant History() == old(History()) + ops[..i] && (prev == old(prev) || prev.batch == [])
        invariant |old(Settled())| <= |Settled()|
        invariant outs == [] ==> Stays()
        invariant doomed ==> Stays() && |cur.batch| == i && rest == outs && (i == 0 || i < batchSize)
        invariant one ==> |cur.batch| <= i && (i < |ops| ==> Stays() && |cur.batch| == i)
      {
        PartOf(old(History()), ops, i);
        threw, rest := Push(ops[i], rest);
        if threw {
          assert one ==> ops[..i + 1] == ops;
          assert doomed ==> FirstWrite(batchSize, |ops|) == i + 1;
          return;
        }
      }
      assert ops[..|ops|] == ops;
    }

    /** The operations are put again and flushed. */
    method Replay(ops: seq<Op>, outs: Outcomes) returns (threw: bool, rest: Outcomes)
      requires Sound()
      modifies this, cur
      ensures Sound() && Moved() && |rest| <= |outs| && (NoFailure(outs) ==> !threw && NoFailure(rest))
      ensures !threw ==> cur.batch == [] && History() == old(History()) + ops && (prev == old(prev) || prev.batch == [])
      ensures History() <= old(History()) + ops && |old(Settled())| <= |Settled()|
      ensures prev == old(prev) || Ops(prev.batch) <= Ops(old(History()) + ops)
      ensures outs == [] ==> Stays()
      ensures Doomed(outs) && old(cur.batch) == [] && old(cur.size) == batchSize && ops != [] ==>
        && threw && History() == old(History()) + ops[..FirstWrite(batchSize, |ops|)]
        && (Next(outs).Fails? <==> Stays()) && (Stays() || Ops(prev.batch) <= Ops(History()))
      ensures old(Short(ops)) ==> History() == old(History()) + ops
      decreases |outs|, 3
    {
      threw, rest := PutAgain(ops, outs);
      if !threw { threw, rest := Flush(rest); }
    }

    /** _pushBatch of the current environment. */
    method Push(op: Op, outs: Outcomes) returns (threw: bool, rest: Outcomes)
      requires Sound()
      modifies this, cur
      ensures Sound() && Moved() && |rest| <= |outs| && (NoFailure(outs) ==> !threw && NoFailure(rest))
      ensures !threw ==> History() == old(History()) + [op] && (prev == old(prev) || prev.batch == [])
      ensures History() <= old(History()) + [op] && |old(Settled())| <= |Settled()|
      ensures prev == old(prev) || Ops(prev.batch) <= Ops(old(History()) + [op])
      ensures if |old(cur.batch)| + 1 < old(cur.size)
        then !threw && rest == outs && Waiting(old(cur.batch) + [op])
        else Done(old(cur.batch) + [op], outs, threw)
      ensures |old(cur.batch)| + 1 <= AtLeastOne(batchSize) ==> History() == old(History()) + [op]
      decreases |outs|, 1
    {
      JoinedOp(gone, prev.log, cur.log, cur.batch, op);
      cur.batch := cur.batch + [op];
      threw, rest := false, outs;
      if |cur.batch| >= cur.size { threw, rest := Flush(outs); }
    }

    /** flushBatchOps of the current environment: its batch is written as a whole, to this generation or,
        when the map is full, to later ones; after another error it is kept. */
    method Flush(outs: Outcomes) returns (threw: bool, rest: Outcomes)
      requires Sound()
      modifies this, cur
      ensures Sound() && Moved() && |rest| <= |outs| && (NoFailure(outs) ==> !threw && NoFailure(rest))
      ensures !threw ==> cur.batch == [] && History() == old(History()) && (prev == old(prev) || prev.batch == [])
      ensures History() <= old(History()) && |old(Settled())| <= |Settled()|
      ensures prev == old(prev) || Ops(prev.batch) <= Ops(old(History()))
      ensures if old(cur.batch) == [] then !threw && Waiting([]) else Done(old(cur.batch), outs, threw)
      ensures |old(cur.batch)| <= AtLeastOne(batchSize) ==> History() == old(History())
      decreases |outs|, 0
    {
      threw, rest := false, outs;
      if cur.batch == [] { return; }
      var was := cur;
      was.Write(Next(outs));
      rest := Later(outs);
      if Next(outs).Full? {
        threw, rest := OnFull(rest);
      } else if Next(outs).Fits? {
        Joined(gone, prev.log, old(cur.log), was.batch);
      } else {
        threw := true;
      }
      if !threw { was.batch := []; }
    }

    /** onfull: a rotation, and the batch that did not fit is put again. */
    method OnFull(outs: Outcomes) returns (threw: bool, rest: Outcomes)
      requires Sound()
      modifies this
      ensures Sound() && Moved() && fresh(cur) && |rest| <= |outs| && (NoFailure(outs) ==> !threw && NoFailure(rest))
      ensures !threw ==> cur.batch == [] && History() == old(History()) && (prev == old(cur) || prev.batch == [])
      ensures |old(Settled())| <= |Settled()| && History() <= old(History())
      ensures outs == [] ==> prev == old(cur) && cur.num == old(cur.num) + 1 && cur.log == old(cur.batch)
      ensures prev == old(cur) || Ops(old(cur.batch)) <= dropped
      ensures Ops(prev.batch) <= Ops(old(History()))
      ensures Doomed(outs) && old(cur.batch) != [] ==>
        && threw && History() == old(Settled()) + old(cur.batch)[..FirstWrite(batchSize, |old(cur.batch)|)]
        && (prev == old(cur) <==> Next(outs).Fails?)
        && (prev != old(cur) ==> Ops(prev.batch) <= Ops(History()))
      ensures |old(cur.batch)| <= AtLeastOne(batchSize) ==> History() == old(History())
      decreases |outs|, 4
    {
      Rotate();
      Joined(gone, prev.log, [], []);
      threw, rest := Replay(prev.batch, outs);
      if outs == [] { Cancel(gone + prev.log, cur.log, prev.batch); }
    }

    /** The push of an operation, and where it leaves the puts together with that one. */
    method PushOn(op: Op, outs: Outcomes) returns (threw: bool)
      requires Valid() && op !in issued
      modifies this, cur
      ensures Sound() && Moved() && Turned()
      ensures var b := Books().(issued := issued + [op]);
        b.Conserved() && Keeps(old(Books()), b, cur != old(cur))
      ensures if |old(cur.batch)| + 1 < old(cur.size) then !threw && Waiting(old(cur.batch) + [op])
        else Done(old(cur.batch) + [op], outs, threw)
      ensures old(Settled()) <= History() <= old(History()) + [op]
      ensures NoLateFailure(outs) || !threw ==> History() == old(History()) + [op]
      ensures (NoLateFailure(outs) || !threw) && old(prev.batch) == [] ==> prev.batch == []
      ensures |old(cur.batch)| < AtLeastOne(batchSize) ==> History() == old(History()) + [op]
    {
      var rest;
      threw, rest := Push(op, outs);
      JoinedOp(old(gone), old(prev.log), old(cur.log), old(cur.batch), op);
      WentKeeps(old(Books()), Books().(issued := issued + [op]), old(cur.batch) + [op], [op], cur != old(cur), threw);
      BothPrefixes(old(Settled()), History(), old(History()) + [op]);
    }

    /** The flush of the current environment, likewise. */
    method FlushCurrent(outs: Outcomes) returns (threw: bool)
      requires Valid()
      modifies this, cur
      ensures Valid() && Moved() && Keeps(old(Books()), Books(), cur != old(cur))
      ensures if old(cur.batch) == [] then !threw && Waiting([]) else Done(old(cur.batch), outs, threw)
      ensures !threw ==> cur.batch == []
      ensures old(Settled()) <= History() <= old(History())
      ensures NoLateFailure(outs) || !threw ==> History() == old(History())
      ensures (NoLateFailure(outs) || !threw) && old(prev.batch) == [] ==> prev.batch == []
      ensures |old(cur.batch)| <= AtLeastOne(batchSize) ==> History() == old(History())
    {
      var rest;
      threw, rest := Flush(outs);
      assert old(cur.batch) + [] == old(cur.batch) && issued + [] == issued;
      WentKeeps(old(Books()), Books(), old(cur.batch), [], cur != old(cur), threw);
      BothPrefixes(old(Settled()), History(), old(History()));
    }

    /** put: the value waits in the batch of the current environment, which is flushed once it is full. */
    method Put(key: int, val: int, outs: Outcomes) returns (threw: bool)
      requires Valid()
      modifies this, cur
      ensures Valid() && Keeps(old(Books()), Books(), cur != old(cur))
      ensures count == old(count) + 1 && issued == old(issued) + [Op.Put(key, val, old(count))]
      ensures Turned() && cur.size == if cur == old(cur) then old(cur.size) else batchSize
      ensures var batch := old(cur.batch) + [Op.Put(key, val, old(count))];
        if |batch| < old(cur.size) then !threw && Waiting(batch) else Done(batch, outs, threw)
      ensures old(Whole()) ==> old(Settled()) <= History() <= issued && (NoLateFailure(outs) || !threw ==> Whole())
      ensures |old(cur.batch)| < AtLeastOne(batchSize) && old(Whole()) ==> History() == issued
    {
      var op := Op.Put(key, val, count);
      threw := PushOn(op, outs);
      issued, count := issued + [op], count + 1;
    }

    /** flushBatchOps of the previous environment.  A full map is an error there: nothing may rotate. */
    method FlushOld(o: Outcome) returns (threw: bool)
      requires Valid()
      modifies prev
      ensures Valid() && (threw <==> old(prev.batch) != [] && !o.Fits?)
      ensures if threw then prev.log == old(prev.log) && prev.batch == old(prev.batch)
        else prev.log == old(prev.log) + old(prev.batch) && prev.batch == []
      ensures old(prev.batch) == [] ==> unchanged(prev) && Settled() == old(Settled()) && History() == old(History())
      ensures Books().Here() == old(Books().Here())
    {
      threw := false;
      if prev.batch == [] { return; }
      prev.Write(o);
      threw := !o.Fits?;
      if !threw { prev.batch := []; }
      OpsInserted(gone, old(prev.log), if threw then [] else old(prev.batch), cur.log);
    }

    /** flushBatchOps of the cache: first the previous environment, then the current one. */
    method FlushNow(o: Outcome, outs: Outcomes) returns (threw: bool)
      requires Valid()
      modifies this, cur, prev
      ensures Valid() && issued == old(issued) && count == old(count)
      ensures Turned() && cur.size == if cur == old(cur) then old(cur.size) else batchSize
      ensures Ops(old(Settled())) <= Ops(Settled()) && forall op :: old(Books()).Lost(op) ==> Books().Lost(op)
      ensures if old(prev.batch) != [] && !o.Fits?
        then threw && Waiting(old(cur.batch)) && prev.log == old(prev.log) && prev.batch == old(prev.batch)
        else
          && Ops(old(prev.batch)) <= Ops(Settled()) && (!threw ==> cur.batch == [])
          && (cur != old(cur) <==> old(cur.batch) != [] && Next(outs).Full?)
          && (threw && cur == old(cur) ==> prev.batch == [] && cur.batch == old(cur.batch))
          && (threw && prev == old(cur) ==> prev.batch == old(cur.batch))
      ensures old(prev.batch) == [] ==>
        if old(cur.batch) == [] then !threw && Waiting([]) else Done(old(cur.batch), outs, threw)
      ensures old(Whole()) ==> old(Settled()) <= History() <= issued && (NoLateFailure(outs) || !threw ==> Whole())
      ensures |old(cur.batch)| <= AtLeastOne(batchSize) && old(Whole()) ==> History() == issued
    {
      threw := FlushOld(o);
      if threw { return; }
      threw := FlushCurrent(outs);
    }

    /** setBatchSize of the current environment. */
    method SetBatchSize(num: int, outs: Outcomes) returns (threw: bool)
      requires Valid()
      modifies this, cur
      ensures Valid() && Keeps(old(Books()), Books(), cur != old(cur))
      ensures issued == old(issued) && count == old(count)
      ensures Turned() && cur.size == if cur == old(cur) then Capped(num) else batchSize
      ensures if |old(cur.batch)| <= Capped(num) || old(cur.batch) == [] then !threw && Waiting(old(cur.batch))
        else Done(old(cur.batch), outs, threw)
      ensures old(Whole()) ==> old(Settled()) <= History() <= issued && (NoLateFailure(outs) || !threw ==> Whole())
    {
      cur.size := Capped(num);
      threw := false;
      if |cur.batch| > cur.size {
        threw := FlushCurrent(outs);
      }
    }
  }

  // ---------------------------------------------------------------- what an error after a rotation costs

  /** A put that fails stays in the batch. */
  method FailOnce() returns (c: TwoGenerations)
    ensures fresh(c) && fresh(c.cur) && fresh(c.prev) && c.Valid() && c.Whole() && c.count == 1
    ensures c.cur.size == c.batchSize == 1 && c.cur.batch == [Put(1, 5, 0)] && c.Settled() == []
  {
    c := new TwoGenerations(1, [], map[], map[], 0, [], []);
    var threw := c.Put(1, 5, [Fails]);
  }

  lemma TwoOps(a: Op, b: Op)
    ensures [a] + [b] == [a, b] && [a, b][..FirstWrite(1, 2)] == [a] && [] + [a] == [a]
  {
  }

  /** The next one finds the map full, and the write after the rotation fails: it now waits in the old
      environment only. */
  method LeaveBehind() returns (c: TwoGenerations)
    ensures fresh(c) && fresh(c.cur) && fresh(c.prev) && c.Valid() && c.Books().Rest(Put(2, 6, 1))
    ensures c.cur.size == c.batchSize == 1 && |c.cur.batch| <= 1
  {
    c := FailOnce();
    TwoOps(Put(1, 5, 0), Put(2, 6, 1));
    var threw := c.Put(2, 6, [Full, Fails]);
    assert Put(2, 6, 1) in [Put(1, 5, 0), Put(2, 6, 1)];
  }

  /** A flush that fits keeps it. */
  method CanKeepPut() returns (c: TwoGenerations)
    ensures fresh(c) && c.Valid() && Put(2, 6, 1) in c.prev.log
  {
    c := LeaveBehind();
    var threw := c.FlushOld(Fits);
  }

  /** Another rotation loses it. */
  method CanLosePut() returns (c: TwoGenerations)
    ensures fresh(c) && c.Valid() && c.Books().Lost(Put(2, 6, 1))
  {
    c := LeaveBehind();
    var threw := c.Put(3, 7, [Full]);
  }

  /** It is lost at once if the map of the new environment is full, too, before the error. */
  method LostAtOnce() returns (c: TwoGenerations)
    ensures fresh(c) && c.Valid() && c.Books().Lost(Put(2, 6, 1))
  {
    c := FailOnce();
    TwoOps(Put(1, 5, 0), Put(2, 6, 1));
    TwiceFull();
    var threw := c.Put(2, 6, [Full, Full, Fails]);
    OnlyFirst(c.Books(), Put(1, 5, 0), Put(2, 6, 1));
  }

  lemma TwiceFull()
    ensures Later([Full, Full, Fails]) == [Full, Fails] && Doomed([Full, Fails])
  {
    assert [Full, Fails][1..] == [Fails] && Doomed([Fails]);
  }

  lemma OnlyFirst(b: Books, a: Op, op: Op)
    requires b.settled + b.batch == [a] && Ops(b.behind) <= Ops(b.settled + b.batch) && op in b.issued && op != a
    ensures b.Lost(op)
  {
    assert Ops(b.settled + b.batch) == Ops(b.settled) + Ops(b.batch) && Ops([a]) == {a};
  }

  // ---------------------------------------------------------------- any run

  /** What a user of the cache may do; how the writes end is not up to the user. */
  datatype Step =
    | DoPut(key: int, val: int, outs: Outcomes)
    | DoFlush(o: Outcome, outs: Outcomes)
    | DoResize(num: int, outs: Outcomes)
    | DoRemoveStale

  /** The put of a step. */
  function PutOf(step: Step, num: nat): seq<Op> { if step.DoPut? then [Put(step.key, step.val, num)] else [] }

  /** The puts of a run, numbered from `first`. */
  function Puts(steps: seq<Step>, first: nat): seq<Op> {
    if steps == [] then []
    else
      var before := Puts(steps[..|steps| - 1], first);
      before + PutOf(steps[|steps| - 1], first + |before|)
  }

  /** What becomes of the puts that waited in the previous environment only. */
  datatype Fate = Waits | Written | Closed

  function FateIn(step: Step, closed: bool): Fate {
    if step.DoFlush? && step.o.Fits? then Written else if closed then Closed else Waits
  }

  /** The first of a flush of that environment that fits, and of a rotation, decides.  `nums` are the numbers
      of the current environment before each step and at the end. */
  function FateOf(steps: seq<Step>, nums: seq<nat>): Fate
    requires |nums| == |steps| + 1
  {
    if steps == [] then Waits
    else
      var n := |steps| - 1;
      var fate := FateOf(steps[..n], nums[..n + 1]);
      if fate != Waits then fate else FateIn(steps[n], nums[n] != nums[n + 1])
  }

  ghost predicate Meets(b: Books, op: Op, fate: Fate) {
    match fate
    case Waits => b.Rest(op)
    case Written => op in Ops(b.settled)
    case Closed => b.Lost(op)
  }

  /** What is written stays written, what is lost stays lost, and the puts that waited meet their fate. */
  ghost predicate Follows(b: Books, b': Books, fate: Fate) {
    && Ops(b.settled) <= Ops(b'.settled)
    && (forall op :: b.Lost(op) ==> b'.Lost(op))
    && (forall op :: b.Rest(op) ==> Meets(b', op, fate))
  }

  lemma FollowsOn(a: Books, b: Books, c: Books, fate: Fate, next: Fate)
    requires Follows(a, b, fate) && Follows(b, c, next)
    ensures Follows(a, c, if fate != Waits then fate else next)
  {
    forall op | a.Rest(op) ensures Meets(c, op, if fate != Waits then fate else next) {
      assert Meets(b, op, fate);
    }
  }

  /** No write of the step fails after a rotation. */
  ghost predicate Calm(step: Step) { step.DoRemoveStale? || NoLateFailure(step.outs) }

  /** One step of a run. */
  method Do(c: TwoGenerations, step: Step)
    requires c.Valid()
    modifies c, c.cur, c.prev
    ensures c.Valid() && (c.cur == old(c.cur) || fresh(c.cur)) && c.cur.num >= old(c.cur.num)
    ensures c.prev == old(c.prev) || c.prev == old(c.cur) || fresh(c.prev)
    ensures c.issued == old(c.issued) + PutOf(step, old(c.count))
    ensures c.count == old(c.count) + |PutOf(step, old(c.count))|
    ensures Follows(old(c.Books()), c.Books(), FateIn(step, old(c.cur.num) != c.cur.num))
    ensures old(c.Whole()) && Calm(step) ==> c.Whole()
  {
    var threw;
    match step
    case DoPut(key, val, outs) => threw := c.Put(key, val, outs);
    case DoFlush(o, outs) => threw := c.FlushNow(o, outs);
    case DoResize(num, outs) => threw := c.SetBatchSize(num, outs);
    case DoRemoveStale => c.RemoveStale();
  }

  /** The puts issued, and the number of the next one, after these steps. */
  ghost predicate After(steps: seq<Step>, before: seq<Op>, first: nat, issued: seq<Op>, count: nat) {
    issued == before + Puts(steps, first) && count == first + |Puts(steps, first)|
  }

  lemma AfterStep(steps: seq<Step>, i: nat, before: seq<Op>, first: nat, issued: seq<Op>, count: nat)
    requires i < |steps| && After(steps[..i], before, first, issued, count)
    ensures var more := PutOf(steps[i], count);
      After(steps[..i + 1], before, first, issued + more, count + |more|)
  {
    assert steps[..i + 1][..i] == steps[..i];
  }

  lemma FateStep(steps: seq<Step>, i: nat, nums: seq<nat>, n: nat)
    requires i < |steps| && |nums| == i + 1
    ensures FateOf(steps[..i + 1], nums + [n]) ==
      var fate := FateOf(steps[..i], nums); if fate != Waits then fate else FateIn(steps[i], nums[i] != n)
  {
    assert steps[..i + 1][..i] == steps[..i] && (nums + [n])[..i + 1] == nums;
  }

  method Steps(c: TwoGenerations, steps: seq<Step>) returns (ghost nums: seq<nat>)
    requires c.Valid()
    modifies c, c.cur, c.prev
    ensures c.Valid() && After(steps, old(c.issued), old(c.count), c.issued, c.count)
    ensures |nums| == |steps| + 1 && nums[0] == old(c.cur.num) && nums[|steps|] == c.cur.num >= nums[0]
    ensures Follows(old(c.Books()), c.Books(), FateOf(steps, nums))
    ensures old(c.Whole()) && (forall i :: 0 <= i < |steps| ==> Calm(steps[i])) ==> c.Whole()
  {
    nums := [c.cur.num];
    ghost var first, before, b, whole := c.count, c.issued, c.Books(), c.Whole();
    for i := 0 to |steps|
      invariant c.Valid() && (c.cur == old(c.cur) || fresh(c.cur))
      invariant c.prev == old(c.prev) || c.prev == old(c.cur) || fresh(c.prev)
      invariant After(steps[..i], before, first, c.issued, c.count)
      invariant |nums| == i + 1 && nums[0] == old(c.cur.num) && nums[i] == c.cur.num >= nums[0]
      invariant Follows(b, c.Books(), FateOf(steps[..i], nums))
      invariant whole && (forall k :: 0 <= k < i ==> Calm(steps[k])) ==> c.Whole()
    {
      ghost var b1 := c.Books();
      AfterStep(steps, i, before, first, c.issued, c.count);
      Do(c, steps[i]);
      FateStep(steps, i, nums, c.cur.num);
      FollowsOn(b, b1, c.Books(), FateOf(steps[..i], nums), FateIn(steps[i], nums[i] != c.cur.num));
      nums := nums + [c.cur.num];
    }
    assert steps[..|steps|] == steps;
  }

  /** Over any run, whatever fails and however it ends: every put is in a log, or in a batch, or was in the batch
      of an environment that was closed.  The puts that waited in the previous environment only are lost exactly
      if it is closed, by a rotation or by the end, before a flush of it fits.  If no write fails after a
      rotation, all puts are there, in order. */
  method Run(c: TwoGenerations, steps: seq<Step>, close: bool) returns (ghost nums: seq<nat>)
    requires c.Valid()
    modifies c, c.cur, c.prev
    ensures c.Books().Conserved() && c.shut == close && c.issued == old(c.issued) + Puts(steps, old(c.count))
    ensures |nums| == |steps| + 1 && nums[0] == old(c.cur.num) && nums[|steps|] == c.cur.num >= nums[0]
    ensures var fate := FateOf(steps, nums);
      Follows(old(c.Books()), c.Books(), if close && fate == Waits then Closed else fate)
    ensures old(c.Whole()) && (forall i :: 0 <= i < |steps| ==> Calm(steps[i])) ==> c.Whole()
  {
    nums := Steps(c, steps);
    if close {
      ghost var b := c.Books();
      c.Close();
      FollowsOn(old(c.Books()), b, c.Books(), FateOf(steps, nums), Closed);
    }
  }
}
