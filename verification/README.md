# A model of LMDB and of node-kv's cache on top of it

node-kv keeps its data in LMDB (3rd-party/liblmdb, version 0.9.14): a memory-mapped B+tree with one
writer and any number of readers, in which a writer never touches a page a reader can see, and pages
come back into use through a free list kept inside the database.  On top of it, lib/cache keeps two
generations of an environment.  This project states in Dafny what that code does and proves what it is
for.  `dafny verify dfyconfig.toml` checks everything.

What is proved, hardest first:

- **Readers see a fixed snapshot** (Mvcc): over every run of readers, writers, free list saves, page
  write-backs and crashes, a pinned snapshot reads the same, page for page, from the step that pinned it
  to the step that lets it go; no page of it is ever handed out; a crash at any step leaves one of two
  named snapshots, whole; and the page numbers are always partitioned.
- **The tree is a map** (BTree, BTreePut, BTreeDel, Capacity, CrowdedBranch, Database): any run of gets, puts and
  deletes answers and ends as on a map, with depth, entry and page counters right, whatever splits,
  merges, moves and root changes it takes.  An operation fails exactly where a page is split without
  looking at sizes and a half does not fit; with keys of at most 90 bytes, and no nodes between 100
  bytes and a sixteenth of a page, that never happens.
- **Allocation and the free list** (IdList, IdSort, PageAlloc, AllocSteps, FreelistSave): the
  single-comparison run search is exact, the in-place merge and sort are right within their stack, every
  allocation is a run of steps of the snapshot protocol, and saving the free list is one of its steps.
- **Cursors** (CursorPath, Cursor, EndFlag): positions on page stacks are positions in the ordered contents;
  next, prev, first, last and set with its shortcut move by just what they should.
- **Page bytes** (Extents, SlottedPage, PageRoom): adding, deleting and re-keying a node in place read
  back exactly, with no gap and no overlap, and a page is full just when the tree says so.
- **Nested transactions** (DirtyList, SpillList, Nested, DirtyRoom): a commit lets the parent read what
  the child read, also where pages were spilled; the in-place list merge is exact, and so is what the
  room left says about its length, over any run.
- **Compacting copy and drop** (CompactCopy, DropWalk): the copy is the tree and only that tree; a drop
  frees every page exactly once.
- **Two generations** (Cache): whatever fails, no put vanishes but from the batch of an environment that is
  closed; none is lost or reordered by flushes and rotations, also when one rotation leads to the next,
  but for errors right after a rotation.

Keys are a number and a length.  KeyOrder justifies that: the two byte-wise comparison functions order
keys as numbers are ordered, and different keys have different numbers.  Values are sequences, page
contents on disk are opaque.  The outside world enters as parameters: how each write of a batch
ends (`outs`), whether an overflow run can be reused (`keep`), which pages the operating system writes back
early (a step of the protocol).

Where the code does not do what is said about it:

- mdb_page_split skips the size scan on a page of 20 nodes or more for a small node in the middle
  (mdb.c:7996), and then mdb_node_add can report a full page, which its comment calls impossible
  (mdb.c:6663-6665).  `Capacity.InsertCanFail` is such a page and `CrowdedBranch.DelCanFail` a tree on
  which deleting a key fails for it; `Capacity.InsertFailsIff` and `Capacity.DelFailsIff` say exactly
  when; `Capacity.TameRoomy` and `Capacity.ShortRoomy` say when never.
- The length a top-level parent's dirty list is given at the commit of a child comes from mt_dirty_room
  (mdb.c:3282).  mdb_ovpage_free takes a run off the dirty list and does not give its place back
  (mdb.c:5178-5195); copying a dirty page of an ancestor takes no place (mdb.c:2236-2262), but spilling the
  copy gives one back (mdb.c:3171).  So the length is right exactly if as many runs were freed as such
  copies were spilled, at any depth of nesting (`DirtyRoom.ShortcutLength`); it can be too large
  (`DirtyRoom.ShortcutTooLong`) or too small (`DirtyRoom.ShortcutTooShort`).  In both cases the merge,
  if it stays in the list at all, does not end where the assertion at mdb.c:3293 wants it
  (`DirtyList.Merge`).
- A child that spills its copy of a page that its parent has dirty leaves, when it commits, the page on both
  lists of the parent.  The parent reads the spilled content, but its flush writes the old one over it
  (`Nested.CommitKeepsApart`, `Nested.FlushKeepsContent`, `Nested.FlushCanOverwrite`).
- The sum in the midpoint of mdb_midl_sort (midl.c:246) stays in the range of int on every list of at most
  2^30+3 entries, and for every greater length there is a list on which the sort reaches a segment where
  it does not (`IdSort.Sort`, `IdSort.SortAwkward`).
- A compacting copy writes the root ahead.  In every committed state the last page it foretells is right,
  and the root is right exactly if the main tree is not empty; for an empty one it should be P_INVALID and
  is a page number (`CompactCopy.CommittedCopy`, `CompactCopy.EmptyCopy`).
- A set that finds nothing and stays on the current page keeps the end flag of an earlier scan, and then
  next reports not found although entries follow.  That happens exactly if the flag was set and the current
  page has two entries or more above the key, and either the cursor's stack is one page or the key is
  above the first of the page (`EndFlag.SetNext`); `EndFlag.EndFlagStays` is a case with two leaves.
- The cache reads `current || old`, so a value that counts as false hides behind an older one
  (`Cache.EitherLatest`, `Cache.CanBeStale`).
- If a write after a rotation fails for another reason than a full map, the rest of the batch is not put
  again.  It still waits in the batch of the environment that was full, which is the old one now, and is
  written by the next flush of the cache that fits there.  It is lost exactly if that environment is closed
  before, by another rotation or by close (`Cache.Run`, `Cache.CanKeepPut`, `Cache.CanLosePut`), which can
  happen within the same call (`Cache.LostAtOnce`).
- Closing the cache flushes neither batch, so the puts that wait are lost (`Cache.TwoGenerations.Close`).
- The old generation that is opened at the start is given the number of the current one
  (lib/cache/env.js:75); nothing reads it.

## Model

| member | source | states |
|---|---|---|
| `Mvcc.SnapshotIsolation` | 3rd-party/liblmdb/mdb.c:2527-2530 | in every run from a fresh environment, a reader whose slot stays taken from step i to step j reads at j, page for page, what it read at i, whatever the writers did in between |
| `Mvcc.NeverHandedOut` | 3rd-party/liblmdb/mdb.c:2018-2044 | in every reachable state no page of a pinned snapshot, nor of the last committed one, is handed out for writing or written, and the cached oldest id is never above the true oldest one |
| `Mvcc.CrashAtomicity` | 3rd-party/liblmdb/mdb.c:3372-3375 | after a crash at any step, the newer meta page names the published snapshot, or the committing one once its meta write has happened, with all its pages intact |
| `Mvcc.PageConservation` | 3rd-party/liblmdb/mdb.c:1493-1541 | in every reachable state the page numbers are partitioned among live, reclaimed, loose, freed and filed pages; between transactions free + used + 2 = next page number |
| `Mvcc.RunKeeps` | 3rd-party/liblmdb/mdb.c:1939-2104 | the invariant (pinned snapshots intact on disk and apart from what the writer holds, record keys truthful, pages conserved, cached oldest id a lower bound) holds after every step of every run of readers, writers and crashes |
| `Mvcc.StepKeeps` | 3rd-party/liblmdb/mdb.c:2841-3028 | each single step keeps the invariant |
| `Mvcc.ReaderBeginKeeps` | 3rd-party/liblmdb/mdb.c:2527-2530 | pinning the newest snapshot keeps the invariant |
| `Mvcc.ReaderEndKeeps` | 3rd-party/liblmdb/mdb.c:2771-2777 | a reader that leaves keeps the invariant, although the oldest id may now be larger than the cached one |
| `Mvcc.WriterBeginKeeps` | 3rd-party/liblmdb/mdb.c:2532-2560 | a writer that starts from the newest meta page with nothing of its own keeps the invariant |
| `Mvcc.ConsumeKeeps` | 3rd-party/liblmdb/mdb.c:2018-2044 | taking over the pages of a record below the cached oldest id keeps the invariant: none of them is in a pinned snapshot |
| `Mvcc.AllocConserves` | 3rd-party/liblmdb/mdb.c:1964-2104 | taking a loose, reclaimed or new page keeps the page numbers partitioned |
| `Mvcc.FreeConserves` | 3rd-party/liblmdb/mdb.c:1642-1686 | giving a page up, as loose or as freed, keeps the page numbers partitioned |
| `Mvcc.SaveKeeps` | 3rd-party/liblmdb/mdb.c:2890-2976 | re-filing left-over pages under recycled keys keeps the invariant: the pages of a record are in no snapshot from its key on |
| `Mvcc.SaveConserves` | 3rd-party/liblmdb/mdb.c:2841-3028 | saving the free list keeps the page numbers partitioned and all keys at or below the transaction |
| `Mvcc.WriteMetaKeeps` | 3rd-party/liblmdb/mdb.c:3585-3612 | replacing the older meta page by one whose snapshot is already durable keeps the invariant |
| `Mvcc.AbortKeeps` | 3rd-party/liblmdb/mdb.c:2784-2798 | an abort at any point keeps the invariant: what was reclaimed is filed as before |
| `Mvcc.FindOldestKeeps` | 3rd-party/liblmdb/mdb.c:1887-1903 | refreshing the cached oldest id keeps it a lower bound |
| `Mvcc.CrashKeeps` | 3rd-party/liblmdb/mdb.c:3653-3657 | a crash at any point keeps the invariant, and the newest meta page is the one it was |
| `Mvcc.CountsRecords` | 3rd-party/liblmdb/mdb.c:1501-1505 | adding the lengths of the records up counts the filed pages |
| `Mvcc.FreshOk` | 3rd-party/liblmdb/mdb.c:3480-3526 | a new environment satisfies the invariant |
| `Mvcc.ConsumeConserves` | 3rd-party/liblmdb/mdb.c:2045-2071 | taking a record over keeps the page numbers partitioned |
| `Mvcc.WriteOutKeeps` | 3rd-party/liblmdb/mdb.c:3035-3174 | writing a dirty page out keeps the invariant: it is in no pinned snapshot |
| `Mvcc.DurableKeeps` | 3rd-party/liblmdb/mdb.c:3372-3373 | the operating system writing pages back early, and the sync, keep the invariant |
| `Mvcc.CommittedOk` | 3rd-party/liblmdb/mdb.c:3585-3591 | the snapshot about to be named by the meta page is consistent |
| `Mvcc.PublishKeeps` | 3rd-party/liblmdb/mdb.c:3643-3644 | publishing the id of the new snapshot keeps the invariant |
| `Mvcc.HandedApart` | 3rd-party/liblmdb/mdb.c:2018-2044 | what a step may hand out belongs to no pinned snapshot |
| `Mvcc.SavedSeparate` | 3rd-party/liblmdb/mdb.c:3000-3026 | no page is in two records after the save |
| `IdList.Search` | 3rd-party/liblmdb/midl.c:33-66 | position of an id in a descending list, or of the first smaller one |
| `IdList.XMerge` | 3rd-party/liblmdb/midl.c:202-214 | in-place backward merge: the result holds both lists and is in descending order |
| `IdList.AppendRange` | 3rd-party/liblmdb/midl.c:186-200 | the list followed by the range, largest id first, grown if it must be |
| `IdList.Grow` | 3rd-party/liblmdb/midl.c:132-142 | a larger list with the same entries |
| `IdList.FillRange` | 3rd-party/liblmdb/midl.c:196-198 | the loop that writes the range |
| `IdList.AppendList` | 3rd-party/liblmdb/midl.c:172-184 | the entries of one list behind those of the other, grown if it must be |
| `IdSort.Sort` | 3rd-party/liblmdb/midl.c:221-280 | descending permutation, in place, nothing beyond the list touched, never more than 64 stack slots, no scan out of range; the sum in the midpoint stays in the range of int for every list of at most 2^30+3 entries, and leaves it for the awkward lists of any greater length |
| `IdSort.InsertionSort` | 3rd-party/liblmdb/midl.c:233-241 | sorts a short segment although its scan runs down to index 1: it never crosses the segment |
| `IdSort.MedianOfThree` | 3rd-party/liblmdb/midl.c:246-256 | the median of the first, middle and last entry becomes the pivot, with sentinels at both ends of the segment |
| `IdSort.Partition` | 3rd-party/liblmdb/midl.c:257-267 | one pass around that pivot: left part not below it, right part not above, scans inside the segment |
| `IdSort.DepthBound` | 3rd-party/liblmdb/midl.c:224-225 | a segment that is still partitioned is at depth 27 or less, because the smaller part goes first |
| `IdSort.LongRound` | 3rd-party/liblmdb/midl.c:246-277 | pushes the larger part and goes on with the smaller, within the stack; which segment comes next follows from the pivot |
| `IdSort.ScanRight` | 3rd-party/liblmdb/midl.c:261 | stops at the first entry not above the pivot, at the sentinel at the latest |
| `IdSort.ScanLeft` | 3rd-party/liblmdb/midl.c:262 | stops at the first entry not below the pivot, at the sentinel at the latest |
| `IdSort.ShortRound` | 3rd-party/liblmdb/midl.c:233-245 | a short segment is sorted and the next one is taken from the stack |
| `IdSort.Turn` | 3rd-party/liblmdb/midl.c:232-279 | one turn keeps what sorted segments, waiting segments and the stack say together |
| `IdSort.SortAwkward` | 3rd-party/liblmdb/midl.c:246 | for every length from 20 on there is a list which the sort takes through, if and only if the length is at most 2^30+3, without leaving the range of int |
| `IdSort.AwkwardFollows` | 3rd-party/liblmdb/midl.c:246-277 | on such a list the first round goes on with the last nine entries, so that the next midpoint adds up to twice the length less 8 |
| `IdSort.Turns` | 3rd-party/liblmdb/midl.c:232-279 | the turns end with a sorted list, or with a midpoint out of range |
| `IdSort.OrderThree` | 3rd-party/liblmdb/midl.c:250-256 | sorts three entries, the median in the middle |
| `PageAlloc.FindRun` | 3rd-party/liblmdb/mdb.c:1991-2000 | on a strictly descending list the single comparison finds a run of num pages if and only if there is one |
| `PageAlloc.EndsDecide` | 3rd-party/liblmdb/mdb.c:1992-1997 | equal distance in value and position means that all between is consecutive |
| `PageAlloc.RunAdjacent` | 3rd-party/liblmdb/mdb.c:1991-2000 | a run anywhere in the list passes the comparison |
| `PageAlloc.RemoveRun` | 3rd-party/liblmdb/mdb.c:2092-2096 | takes the run out of the list in place |
| `PageAlloc.RunRemoved` | 3rd-party/liblmdb/mdb.c:2092-2096 | what is left is the other pages, still strictly descending |
| `PageAlloc.InsertRun` | 3rd-party/liblmdb/mdb.c:5196-5204 | puts a run of pages back into the list in place |
| `PageAlloc.RunInserted` | 3rd-party/liblmdb/mdb.c:5196-5204 | the list stays strictly descending and becomes the union |
| `PageAlloc.MergedStrictly` | 3rd-party/liblmdb/midl.c:202-214 | merging two disjoint strict lists gives the strict list of their union |
| `PageAlloc.FindOldest` | 3rd-party/liblmdb/mdb.c:1887-1903 | the smallest id any reader in use has, or the last committed one |
| `PageAlloc.Need` | 3rd-party/liblmdb/midl.c:144-156 | room for more entries, same entries |
| `PageAlloc.Allocator.OldEnough` | 3rd-party/liblmdb/mdb.c:2020-2028 | a record is used only below the oldest id; the reader table is scanned at most once |
| `PageAlloc.Allocator.Absorb` | 3rd-party/liblmdb/mdb.c:2051-2071 | a record is merged into the reclaimed list and marked as consumed |
| `PageAlloc.Allocator.TryRecord` | 3rd-party/liblmdb/mdb.c:2018-2044 | the next record is consumed exactly when it exists and is old enough |
| `PageAlloc.Allocator.Hunt` | 3rd-party/liblmdb/mdb.c:1983-2072 | the search ends with a run, or with the proof that there is none and that no further record may be used, unless it gave up after 60 tries per page |
| `PageAlloc.Allocator.Alloc` | 3rd-party/liblmdb/mdb.c:1939-2104 | which page is handed out and from where; reclaimed pages, consumed records and the pages handed out always make up the same set; which record was consumed last, and that the cached oldest id is the old one or the result of a scan; map full cases; transaction full exactly if there is neither a loose page to use nor dirty room |
| `PageAlloc.Allocator.Round` | 3rd-party/liblmdb/mdb.c:1983-2072 | one round finds a run, or moves on to the next record, or shows that neither is possible; the tries left cover the records left |
| `PageAlloc.Allocator.Obtain` | 3rd-party/liblmdb/mdb.c:1983-2100 | the pages come from the reclaimed list or from the end of the file |
| `PageAlloc.StillFiled` | 3rd-party/liblmdb/mdb.c:2045-2071 | whatever is left of the reclaimed pages is apart from the records not consumed yet |
| `AllocSteps.AllocRun` | 3rd-party/liblmdb/mdb.c:1939-2104 | every call of the allocator is a run of enabled steps of the snapshot protocol (a look at the reader table, records consumed, pages taken) that ends in the state of the allocator, and the pages handed out are in no pinned snapshot |
| `AllocSteps.ConsumeSteps` | 3rd-party/liblmdb/mdb.c:2018-2071 | records that are old enough are consumed in order, each by an enabled step |
| `AllocSteps.CanKeeps` | 3rd-party/liblmdb/mdb.c:1939-2104 | enabled steps keep the invariant of the protocol |
| `AllocSteps.OwnedApart` | 3rd-party/liblmdb/mdb.c:2018-2044 | pages the writer allocated are in no snapshot that is pinned |
| `FreelistSave.Reserve` | 3rd-party/liblmdb/mdb.c:2937-2976 | the reservation loop terminates and reserves enough room |
| `FreelistSave.ShareFillsPage` | 3rd-party/liblmdb/mdb.c:2955-2958 | rounding a share up leaves a full page at least |
| `FreelistSave.Fill` | 3rd-party/liblmdb/mdb.c:3000-3026 | the fill loop writes the list, from its end, into the records in key order, each within its room, and restores the list |
| `FreelistSave.InSomeRecord` | 3rd-party/liblmdb/mdb.c:3000-3026 | a page is in the list if and only if it is in some record |
| `FreelistSave.NotTwice` | 3rd-party/liblmdb/mdb.c:3000-3026 | no page is in two records |
| `FreelistSave.StrictRecord` | 3rd-party/liblmdb/mdb.c:3000-3026 | each record is a strictly descending list |
| `FreelistSave.Refile` | 3rd-party/liblmdb/mdb.c:2937-3026 | reserving and filling together are an enabled save step of the protocol for a write transaction with these pages left over: keys between 1 and the last key consumed, every page in exactly one record |
| `FreelistSave.ReturnLoose` | 3rd-party/liblmdb/mdb.c:2978-2998 | the loose pages, sorted and merged, join the reclaimed list, which stays strict; false only if there are more than the sort can take |
| `FreelistSave.WriteRecord` | 3rd-party/liblmdb/mdb.c:3012-3022 | one record is a list of its own, and the list it was cut from is restored |
| `FreelistSave.FillRecord` | 3rd-party/liblmdb/mdb.c:3005-3024 | one record takes its share from the end of what is left |
| `FreelistSave.PutRoomSum` | 3rd-party/liblmdb/mdb.c:2953-2975 | writing a record anew keeps the total room right |
| `FreelistSave.FiledApart` | 3rd-party/liblmdb/mdb.c:3000-3026 | the records filed share no page |
| `FreelistSave.FiledAll` | 3rd-party/liblmdb/mdb.c:3000-3026 | the records filed hold all pages of the list |
| `FreelistSave.SortedStrictly` | 3rd-party/liblmdb/mdb.c:2986-2996 | a sorted list of distinct pages is strictly descending |
| `Split.AtMostHalf` | 3rd-party/liblmdb/mdb.c:3889-3891 | no node of a legal key takes more than half of a page |
| `Split.CheckedSplitFits` | 3rd-party/liblmdb/mdb.c:7996-8026 | whenever the sizes are scanned, both halves are non-empty and fit their pages |
| `Split.FindSplit` | 3rd-party/liblmdb/mdb.c:7996-8026 | the scanning loop computes the split index |
| `Split.UncheckedFitsIff` | 3rd-party/liblmdb/mdb.c:7911-7996 | without the scan the half that gets the new node fits if and only if its old nodes leave room for it |
| `Split.UncheckedCanOverflow` | 3rd-party/liblmdb/mdb.c:7911-7996 | a full page of 20 nodes and a small new node for which it does not |
| `Split.MoveNodes` | 3rd-party/liblmdb/mdb.c:8095-8171 | the loop that wraps around moves every node to its page: left plus right is the old page with the new node, and the cursor index is the new node's |
| `Split.BranchHalves` | 3rd-party/liblmdb/mdb.c:7996-8026 | each half of a split branch page has two children at least |
| `BTree.PairsSorted` | 3rd-party/liblmdb/mdb.c:4966-5030 | the contents of a well-formed tree are strictly ordered and within its bounds |
| `BTree.GetIsLookup` | 3rd-party/liblmdb/mdb.c:4966-5030 | lookup by descent is lookup in the ordered contents |
| `NodeSearch.Search` | 3rd-party/liblmdb/mdb.c:4762-4851 | binary search: the smallest entry that is not below the key, and whether it is the key; slot 0 of a branch page is never compared |
| `NodeSearch.Follow` | 3rd-party/liblmdb/mdb.c:4983-4998 | the child whose range covers the key |
| `NodeSearch.Locate` | 3rd-party/liblmdb/mdb.c:4762-4851 | on a leaf: the position of the key in the contents |
| `NodeSearch.ChildIndexUnique` | 3rd-party/liblmdb/mdb.c:4983-4998 | only one child has a range that covers the key |
| `BTreePut.UpsertLookup` | 3rd-party/liblmdb/mdb.c:6338-6369 | storing a pair changes the lookup of that key only |
| `BTreePut.PutLeafOk` | 3rd-party/liblmdb/mdb.c:6278-6388 | storing on a leaf, in place, anew, or with a split: halves ordered and fitting, contents changed by the pair only |
| `BTreePut.SplitLeafOk` | 3rd-party/liblmdb/mdb.c:8027-8034 | the halves of a split leaf, divided by the first key of the right one, make up the leaf |
| `BTreePut.SplitBranchOk` | 3rd-party/liblmdb/mdb.c:8027-8140 | the halves of a split branch page are well-formed pages with two children at least |
| `BTreePut.InsertOk` | 3rd-party/liblmdb/mdb.c:7838-8171 | an insertion that succeeds leaves a well-formed tree: equal depth, separators that bound their subtrees, pages that fit |
| `BTreePut.InsertKeeps` | 3rd-party/liblmdb/mdb.c:7838-8171 | its contents are the old ones with the new pair, and the leaf and branch pages allocated are counted right |
| `BTreePut.NewEntryOk` | 3rd-party/liblmdb/mdb.c:6614-6651 | the node of a legal key takes at most half a page |
| `BTreePut.PutBranchOk` | 3rd-party/liblmdb/mdb.c:8042-8082 | a branch page that gets a child, split or not, is well-formed |
| `BTreePut.PutBranchKeeps` | 3rd-party/liblmdb/mdb.c:8042-8082 | and its children hold what they held, pages counted |
| `BTreeDel.RemoveLookup` | 3rd-party/liblmdb/mdb.c:7706-7717 | removing a key changes the lookup of that key only |
| `BTreeDel.Tighten` | 3rd-party/liblmdb/mdb.c:5038-5052 | the lowest key below a page may serve as its lower bound |
| `BTreeDel.MergeOk` | 3rd-party/liblmdb/mdb.c:7402-7443 | a merge always fits the page and leaves enough nodes on it |
| `BTreeDel.MergeKeeps` | 3rd-party/liblmdb/mdb.c:7402-7462 | and keeps the entries in order, with one page less |
| `BTreeDel.MoveLeftOk` | 3rd-party/liblmdb/mdb.c:7196-7370 | taking the first node of the right neighbour: both pages well-formed, the new separator between them |
| `BTreeDel.MoveRightOk` | 3rd-party/liblmdb/mdb.c:7196-7370 | taking the last node of the left neighbour, likewise |
| `BTreeDel.MoveLeftKeeps` | 3rd-party/liblmdb/mdb.c:7196-7370 | the entries keep their order |
| `BTreeDel.MoveRightKeeps` | 3rd-party/liblmdb/mdb.c:7196-7370 | likewise |
| `BTreeDel.RebalanceOk` | 3rd-party/liblmdb/mdb.c:7535-7703 | rebalancing restores two children on every branch page and one entry on every leaf below the root, also when the longer separator makes the parent split (mdb_update_key) |
| `BTreeDel.RebalanceKeeps` | 3rd-party/liblmdb/mdb.c:7535-7703 | and keeps the in-order entries |
| `BTreeDel.DelKeepsForm` | 3rd-party/liblmdb/mdb.c:7706-7717 | a deletion that succeeds, with all the rebalancing above it, leaves a well-formed tree |
| `BTreeDel.DelKeeps` | 3rd-party/liblmdb/mdb.c:7706-7717 | its contents are the old ones without the key, and the pages given up or allocated are counted right |
| `BTreeDel.DelLeafOk` | 3rd-party/liblmdb/mdb.c:7714-7716 | the leaf without the entry |
| `Capacity.SplitLeafIff` | 3rd-party/liblmdb/mdb.c:7996-8140 | the split of an overfull leaf fails if and only if sizes are not looked at and the half with the new node is too large |
| `Capacity.SplitBranchIff` | 3rd-party/liblmdb/mdb.c:7996-8140 | likewise for a branch page, where the first separator of the right half becomes empty |
| `Capacity.InsertFailsIff` | 3rd-party/liblmdb/mdb.c:7911-8140 | an insertion fails if and only if one of the pages it splits on its way up is such a page, told from the pages on the way alone |
| `Capacity.DelFailsIff` | 3rd-party/liblmdb/mdb.c:7158-7165 | a deletion fails if and only if a separator it replaces makes such a page split, told from the pages on the way and their neighbours alone |
| `Capacity.InsertCanFail` | 3rd-party/liblmdb/mdb.c:7996 | a well-formed leaf of 20 entries and a key for which storing does fail |
| `Capacity.InsertShort` | 3rd-party/liblmdb/mdb.c:7838-8171 | storing a key of at most 90 bytes keeps all keys and separators that short |
| `Capacity.DelShort` | 3rd-party/liblmdb/mdb.c:7535-7703 | so does deleting, whatever is moved or merged |
| `Capacity.TameRoomy` | 3rd-party/liblmdb/mdb.c:7996 | with keys of at most 90 bytes, storing a node of at most 100 bytes or of more than a sixteenth of a page never fails |
| `Capacity.ShortRoomy` | 3rd-party/liblmdb/mdb.c:7158-7165 | with keys of at most 90 bytes deleting never fails |
| `Capacity.RisingIs` | 3rd-party/liblmdb/mdb.c:8027-8140 | the separator told from the pages on the way is the one a successful insertion brings up |
| `Capacity.FallsIs` | 3rd-party/liblmdb/mdb.c:7535-7703 | what the old pages on the way and their neighbours tell (nothing, a separator, or a page that lost a node) is what a deletion that does not fail brings up, on every level |
| `CrowdedBranch.DelCanFail` | 3rd-party/liblmdb/mdb.c:7158-7165 | a well-formed tree of 21 leaves and a key for which deleting does fail |
| `Database.InstalledOk` | 3rd-party/liblmdb/mdb.c:7869-7893 | a split root gets a new root above it, depth and branch count follow |
| `Database.SettledOk` | 3rd-party/liblmdb/mdb.c:7557-7632 | an emptied tree goes, a root with one child is replaced by it, depth and counts follow |
| `Database.PutStep` | 3rd-party/liblmdb/mdb.c:6356-6444 | the record after storing a key: map updated at the key, all counters right |
| `Database.DelStep` | 3rd-party/liblmdb/mdb.c:7706-7717 | the record after deleting a key: map without the key, all counters right |
| `Database.Db.Get` | 3rd-party/liblmdb/mdb.c:5246-5265 | answers as a map does, with the error codes |
| `Database.Db.Put` | 3rd-party/liblmdb/mdb.c:5968-6453 | every outcome of storing a key and the map after it: too large, key exists, stored, or failed exactly when a page on the way is not roomy, which never happens with short keys and no medium-sized nodes |
| `Database.Db.Del` | 3rd-party/liblmdb/mdb.c:7767-7826 | every outcome of deleting a key and the map after it: not found, deleted, or failed exactly when a page on the way is not roomy, which never happens on short keys |
| `Database.Db.Run` | 3rd-party/liblmdb/mdb.c:8230-8245 | any sequence of gets, puts and deletes answers and ends like the same sequence on a map; if an operation fails, all answers before it were right; with keys of at most 90 bytes and no nodes between 100 bytes and a sixteenth of a page none fails; entries, depth and page counters equal the real counts throughout |
| `Database.PutFailsIff` | 3rd-party/liblmdb/mdb.c:7911-8140 | storing into a database fails if and only if a page on the way to the key is not roomy |
| `Database.EraseStep` | 3rd-party/liblmdb/mdb.c:7706-7717 | the record after deleting a key, when that fails, and that it does not on short keys |
| `Database.Db.constructor` | 3rd-party/liblmdb/mdb.c:6027-6032 | a new database is an empty map |
| `Database.Db.Find` | 3rd-party/liblmdb/mdb.c:4966-5030 | the descent over the pages finds what the map holds |
| `Database.Db.Store` | 3rd-party/liblmdb/mdb.c:6076-6444 | the map gets the pair, or the transaction is broken exactly when there is no room |
| `Database.Db.Erase` | 3rd-party/liblmdb/mdb.c:7706-7717 | the map loses the key, or the transaction is broken exactly when there is no room |
| `Database.Db.Do` | 3rd-party/liblmdb/mdb.c:8230-8245 | one operation answers and changes the contents as on a map |
| `Database.Db.Settle` | 3rd-party/liblmdb/mdb.c:7557-7632 | the root page after a deletion |
| `Database.Db.Install` | 3rd-party/liblmdb/mdb.c:7869-7893 | the root page after an insertion |
| `Database.MapLookup` | 3rd-party/liblmdb/mdb.c:4966-5030 | looking a key up in the ordered contents is looking it up in their map |
| `KeyOrder.CmpMemn` | 3rd-party/liblmdb/mdb.c:4711-4727 | compares byte by byte, a prefix first |
| `KeyOrder.CmpMemnr` | 3rd-party/liblmdb/mdb.c:4730-4753 | the same from the last byte on |
| `KeyOrder.RankOrder` | 3rd-party/liblmdb/mdb.c:4711-4727 | the order of keys is the order of numbers |
| `KeyOrder.RankInjective` | 3rd-party/liblmdb/mdb.c:4711-4727 | different keys have different numbers |
| `Extents.InsertTiles` | 3rd-party/liblmdb/mdb.c:6735-6745 | a stretch put below a tiling extends it |
| `Extents.ClosedTiles` | 3rd-party/liblmdb/mdb.c:6829-6845 | a stretch taken out, with all below it moved up, leaves a tiling |
| `Extents.ResizedTiles` | 3rd-party/liblmdb/mdb.c:7157-7176 | a stretch that grows or shrinks at its start, with all below it moved, leaves a tiling |
| `SlottedPage.ReadsBack` | 3rd-party/liblmdb/mdb.c:6747-6778 | reading the header and what follows gives back the node that was written |
| `SlottedPage.AddKeeps` | 3rd-party/liblmdb/mdb.c:6735-6778 | a node written below the others leaves them as they are; nodes tile the page from mp_upper to its end |
| `SlottedPage.DelKeeps` | 3rd-party/liblmdb/mdb.c:6821-6845 | closing the gap keeps every other node, in order, and the tiling |
| `SlottedPage.RekeyKeeps` | 3rd-party/liblmdb/mdb.c:7151-7186 | growing or shrinking one key changes that key only and keeps the tiling |
| `SlottedPage.MemMove` | 3rd-party/liblmdb/mdb.c:6841-6842 | an overlapping move |
| `SlottedPage.Page.NodeAdd` | 3rd-party/liblmdb/mdb.c:6668-6789 | inserts the node at its index, or refuses exactly when it does not fit |
| `SlottedPage.Page.NodeDel` | 3rd-party/liblmdb/mdb.c:6796-6846 | removes just that node and gives its bytes and slot back |
| `SlottedPage.Page.UpdateKey` | 3rd-party/liblmdb/mdb.c:7122-7189 | replaces just that key, or refuses exactly when the longer key does not fit |
| `SlottedPage.Page.constructor` | 3rd-party/liblmdb/mdb.c:6576-6601 | a new page is valid and has no nodes |
| `SlottedPage.Page.NodeSize` | 3rd-party/liblmdb/mdb.c:6821-6829 | the size read from the header is the size the node takes |
| `SlottedPage.ClosePtrs` | 3rd-party/liblmdb/mdb.c:6831-6839 | the loop that drops one offset and shifts the ones below |
| `SlottedPage.MovePtrs` | 3rd-party/liblmdb/mdb.c:7167-7171 | the loop that shifts the offsets up to the node |
| `SlottedPage.RekeyBytes` | 3rd-party/liblmdb/mdb.c:7173-7186 | the bytes moved and the new key written |
| `PageRoom.TilingSum` | 3rd-party/liblmdb/mdb.c:6735-6745 | stretches that tile the page are together as long as what they tile |
| `PageRoom.FreeBytes` | 3rd-party/liblmdb/mdb.c:6704-6733 | the free bytes of a page are the room of a page less the sizes of its nodes with their slots |
| `PageRoom.LeafTakes` | 3rd-party/liblmdb/mdb.c:6704-6733 | a leaf page takes an entry if and only if the sum of sizes the tree adds up stays within the page |
| `PageRoom.BranchTakes` | 3rd-party/liblmdb/mdb.c:6704-6733 | likewise a branch page and a separator |
| `PageRoom.AddEntry` | 3rd-party/liblmdb/mdb.c:6668-6789 | adding a node to the bytes of a leaf page is inserting an entry into the leaf of the tree, refused exactly if the tree says it does not fit |
| `PageRoom.AddSep` | 3rd-party/liblmdb/mdb.c:6668-6789 | adding a node to the bytes of a branch page is inserting a separator into the page of the tree, refused exactly if the tree says it does not fit |
| `CursorPath.SiblingRight` | 3rd-party/liblmdb/mdb.c:5275-5322 | the right sibling starts where the page ends; there is none only at the end |
| `CursorPath.SiblingLeft` | 3rd-party/liblmdb/mdb.c:5275-5322 | the left sibling ends where the page starts; there is none only at the start |
| `CursorPath.SamePath` | 3rd-party/liblmdb/mdb.c:5275-5322 | a position has only one path of pages to it |
| `CursorPath.Located` | 3rd-party/liblmdb/mdb.c:5065-5136 | the entries of a page are the stretch of the contents that starts where the path says |
| `Cursor.Seek` | 3rd-party/liblmdb/mdb.c:5065-5136 | the path to the leaf that covers a key: all entries before it smaller, all after it larger |
| `Cursor.MdbCursor.First` | 3rd-party/liblmdb/mdb.c:5673-5693 | the first entry, or not found exactly on an empty database |
| `Cursor.MdbCursor.Last` | 3rd-party/liblmdb/mdb.c:5717-5738 | the last entry, also by the shortcut for a cursor already at the end, or not found exactly on an empty database |
| `Cursor.MdbCursor.Next` | 3rd-party/liblmdb/mdb.c:5325-5403 | for a new cursor the first entry, else the next one; not found exactly at the last one, at the end flag, or on an empty database; a cursor behind the entries of a page goes to the first of the next page |
| `Cursor.MdbCursor.Prev` | 3rd-party/liblmdb/mdb.c:5406-5481 | for a new cursor the last entry, else the previous one; not found exactly at the first one or on an empty database |
| `Cursor.MdbCursor.NextPrev` | 3rd-party/liblmdb/mdb.c:5406-5481 | previous undoes next, page for page |
| `Cursor.MdbCursor.Walk` | 3rd-party/liblmdb/mdb.c:5325-5403 | first and then next until not found gives exactly the entries in order |
| `Cursor.MdbCursor.Set` | 3rd-party/liblmdb/mdb.c:5484-5615 | wherever the cursor was, with or without a new search, it lands on the key, or in range mode on the least key not below it, or reports not found exactly when there is none; and where a miss leaves the cursor and its end flag |
| `Cursor.Look` | 3rd-party/liblmdb/mdb.c:5499-5588 | the look at the current page is right about all it claims |
| `Cursor.Edge` | 3rd-party/liblmdb/mdb.c:4973-4982 | the path to the first or last leaf |
| `Cursor.NextSpot` | 3rd-party/liblmdb/mdb.c:5363-5372 | the position after the current one, on this page or the first of the next, or none exactly at the end |
| `Cursor.PrevSpot` | 3rd-party/liblmdb/mdb.c:5440-5449 | the position before the current one, on this page or the last of the one before, or none exactly at the start |
| `Cursor.LookAbove` | 3rd-party/liblmdb/mdb.c:5525-5578 | what a key above the first one of the page leads to |
| `Cursor.Land` | 3rd-party/liblmdb/mdb.c:5597-5611 | the search on the leaf and the step to its sibling |
| `Cursor.MdbCursor.Current` | 3rd-party/liblmdb/mdb.c:5777-5805 | the entry under the cursor, or why there is none |
| `Cursor.MdbCursor.constructor` | 3rd-party/liblmdb/mdb.c:6979-7003 | a new cursor on a database that may be empty |
| `Cursor.MdbCursor.LastPage` | 3rd-party/liblmdb/mdb.c:5726-5735 | the last leaf, with or without a search |
| `Cursor.MdbCursor.Take` | 3rd-party/liblmdb/mdb.c:5325-5403 | one turn of a forward scan |
| `Cursor.SameSpot` | 3rd-party/liblmdb/mdb.c:5406-5481 | the same position is the same page and index |
| `Cursor.OnLeaf` | 3rd-party/liblmdb/mdb.c:5597-5602 | the search on the leaf gives the position of the key in the contents |
| `Cursor.MdbCursor.SetHere` | 3rd-party/liblmdb/mdb.c:5597-5611 | a set that stays on the page keeps the end flag |
| `Cursor.MdbCursor.SearchAnew` | 3rd-party/liblmdb/mdb.c:5590-5596 | a search from the root clears the end flag |
| `Cursor.MdbCursor.SetBehind` | 3rd-party/liblmdb/mdb.c:5564-5577 | a key above all entries: not found, behind the last entry, the end flag as it was |
| `Cursor.MdbCursor.SetAlone` | 3rd-party/liblmdb/mdb.c:5579-5588 | a key below all entries of the only page: its first entry in range mode, else not found with the end flag as it was |
| `EndFlag.SetNext` | 3rd-party/liblmdb/mdb.c:5484-5615 | after a set that found nothing, next reports not found although an entry follows if and only if the end flag was set and the current page has two entries or more above the key, on a stack of one page or behind its first key |
| `EndFlag.EndFlagStays` | 3rd-party/liblmdb/mdb.c:5599-5602 | a tree of two leaves on which that happens |
| `EndFlag.AheadIff` | 3rd-party/liblmdb/mdb.c:5547-5563 | entries follow a missed set that stayed on the last page exactly then |
| `DirtyList.Search` | 3rd-party/liblmdb/midl.c:282-315 | position of a page in an ascending list, or of the first larger one |
| `DirtyList.Insert` | 3rd-party/liblmdb/midl.c:317-346 | inserts in order; a duplicate or a full list is refused and nothing changes |
| `DirtyList.CountUnion` | 3rd-party/liblmdb/mdb.c:3266-3280 | the backward counting loop computes the size of the union of the two lists |
| `DirtyList.Merge` | 3rd-party/liblmdb/mdb.c:3284-3294 | for any length: the in-place backward merge ends with i equal to x if and only if the length is that of the union, and then the list is the union; a longer one never overwrites an unread entry, a shorter one leaves the list or ends with i below x |
| `DirtyList.OverrideAsc` | 3rd-party/liblmdb/mdb.c:3284-3294 | the union is in ascending order |
| `DirtyList.OverrideFind` | 3rd-party/liblmdb/mdb.c:3284-3294 | a page of the child overrides the parent's |
| `DirtyList.UnionSize` | 3rd-party/liblmdb/mdb.c:3266-3280 | the union has one entry for each page in either list |
| `DirtyList.MergeRound` | 3rd-party/liblmdb/mdb.c:3286-3292 | one round, with its inner loop, takes the merge on to the same end, or leaves the list exactly if the merge does |
| `DirtyList.Place` | 3rd-party/liblmdb/midl.c:336-342 | entries are shifted up and the new one takes its place |
| `DirtyList.OverrideLength` | 3rd-party/liblmdb/mdb.c:3284-3294 | the union is as long as both lists less the pages they share, and no shorter than the parent's list |
| `DirtyList.OverrideMids` | 3rd-party/liblmdb/mdb.c:3284-3294 | the union holds the pages of both lists |
| `DirtyList.MergeLoop` | 3rd-party/liblmdb/mdb.c:3284-3292 | the loops do what the entry-by-entry definition of the merge does, also where that leaves the list |
| `DirtyList.EndsMerged` | 3rd-party/liblmdb/mdb.c:3284-3294 | a length that is enough: no unread entry is overwritten, and the merge ends as far above x as the length is too large |
| `DirtyList.EndsAbove` | 3rd-party/liblmdb/mdb.c:3284-3293 | any length: an unread entry is as it was or larger than what is still to come, so no more entries are passed over than the lists share, which bounds where the merge ends |
| `SpillList.Unlist` | 3rd-party/liblmdb/mdb.c:3245-3264 | the pages are taken off the spill list, every other live entry stays, order kept |
| `SpillList.Mark` | 3rd-party/liblmdb/mdb.c:3247-3258 | the marking loop, with its sentinel, marks just the pages in both lists |
| `SpillList.Squash` | 3rd-party/liblmdb/mdb.c:3259-3263 | the squashing loop drops what is marked |
| `SpillList.KeptOrder` | 3rd-party/liblmdb/mdb.c:3259-3263 | what is kept is in order |
| `SpillList.KeptLive` | 3rd-party/liblmdb/mdb.c:3245-3264 | what is kept is what was live and not in the child's list |
| `SpillList.Join` | 3rd-party/liblmdb/mdb.c:3297-3308 | the spill lists of a child and its parent become one, in order, with the live pages of both |
| `SpillList.JoinedOrder` | 3rd-party/liblmdb/mdb.c:3300-3304 | two spill lists that share no page, sorted together, are one spill list |
| `Nested.PageGet` | 3rd-party/liblmdb/mdb.c:4910-4961 | the innermost version of a page and its level |
| `Nested.CommitKeepsView` | 3rd-party/liblmdb/mdb.c:3226-3308 | after the commit of a child, whatever it has spilled, the parent reads, for every page, what the child read |
| `Nested.CommitKeepsOrder` | 3rd-party/liblmdb/mdb.c:3243-3308 | the parent's lists stay ordered |
| `Nested.FoldLists` | 3rd-party/liblmdb/mdb.c:3243-3308 | the loops of the commit compute the lists the theorem speaks of, and the commit fails exactly if the length taken from the room is not that of the union |
| `Nested.AbortRestores` | 3rd-party/liblmdb/mdb.c:2778-2793 | whatever a child and its own children do, aborting it leaves the parent's lists, records and page state exactly as they were |
| `Nested.RunKeepsBelow` | 3rd-party/liblmdb/mdb.c:2661-2700 | a transaction never changes its ancestors |
| `Nested.FoldDirty` | 3rd-party/liblmdb/mdb.c:3266-3294 | the parent's dirty list becomes the union, in place, or the loop leaves the list or the assertion behind it fails, exactly if the length taken from the room is not that of the union |
| `Nested.CommitKeepsApart` | 3rd-party/liblmdb/mdb.c:3243-3308 | after a commit no page is on both the dirty and the spill list if and only if the child has spilled no page that the parent has dirty |
| `Nested.FlushKeepsContent` | 3rd-party/liblmdb/mdb.c:3035-3174 | a flush changes what is read of a page if and only if the page is on both lists with different contents |
| `Nested.FlushCanOverwrite` | 3rd-party/liblmdb/mdb.c:3035-3174 | a commit after which the flush puts an old content over the one the child has spilled |
| `DirtyRoom.ShortcutLength` | 3rd-party/liblmdb/mdb.c:3281-3283 | over any run of nested transactions, with spills, unspills, commits and aborts at any depth: the length taken from the room left is the size of the union plus the dirty runs freed less the copies spilled, so it is right if and only if those are equally many |
| `DirtyRoom.ShortcutTooLong` | 3rd-party/liblmdb/mdb.c:5178-5195 | a run for which it is too large, because freeing a run does not give its place in the dirty list back to mt_dirty_room |
| `DirtyRoom.ShortcutTooShort` | 3rd-party/liblmdb/mdb.c:2236-2262 | a run for which it is too small, because a copy of a parent's page takes no room but gives some back when it is spilled, as storing a value of 256 megabytes makes it |
| `DirtyRoom.ActKeepsRoom` | 3rd-party/liblmdb/mdb.c:1907-1922 | each action keeps the relation of dirty room, list lengths, runs freed and copies spilled |
| `DirtyRoom.RunKeepsRoom` | 3rd-party/liblmdb/mdb.c:1907-1922 | any run of actions does |
| `DirtyRoom.CommitKeepsRoom` | 3rd-party/liblmdb/mdb.c:3226-3312 | so does the commit of a child |
| `CompactCopy.CopyCorrect` | 3rd-party/liblmdb/mdb.c:8354-8509 | pages 2, 3, ... are written once each, the root gets the last number, the file is a copy of the tree with its overflow runs and sub-databases and of no other tree, and references only go back |
| `CompactCopy.Copy.Walk` | 3rd-party/liblmdb/mdb.c:8354-8509 | the walking loop with its stack writes just the pages of the recursive definition |
| `CompactCopy.TreeConsecutive` | 3rd-party/liblmdb/mdb.c:8485-8494 | numbers are consecutive |
| `CompactCopy.TreeHolds` | 3rd-party/liblmdb/mdb.c:8400-8505 | the pages written represent the tree |
| `CompactCopy.HoldsOne` | 3rd-party/liblmdb/mdb.c:8400-8505 | a file in which no number is used twice represents at most one tree |
| `CompactCopy.MetaRoot` | 3rd-party/liblmdb/mdb.c:8573-8592 | the root written ahead into the new meta page is right if and only if the main tree is not empty and every old page was free or in the tree; the last page is right if and only if the latter |
| `CompactCopy.NumbersUnique` | 3rd-party/liblmdb/mdb.c:8485-8494 | no page number is given twice |
| `CompactCopy.TreeCount` | 3rd-party/liblmdb/mdb.c:8485-8494 | as many numbers are given as the tree has pages |
| `CompactCopy.Copy.CopyNodes` | 3rd-party/liblmdb/mdb.c:8402-8459 | overflow runs and sub-databases of a leaf are written before it, its nodes point to them |
| `CompactCopy.Copy.WalkOn` | 3rd-party/liblmdb/mdb.c:8395-8505 | one round above the leaves, on to the next child or to a finished page, leaves just what is still to write |
| `CompactCopy.Copy.Write` | 3rd-party/liblmdb/mdb.c:8491-8494 | a page is written under the next number |
| `CompactCopy.EmptyCopy` | 3rd-party/liblmdb/mdb.c:8588-8590 | in a copy of a fresh environment the root written ahead is page 1, although there is none |
| `CompactCopy.CommittedCopy` | 3rd-party/liblmdb/mdb.c:8573-8592 | in every committed state of every run the last page written ahead is right, and the root is right if and only if the main tree is not empty |
| `DropWalk.DropsAll` | 3rd-party/liblmdb/mdb.c:9109-9189 | every page of the tree, every overflow page and the root are put on the free list exactly once |
| `DropWalk.Drop` | 3rd-party/liblmdb/mdb.c:9109-9189 | the level-by-level walk terminates and appends just that |
| `DropWalk.SiblingIsNext` | 3rd-party/liblmdb/mdb.c:5275-5322 | the sibling is the first page to the right, on its level |
| `DropWalk.FirstRow` | 3rd-party/liblmdb/mdb.c:9166-9178 | starting again from the first path covers the whole level above |
| `DropWalk.FreeList.Visit` | 3rd-party/liblmdb/mdb.c:9129-9161 | the overflow runs of a leaf or the children of a branch |
| `Cache.TwoGenerations.Get` | lib/cache/db.js:9-16 | the value of the latest put written to the current or the previous generation, never an older one, if and only if no value that counts as false gets in the way |
| `Cache.TwoGenerations.Put` | lib/cache/db.js:27-33 | a put joins the batch; a full batch is written, in order, to this generation or, if the map is full, to later ones; after another error it is kept, here or, after one rotation, in the old environment; no put vanishes but from the batch of an environment that is closed; puts that waited in the old environment only are lost exactly if the call rotates; all puts are there in order unless a write fails after a rotation |
| `Cache.TwoGenerations.Flush` | lib/lmdb/env.js:38-57 | the batch is written as a whole, or, if the map is full, is written as a whole, in order, to later generations, or is kept after another error; a failure later on leaves a prefix of it |
| `Cache.TwoGenerations.Rotate` | lib/cache/env.js:55-61 | the current generation becomes the previous one, whose predecessor is closed without a flush; a fresh one gets a number above every directory |
| `Cache.TwoGenerations.Replay` | lib/cache/env.js:78-84 | the batch that did not fit is put again one by one, also when that fills batches, or the next generation, on the way; how much of it is there if a write fails after any number of full maps |
| `Cache.TwoGenerations.SetBatchSize` | lib/lmdb/env.js:69-74 | the new size, at most 256; a batch that is now too long is written as by a flush of the current environment |
| `Cache.Run` | lib/lmdb/env.js:61-67 | over any run, whatever fails, and also if the cache is closed at the end: every put is in a log, in a batch, or was in the batch of an environment that was closed; puts that waited in the old environment only are lost if and only if it is closed, by a rotation or at the end, before a flush of it fits; if no write fails after a rotation all puts are there in order; numbers only grow |
| `Cache.LookupLatest` | lib/lmdb/env.js:41-46 | replaying a log into a store finds the last put of each key |
| `Cache.EitherLatest` | lib/cache/db.js:15 | asking the current and then the old environment gives the latest put if and only if that did not put a value that counts as false, or the old environment has the same |
| `Cache.CanBeStale` | lib/cache/db.js:15 | two puts after which the older value is found |
| `Cache.Env.Write` | lib/lmdb/env.js:41-49 | the whole batch or, after any error, nothing |
| `Cache.LatestConcat` | lib/cache/db.js:9-16 | a put in the newer log hides those in the older |
| `Cache.OpenedDirs` | lib/cache/env.js:63-75 | opening keeps every directory and has two at least; a rotation adds a number above every one there is |
| `Cache.TwoGenerations.constructor` | lib/cache/env.js:11-21 | the two newest directories are opened, or made, with what they hold; both environments get the number of the newer one |
| `Cache.TwoGenerations.RemoveStale` | lib/cache/env.js:44-53 | all but the three newest directories go, none of them in use |
| `Cache.TwoGenerations.PutAgain` | lib/cache/env.js:80-82 | the operations are put in order, whatever is flushed and rotated on the way |
| `Cache.TwoGenerations.Push` | lib/lmdb/env.js:61-67 | an operation is added; the batch is written once it is full |
| `Cache.TwoGenerations.OnFull` | lib/cache/env.js:78-84 | a rotation and a replay lose and reorder nothing |
| `Cache.TwoGenerations.FlushNow` | lib/cache/env.js:23-26 | first the old environment is flushed, where a full map is an error that keeps its batch and stops the flush, then the current one; if the first fits, what waited in the old environment is written and is never lost |
| `Cache.CanLosePut` | lib/cache/env.js:55-61 | a put that is not put again after an error, and is lost with the next rotation |
| `Cache.TwoGenerations.FlushOld` | lib/lmdb/env.js:38-57 | the batch of the old environment is written as a whole, or the call fails and keeps it, also if the map is full |
| `Cache.TwoGenerations.FlushCurrent` | lib/lmdb/env.js:38-57 | the flush of the current environment, and where it leaves every put |
| `Cache.TwoGenerations.Close` | lib/cache/env.js:35-42 | neither batch is flushed, so every put that is in no log is lost |
| `Cache.WentKeeps` | lib/cache/env.js:55-84 | wherever a batch goes, no put vanishes but from the batch of an environment that is closed, what is lost stays lost, and what waits in the old environment only waits on or is lost with it |
| `Cache.FollowsOn` | lib/cache/env.js:55-61 | the first of a flush of the old environment that fits, and of its closing, decides about what waits there |
| `Cache.LeaveBehind` | lib/lmdb/env.js:48-53 | a put that waits in the old environment only, after a full map and an error |
| `Cache.CanKeepPut` | lib/cache/env.js:23-26 | the same put, kept by a flush |
| `Cache.LostAtOnce` | lib/cache/env.js:55-61 | a put that is lost within one call, by two full maps and an error |

## Left out

- Duplicate keys (MDB_DUPSORT, MDB_DUPFIXED, sub-pages, LEAF2 pages), sub-databases as databases, and the flags MDB_APPEND, MDB_CURRENT, MDB_RESERVE and MDB_MULTIPLE.
- The tree operations of BTreePut and BTreeDel work on values, not on pages in place: the bytes of one page are in SlottedPage, the loop that moves nodes in a split is in Split, and which pages are copied before they are changed is in Mvcc as a step.
- Other cursors of the same transaction are not adjusted when pages change, and the mark that a cursor's entry was deleted (C_DEL) is not kept; a cursor is used on a tree that stays as it is.
- Database.Db.Put: whether an overflow run can be reused is an input, and md_overflow_pages is not counted, because both depend on page allocation.
- Database.Db.Store: likewise.
- The limit of 32 pages on a cursor's stack; pages of less than 4096 bytes; a longest key other than the default of 511 bytes.
- FreelistSave.ReturnLoose: keeps the loose pages in a list of their own, not at the end of the buffer they are merged into; the room asked for keeps the two apart.
- FreelistSave.Reserve: the loop once the free list and the records have stopped changing; that storing the records changes the lists again, which makes the code start over, is not modelled.
- The choice of pages to spill, and joining the lists of loose pages at a commit.
- Nested.AbortRestores: that a child's work changes only the innermost transaction, and that the page state is a copy, is how the actions are defined; what is proved is that no sequence of them, with children of its own, gets around it.
- Cache.TwoGenerations.Replay: that every write of a call finds the map full, so that rotations never end; the outcomes after those given are that the batch fits.
- DirtyRoom.ShortcutLength: the runs include more than those of the code, since any dirty page may be spilled at any time and the list of reclaimed pages, to which a freed run goes back, is taken as there.
- Deletes in the cache, several databases per environment, and the timer that flushes.
- DropWalk.Drop: a drop that descends into sub-databases.
- CompactCopy.Copy.Walk: the writer thread and its two buffers; pages appear in the order they are handed over.
- The operating system: mapping, locks, MDB_WRITEMAP, failing writes, choosing reader slots, resizing the map.
- Shrinking an id list, the statistics and environment calls, mdb_dump and mdb_load, the C++ bindings, and the leveldb and rocksdb back ends.
