/**
Binary search on one page (mdb_node_search) and the choice of the child to follow
(mdb_page_search_root).
*/
module NodeSearch {
  import opened BTree

  /** The keys from index `low` on ascend. */
  ghost predicate AscendFrom(keys: seq<Key>, low: nat) {
    forall i, j :: low <= i < j < |keys| ==> keys[i].rank < keys[j].rank
  }

  /** The smallest entry that is not below the key; slot 0 of a branch page is never compared. */
  method Search(keys: seq<Key>, branch: bool, rank: int) returns (i: nat, exact: bool)
    requires AscendFrom(keys, if branch then 1 else 0) && (branch ==> |keys| >= 2)
    ensures (if branch then 1 else 0) <= i <= |keys|
    ensures forall j :: (if branch then 1 else 0) <= j < i ==> keys[j].rank < rank
    ensures forall j :: i <= j < |keys| ==> keys[j].rank >= rank
    ensures exact <==> i < |keys| && keys[i].rank == rank
  {
    var from := if branch then 1 else 0;
    var low: int, high: int, rc := from, |keys| - 1, 0;
    i := 0;
    while low <= high
      invariant from <= low <= high + 1 <= |keys|
      invariant forall j :: from <= j < low ==> keys[j].rank < rank
      invariant forall j :: high < j < |keys| ==> keys[j].rank > rank
      invariant (low == from && high == |keys| - 1) || (rc == 1 && i == low - 1) || (rc == -1 && i == high + 1)
      invariant low == from && high == |keys| - 1 ==> i == 0 && rc == 0
      decreases high - low
    {
      i := (low + high) / 2;
      rc := if rank == keys[i].rank then 0 else if rank > keys[i].rank then 1 else -1;
      if rc == 0 { break; }
      if rc > 0 { low := i + 1; } else { high := i - 1; }
    }
    if rc > 0 { i := i + 1; }
    exact := rc == 0 && |keys| > 0;
  }

  lemma ChildIndexUnique(seps: seq<Key>, rank: int, i: nat)
    requires i < |seps| && AscendFrom(seps, 1)
    requires (0 < i ==> seps[i].rank <= rank) && forall j :: i < j < |seps| ==> rank < seps[j].rank
    ensures i == ChildIndex(seps, rank)
  {
    ChildCovers(seps, rank);
    assert seps[ChildIndex(seps, rank)] in seps && seps[i] in seps;
  }

  /** The child a branch page sends the search to. */
  method Follow(seps: seq<Key>, rank: int) returns (i: nat)
    requires |seps| >= 2 && AscendFrom(seps, 1)
    ensures i == ChildIndex(seps, rank)
  {
    var at, exact := Search(seps, true, rank);
    if at >= |seps| {
      i := |seps| - 1;
    } else {
      i := at;
      if !exact { i := i - 1; }
    }
    ChildIndexUnique(seps, rank, i);
  }

  function Keys(es: seq<Entry>): (ks: seq<Key>)
    ensures |ks| == |es| && forall i :: 0 <= i < |ks| ==> ks[i] == es[i].key
  {
    seq(|es|, i requires 0 <= i < |es| => es[i].key)
  }

  /** The position of a key on a leaf. */
  method Locate(es: seq<Entry>, rank: int) returns (i: nat, exact: bool)
    requires Ascending(es)
    ensures i == Before(LeafPairs(es), rank)
    ensures exact <==> i < |es| && es[i].key.rank == rank
  {
    i, exact := Search(Keys(es), false, rank);
    assert forall j :: 0 <= j < |es| ==> LeafPairs(es)[j].rank == Keys(es)[j].rank;
    BeforeUnique(LeafPairs(es), rank, i);
  }
}
