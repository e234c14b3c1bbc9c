/**
Where mdb_page_split divides an overfull page, on the sizes of its nodes.  A node's size here is what
it takes from a page: its even-rounded bytes plus its two-byte slot.
*/
module Split {
  import opened PageFormat
  import opened Sums

  /** me_nodemax: larger leaf nodes keep their data on overflow pages. */
  function NodeMax(psize: nat): int { (psize - PAGEHDRSZ) / 2 / 2 * 2 - SLOT }

  /** mdb_leaf_size. */
  function LeafSize(psize: nat, ksize: nat, dsize: nat): nat {
    var sz := NODESIZE + ksize + dsize;
    Even((if sz > NodeMax(psize) then NODESIZE + ksize + PGNO else sz) + SLOT)
  }

  /** mdb_branch_size, rounded as mdb_page_split does. */
  function BranchSize(ksize: nat): nat { Even(NODESIZE + ksize + SLOT) }

  /** No node of a legal key takes more than half of a page. */
  lemma AtMostHalf(psize: nat, ksize: nat, dsize: nat)
    requires psize >= 4096 && ksize <= 511
    ensures 2 * LeafSize(psize, ksize, dsize) <= psize - PAGEHDRSZ
    ensures BranchSize(ksize) <= 522 && 2 * BranchSize(ksize) <= psize - PAGEHDRSZ
  {
  }

  // ---------------------------------------------------------------- the scan

  /** Forward scan: stops at the first node that no longer fits on the left page, or before k. */
  function Forward(all: seq<nat>, i: nat, k: nat, used: nat, pmax: nat): (s: nat)
    requires i < k <= |all|
    ensures i <= s < k
    decreases k - i
  {
    if used + all[i] > pmax || i == k - 1 then i else Forward(all, i + 1, k, used + all[i], pmax)
  }

  /** Backward scan: stops at the first node that no longer fits on the right page, or at k. */
  function Backward(all: seq<nat>, i: nat, k: nat, used: nat, pmax: nat): (s: nat)
    requires k <= i < |all|
    ensures k < s <= i + 1
    decreases i
  {
    if used + all[i] > pmax || i == k then i + 1 else Backward(all, i - 1, k, used + all[i], pmax)
  }

  /** Whether mdb_page_split looks at sizes at all. */
  predicate Checked(nkeys: nat, nsize: nat, newindx: nat, pmax: nat) {
    nkeys < 20 || nsize > pmax / 16 || newindx >= nkeys
  }

  /** The split index, for the nodes `all` with the new one at `newindx`. */
  function SplitIndex(all: seq<nat>, newindx: nat, pmax: nat): (s: nat)
    requires |all| >= 3 && newindx < |all|
    ensures s <= |all|
  {
    var nkeys := |all| - 1;
    var half := (nkeys + 1) / 2;
    if !Checked(nkeys, all[newindx], newindx, pmax) then half
    else if newindx <= half || newindx >= nkeys then
      Forward(all, 0, if newindx >= nkeys then nkeys else half + 2, 0, pmax)
    else
      Backward(all, nkeys, half, 0, pmax)
  }

  lemma {:induction false} ForwardFits(all: seq<nat>, i: nat, k: nat, used: nat, pmax: nat)
    requires i < k <= |all| && used == Sum(all[..i]) <= pmax
    ensures var s := Forward(all, i, k, used, pmax);
      Sum(all[..s]) <= pmax && (s == k - 1 || Sum(all[..s + 1]) > pmax)
    decreases k - i
  {
    SumStep(all, i);
    if used + all[i] <= pmax && i < k - 1 { ForwardFits(all, i + 1, k, used + all[i], pmax); }
  }

  lemma {:induction false} BackwardFits(all: seq<nat>, i: nat, k: nat, used: nat, pmax: nat)
    requires k <= i < |all| && used == Sum(all[i + 1..]) <= pmax
    ensures var s := Backward(all, i, k, used, pmax);
      Sum(all[s..]) <= pmax && (s == k + 1 || Sum(all[s - 1..]) > pmax)
    decreases i
  {
    SumSuffix(all, i);
    if used + all[i] <= pmax && i > k { BackwardFits(all, i - 1, k, used + all[i], pmax); }
  }

  /** The old nodes fitted on one page; the new one is no larger than half a page, nor is any other. */
  ghost predicate Overflowing(all: seq<nat>, newindx: nat, pmax: nat) {
    && newindx < |all| && Sum(all) - all[newindx] <= pmax < Sum(all)
    && forall i :: 0 <= i < |all| ==> 2 * all[i] <= pmax
  }

  lemma TwoFit(all: seq<nat>, pmax: nat)
    requires |all| <= 2 && forall i :: 0 <= i < |all| ==> 2 * all[i] <= pmax
    ensures Sum(all) <= pmax
  {
    if |all| == 1 {
      assert all == [all[0]];
      SumOne(all[0]);
    } else if |all| == 2 {
      assert all == [all[0]] + [all[1]];
      SumConcat([all[0]], [all[1]]);
      SumOne(all[0]);
      SumOne(all[1]);
    }
  }

  lemma ThreeNodes(all: seq<nat>, newindx: nat, pmax: nat)
    requires Overflowing(all, newindx, pmax)
    ensures |all| >= 3
  {
    if |all| <= 2 { TwoFit(all, pmax); }
  }

  /** A part of the nodes that leaves the new one out is a part of the old page. */
  lemma WithoutNew(all: seq<nat>, newindx: nat, pmax: nat, s: nat)
    requires Overflowing(all, newindx, pmax) && s <= |all|
    ensures newindx < s ==> Sum(all[s..]) <= pmax
    ensures newindx >= s ==> Sum(all[..s]) <= pmax
  {
    SumSplit(all, s);
    if newindx < s {
      SumSplit(all[..s], newindx);
      SumStep(all[..s], newindx);
    } else {
      SumSplit(all[s..], newindx - s);
      SumStep(all[s..], newindx - s);
    }
  }

  lemma ForwardSplitFits(all: seq<nat>, newindx: nat, pmax: nat, k: nat)
    requires Overflowing(all, newindx, pmax) && 1 < k < |all| + 1
    requires newindx + 1 < k || (newindx == |all| - 1 && k == |all| - 1)
    ensures var s := Forward(all, 0, k, 0, pmax);
      0 < s < |all| && Sum(all[..s]) <= pmax && Sum(all[s..]) <= pmax
  {
    var s := Forward(all, 0, k, 0, pmax);
    assert all[..0] == [];
    ForwardFits(all, 0, k, 0, pmax);
    SumStep(all, 0);
    if s == k - 1 {
      if newindx < s {
        WithoutNew(all, newindx, pmax, s);
      } else {
        assert |all[s..]| == 2;
        TwoFit(all[s..], pmax);
      }
    } else {
      SumSplit(all, s + 1);
      SumStep(all, s);
    }
  }

  lemma BackwardSplitFits(all: seq<nat>, newindx: nat, pmax: nat, half: nat)
    requires Overflowing(all, newindx, pmax) && 0 < half < newindx < |all| - 1
    ensures var s := Backward(all, |all| - 1, half, 0, pmax);
      0 < s < |all| && Sum(all[..s]) <= pmax && Sum(all[s..]) <= pmax
  {
    var n := |all| - 1;
    var s := Backward(all, n, half, 0, pmax);
    assert all[n + 1..] == [];
    BackwardFits(all, n, half, 0, pmax);
    SumSuffix(all, n);
    if s == half + 1 {
      WithoutNew(all, newindx, pmax, s);
    } else {
      SumSplit(all, s - 1);
      SumStep(all, s - 1);
    }
  }

  /** Whenever the size scan is used, both halves are nonempty and fit. */
  lemma CheckedSplitFits(all: seq<nat>, newindx: nat, pmax: nat)
    requires Overflowing(all, newindx, pmax) && |all| >= 3
    requires Checked(|all| - 1, all[newindx], newindx, pmax)
    ensures var s := SplitIndex(all, newindx, pmax);
      0 < s < |all| && Sum(all[..s]) <= pmax && Sum(all[s..]) <= pmax
  {
    var nkeys := |all| - 1;
    var half := (nkeys + 1) / 2;
    if newindx <= half || newindx >= nkeys {
      ForwardSplitFits(all, newindx, pmax, if newindx >= nkeys then nkeys else half + 2);
    } else {
      BackwardSplitFits(all, newindx, pmax, half);
    }
  }

  /** The scan as mdb_page_split writes it: one loop that runs up or down. */
  method FindSplit(all: seq<nat>, newindx: nat, pmax: nat) returns (split: nat)
    requires |all| >= 3 && newindx < |all|
    ensures split == SplitIndex(all, newindx, pmax)
  {
    var nkeys := |all| - 1;
    split := (nkeys + 1) / 2;
    if nkeys < 20 || all[newindx] > pmax / 16 || newindx >= nkeys {
      var used: nat, i: int, j: int, k: int := 0, nkeys, -1, split - 1;
      if newindx <= split || newindx >= nkeys {
        i, j, k := 0, 1, if newindx >= nkeys then nkeys else split + 2;
      }
      while i != k
        invariant j == 1 || j == -1
        invariant j == 1 ==> 0 <= i < k <= |all| && SplitIndex(all, newindx, pmax) == Forward(all, i, k, used, pmax)
        invariant j == -1 ==>
          0 <= k + 1 <= i < |all| && SplitIndex(all, newindx, pmax) == Backward(all, i, k + 1, used, pmax)
        decreases if j == 1 then k - i else i - k
      {
        used := used + all[i];
        if used > pmax || i == k - j {
          split := i + if j < 0 then 1 else 0;
          break;
        }
        i := i + j;
      }
    }
  }

  /** Without the scan the split is at half the count, and the half that receives the new node
      overflows exactly when the old nodes on that half leave too little room for it. */
  lemma UncheckedFitsIff(all: seq<nat>, newindx: nat, pmax: nat)
    requires Overflowing(all, newindx, pmax) && |all| >= 3
    requires !Checked(|all| - 1, all[newindx], newindx, pmax)
    ensures var s := SplitIndex(all, newindx, pmax);
      (Sum(all[..s]) <= pmax && Sum(all[s..]) <= pmax) <==>
      all[newindx] <= pmax - (if newindx < s then Sum(all[..newindx]) + Sum(all[newindx + 1..s])
                              else Sum(all[s..newindx]) + Sum(all[newindx + 1..]))
  {
    var s := SplitIndex(all, newindx, pmax);
    WithoutNew(all, newindx, pmax, s);
    if newindx < s {
      SumSplit(all[..s], newindx);
      SumSuffix(all[..s], newindx);
      assert all[..s][..newindx] == all[..newindx] && all[..s][newindx + 1..] == all[newindx + 1..s];
    } else {
      SumSplit(all[s..], newindx - s);
      SumSuffix(all[s..], newindx - s);
      assert all[s..][..newindx - s] == all[s..newindx] && all[s..][newindx - s + 1..] == all[newindx + 1..];
    }
  }

  function Repeat(x: nat, n: nat): (s: seq<nat>)
    ensures |s| == n && (forall i :: 0 <= i < n ==> s[i] == x) && Sum(s) == n * x
  {
    if n == 0 then [] else
      var r := Repeat(x, n - 1);
      assert (r + [x])[..n - 1] == r && n * x == (n - 1) * x + x;
      r + [x]
  }

  /** Ten small nodes, a new one of 254 bytes, ten large nodes. */
  function Lopsided(): seq<nat> { Repeat(12, 10) + ([254] + Repeat(396, 10)) }

  /** The overflow does happen: the page was exactly full, the scan is skipped, and the right half
      with the new node needs 4214 of 4080 bytes. */
  lemma UncheckedCanOverflow()
    ensures Overflowing(Lopsided(), 10, 4080) && !Checked(|Lopsided()| - 1, 254, 10, 4080)
    ensures Lopsided()[10] == 254 && SplitIndex(Lopsided(), 10, 4080) == 10
    ensures Sum(Lopsided()[10..]) == 4214
  {
    var a, b := Repeat(12, 10), Repeat(396, 10);
    SumConcat(a, [254] + b);
    SumConcat([254], b);
    SumOne(254);
    assert Lopsided()[10..] == [254] + b;
  }

  lemma TakeMore<T>(all: seq<T>, from: nat, i: nat)
    requires from <= i < |all|
    ensures all[from..i] + [all[i]] == all[from..i + 1] && (i + 1 == |all| ==> all[from..i + 1] == all[from..])
  {
  }

  /** The loop that moves the nodes: it starts at the split index on the right page, wraps around to
      index 0 on the temporary copy, and ends where it began.  `slots` are the copy's node pointers:
      they are the source of every old node and, after the wrap, also the destination.  `ki` is where
      the cursor ends up on the page that got the new node. */
  method MoveNodes<T>(slots: array<T>, newNode: T, newindx: nat, split: nat, nkeys: nat, ghost all: seq<T>)
    returns (right: seq<T>, ki: nat)
    requires 0 < split <= nkeys && newindx <= nkeys < slots.Length
    requires |all| == nkeys + 1 && all[newindx] == newNode
    requires forall p :: 0 <= p <= nkeys && p != newindx ==> slots[p] == all[p]
    modifies slots
    ensures slots[..split] == all[..split] && right == all[split..]
    ensures ki == if newindx < split then newindx else newindx - split
  {
    right, ki := [], 0;
    var i, j, onRight := split, 0, true;
    while true
      invariant onRight ==> split <= i <= nkeys && j == i - split && right == all[split..i]
      invariant !onRight ==> 0 <= i < split && j == i && right == all[split..]
      invariant !onRight ==> forall p :: 0 <= p < i ==> slots[p] == all[p]
      invariant forall p :: (if onRight then 0 else i) <= p <= nkeys && p != newindx ==> slots[p] == all[p]
      invariant split <= newindx && (!onRight || newindx < i) ==> ki == newindx - split
      invariant newindx < split && !onRight && newindx < i ==> ki == newindx
      decreases onRight, nkeys - i
    {
      var node := newNode;
      if i == newindx {
        ki := j;
      } else {
        node := slots[i];
      }
      assert node == all[i];
      TakeMore(all, if onRight then split else i, i);
      if onRight {
        right := right + [node];
      } else {
        slots[j] := node;
      }
      if i == nkeys {
        i, j, onRight := 0, 0, false;
      } else {
        i, j := i + 1, j + 1;
      }
      if !onRight && i == split {
        break;
      }
    }
  }

  lemma ForwardDeep(all: seq<nat>, k: nat, pmax: nat)
    requires pmax >= 4080 && 2 < k <= |all| && forall i :: 0 <= i < |all| ==> all[i] <= 522
    ensures 2 <= Forward(all, 0, k, 0, pmax) < k
  {
    var s := Forward(all, 0, k, 0, pmax);
    assert all[..0] == [];
    ForwardFits(all, 0, k, 0, pmax);
    SumAtMost(all[..s + 1], 522);
  }

  lemma BackwardDeep(all: seq<nat>, k: nat, pmax: nat)
    requires pmax >= 4080 && k + 3 <= |all| && forall i :: 0 <= i < |all| ==> all[i] <= 522
    ensures k < Backward(all, |all| - 1, k, 0, pmax) <= |all| - 2
  {
    var s := Backward(all, |all| - 1, k, 0, pmax);
    assert all[|all| - 1 + 1..] == [];
    BackwardFits(all, |all| - 1, k, 0, pmax);
    SumAtMost(all[s - 1..], 522);
  }

  /** On a branch page, where no node takes more than 522 bytes, each half gets two nodes or more. */
  lemma BranchHalves(all: seq<nat>, newindx: nat, pmax: nat)
    requires pmax >= 4080 && newindx < |all| && Sum(all) > pmax && forall i :: 0 <= i < |all| ==> all[i] <= 522
    ensures |all| >= 8
    ensures 2 <= SplitIndex(all, newindx, pmax) <= |all| - 2
  {
    SumAtMost(all, 522);
    var nkeys := |all| - 1;
    var half := (nkeys + 1) / 2;
    ForwardDeep(all, if newindx >= nkeys then nkeys else half + 2, pmax);
    BackwardDeep(all, half, pmax);
  }
}
