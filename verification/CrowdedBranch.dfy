/**
A tree on which deleting a key fails: the node that an emptied leaf takes from its neighbour has a longer
key than the separator it replaces, and the branch page above is split without looking at sizes.
*/
module CrowdedBranch {
  import opened Common
  import opened BTree
  import opened BTreeDel
  import opened BTreePut
  import opened Capacity
  import opened PageFormat
  import NodeSearch
  import Split
  import Sums

  const PSIZE: nat := 4096

  /** Eleven short separators and nine long ones. */
  function Sep(i: nat): Key { Key(100 * i, if i == 0 then 0 else if i <= 11 then 1 else 416) }

  function Seps(): (ss: seq<Key>)
    ensures |ss| == 21 && forall i :: 0 <= i < 21 ==> ss[i] == Sep(i)
  {
    seq(21, i requires 0 <= i < 21 => Sep(i))
  }

  /** One entry on each leaf but the eleventh, which has a large one and one with a long key. */
  function Entries(i: nat): seq<Entry> {
    if i == 10 then [Entry(Key(1010, 1), seq(1100, _ => 0), false), Entry(Key(1020, 244), [], false)]
    else [Entry(Key(100 * i + 50, 1), [], false)]
  }

  function Kids(): (ks: seq<Tree>)
    ensures |ks| == 21 && forall i :: 0 <= i < 21 ==> ks[i] == Leaf(Entries(i))
  {
    seq(21, i requires 0 <= i < 21 => Leaf(Entries(i)))
  }

  function Crowded(): Tree { Branch(Seps(), Kids()) }

  // ---------------------------------------------------------------- sizes

  /** Eleven nodes of 12 bytes after an empty one, and nine of 426, but for the one at 11. */
  function SizesWith(x: nat): seq<nat> { [10] + Split.Repeat(12, 10) + ([x] + Split.Repeat(426, 9)) }

  lemma SumWith(x: nat)
    ensures Sums.Sum(SizesWith(x)) == 3964 + x
    ensures Sums.Sum([10] + ([x] + Split.Repeat(426, 9))) == 3844 + x
  {
    var low, high := Split.Repeat(12, 10), Split.Repeat(426, 9);
    Sums.SumOne(10);
    Sums.SumOne(x);
    Sums.SumConcat([x], high);
    Sums.SumConcat([10], low);
    Sums.SumConcat([10] + low, [x] + high);
    Sums.SumConcat([10], [x] + high);
  }

  lemma SepSizeAt(i: nat)
    requires i < 21
    ensures SepSize(Sep(i)) == if i == 0 then 10 else if i <= 11 then 12 else 426
  {
  }

  lemma SizesWithAt(x: nat, i: nat)
    requires i < 21
    ensures |SizesWith(x)| == 21
    ensures SizesWith(x)[i] == if i == 0 then 10 else if i < 11 then 12 else if i == 11 then x else 426
  {
  }

  /** The separators with k in place of the twelfth. */
  lemma SizesAre(ss: seq<Key>, k: Key, sizes: seq<nat>)
    requires ss == Seps()[11 := k] && sizes == SepSizes(ss)
    ensures sizes == SizesWith(SepSize(k))
  {
    SizesWithAt(SepSize(k), 0);
    forall i | 0 <= i < 21 ensures sizes[i] == SizesWith(SepSize(k))[i] {
      SepSizeAt(i);
      SizesWithAt(SepSize(k), i);
    }
  }

  /** The right half of them. */
  lemma HalfSizesAre(ss: seq<Key>, k: Key, half: seq<Key>)
    requires ss == Seps()[11 := k] && half == [EMPTY] + ss[11..]
    ensures SepSizes(half) == [10] + ([SepSize(k)] + Split.Repeat(426, 9))
  {
    var sizes := [10] + ([SepSize(k)] + Split.Repeat(426, 9));
    forall i | 0 <= i < 11 ensures SepSizes(half)[i] == sizes[i] {
      if i > 0 { assert half[i] == ss[i + 10]; }
      if i > 1 { SepSizeAt(i + 10); }
    }
  }

  // ---------------------------------------------------------------- the tree is well-formed

  lemma SepsFit()
    ensures Sums.Sum(SepSizes(Seps())) <= Room(PSIZE)
  {
    assert Seps() == Seps()[11 := Sep(11)];
    SepSizeAt(11);
    SizesAre(Seps(), Sep(11), SepSizes(Seps()));
    SumWith(12);
  }

  lemma SepsAscend()
    ensures SepsOk(Seps(), 0, 2100)
  {
  }

  lemma LeafFits(i: nat)
    requires i < 21
    ensures LeafOk(Entries(i), 100 * i, 100 * i + 100, PSIZE)
  {
    var es := Entries(i);
    if i == 10 {
      assert EntrySizes(es) == [1112] + [254];
      Sums.SumConcat([1112], [254]);
      Sums.SumOne(1112);
      Sums.SumOne(254);
    } else {
      assert EntrySizes(es) == [12];
      Sums.SumOne(12);
    }
  }

  lemma CrowdedOk()
    ensures WF(Crowded(), 0, 2100, 2, PSIZE) && Enough(Crowded())
  {
    var t := Crowded();
    SepsFit();
    SepsAscend();
    forall i | 0 <= i < 21
      ensures Enough(t.kids[i]) && WF(t.kids[i], Lo(t.seps, i, 0), Hi(t.seps, i, 2100), 1, PSIZE)
    {
      LeafFits(i);
    }
  }

  // ---------------------------------------------------------------- the deletion

  lemma ChildEleven()
    ensures ChildIndex(Seps(), 1150) == 11
  {
    NodeSearch.ChildIndexUnique(Seps(), 1150, 11);
  }

  lemma LeafEmptied()
    ensures DelLeaf(Entries(11), 1150) == (One(Leaf([]), 0, 0), true)
  {
    var es := Entries(11);
    assert LeafPairs(es) == [Pair(1150, [])];
    BeforeUnique(LeafPairs(es), 1150, 0);
    assert RemoveAt(es, 0) == [];
  }

  lemma NeighbourSpares()
    ensures Spare(Leaf(Entries(10)), PSIZE) && Low(Leaf([]), PSIZE)
  {
    assert EntrySizes(Entries(10)) == [1112] + [254];
    Sums.SumConcat([1112], [254]);
    Sums.SumOne(1112);
    Sums.SumOne(254);
  }

  /** The branch page with the new separator. */
  lemma NoRoom()
    ensures !BranchRoomy(InsertAt(RemoveAt(Seps(), 11), 11, Key(1020, 244)), 11, PSIZE)
  {
    var k := Key(1020, 244);
    var ss := Seps()[11 := k];
    assert InsertAt(RemoveAt(Seps(), 11), 11, k) == ss;
    SizesAre(ss, k, SepSizes(ss));
    HalfSizesAre(ss, k, BranchHalf(ss, 11));
    SumWith(254);
  }

  lemma CannotShare(ks: seq<Tree>)
    requires ks == Kids()[11 := Leaf([])]
    ensures !ShareRoomy(Seps(), ks, 11, 10, PSIZE)
  {
    NeighbourSpares();
    NoRoom();
    assert MoveRight(ks[10], ks[11]).sep == Key(1020, 244);
  }

  /** Deleting the only entry of the twelfth leaf fails: the right half of the branch page would need 4098
      of 4080 bytes. */
  lemma DelCanFail()
    ensures WF(Crowded(), 0, 2100, 2, PSIZE) && Enough(Crowded()) && Uniform(Crowded())
    ensures Del(Crowded(), 1150, PSIZE).0 == Full
  {
    var t := Crowded();
    CrowdedOk();
    DelFailsIff(t, 1150, 0, 2100, 2, PSIZE);
    ChildEleven();
    LeafEmptied();
    NeighbourSpares();
    var ks := Kids()[11 := Leaf([])];
    CannotShare(ks);
    assert Del(t.kids[11], 1150, PSIZE) == DelLeaf(Entries(11), 1150);
    assert !UpRoomy(t.seps, t.kids, 11, Del(t.kids[11], 1150, PSIZE), PSIZE);
  }
}
