/** Sizes in the page format of LMDB. */
module PageFormat {
  /** The header of a page and that of a node, the slot of a node and a page number, in bytes. */
  const PAGEHDRSZ: nat := 16
  const NODESIZE: nat := 8
  const SLOT: nat := 2
  const PGNO: nat := 8

  /** Rounds up to an even number. */
  function Even(n: nat): (m: nat)
    ensures n <= m <= n + 1 && m % 2 == 0
  {
    if n % 2 == 0 then n else n + 1
  }

  type Bytes = seq<int>

  ghost predicate Octets(b: Bytes) { forall i :: 0 <= i < |b| ==> 0 <= b[i] < 256 }
}
