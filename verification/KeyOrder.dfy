/**
The order of keys (mdb_cmp_memn, mdb_cmp_memnr) and its reading as an order of numbers: every key of at
most n bytes is a number below 257 to the n, and the comparison function compares these numbers.
*/
module KeyOrder {
  import opened PageFormat

  /** Byte by byte; a key that another one continues comes first. */
  function Compare(a: Bytes, b: Bytes): (r: int)
    decreases |a|
  {
    if a == [] then (if b == [] then 0 else -1)
    else if b == [] then 1
    else if a[0] != b[0] then a[0] - b[0]
    else Compare(a[1..], b[1..])
  }

  function Sign(x: int): int { if x < 0 then -1 else if x > 0 then 1 else 0 }

  lemma {:induction false} ComparePrefix(a: Bytes, b: Bytes, n: nat)
    requires n <= |a| && n <= |b| && a[..n] == b[..n]
    ensures Compare(a, b) == Compare(a[n..], b[n..])
    decreases n
  {
    if n > 0 {
      assert a[0] == a[..n][0] && b[0] == b[..n][0];
      assert a[1..][..n - 1] == a[..n][1..] && b[1..][..n - 1] == b[..n][1..];
      ComparePrefix(a[1..], b[1..], n - 1);
      assert a[1..][n - 1..] == a[n..] && b[1..][n - 1..] == b[n..];
    } else {
      assert a[0..] == a && b[0..] == b;
    }
  }

  /** mdb_cmp_memn: memcmp over the shorter length, then the lengths. */
  method CmpMemn(a: Bytes, b: Bytes) returns (r: int)
    ensures Sign(r) == Sign(Compare(a, b))
  {
    var len, lenDiff := |a|, |a| - |b|;
    if lenDiff > 0 {
      len, lenDiff := |b|, 1;
    }
    var i := 0;
    while i < len
      invariant 0 <= i <= len && a[..i] == b[..i]
    {
      if a[i] != b[i] {
        ComparePrefix(a, b, i);
        return a[i] - b[i];
      }
      i := i + 1;
    }
    ComparePrefix(a, b, len);
    assert a[len..] == [] || b[len..] == [];
    r := if lenDiff < 0 then -1 else lenDiff;
  }

  function Backwards(s: Bytes): (r: Bytes)
    ensures |r| == |s| && forall i :: 0 <= i < |s| ==> r[i] == s[|s| - 1 - i]
  {
    seq(|s|, i requires 0 <= i < |s| => s[|s| - 1 - i])
  }

  /** mdb_cmp_memnr: the same from the last byte on. */
  method CmpMemnr(a: Bytes, b: Bytes) returns (r: int)
    ensures Sign(r) == Sign(Compare(Backwards(a), Backwards(b)))
  {
    ghost var x, y := Backwards(a), Backwards(b);
    var p1: nat, p2: nat, lim: nat, lenDiff := |a|, |b|, 0, |a| - |b|;
    if lenDiff > 0 {
      lim, lenDiff := |a| - |b|, 1;
    }
    while p1 > lim
      invariant lim <= p1 <= |a| && |a| - p1 == |b| - p2 && p2 <= |b|
      invariant x[..|a| - p1] == y[..|a| - p1]
    {
      p1, p2 := p1 - 1, p2 - 1;
      var diff := a[p1] - b[p2];
      if diff != 0 {
        ComparePrefix(x, y, |a| - 1 - p1);
        return diff;
      }
    }
    ComparePrefix(x, y, |a| - p1);
    assert x[|a| - p1..] == [] || y[|a| - p1..] == [];
    r := if lenDiff < 0 then -1 else lenDiff;
  }

  // ---------------------------------------------------------------- keys as numbers

  function Pow(n: nat): (p: nat)
    ensures p > 0
  {
    if n == 0 then 1 else 257 * Pow(n - 1)
  }

  /** The key as a numeral of n digits; a byte is a digit from 1 on, the end of the key counts as 0. */
  function Rank(s: Bytes, n: nat): int
    decreases n
  {
    if n == 0 || s == [] then 0 else (s[0] + 1) * Pow(n - 1) + Rank(s[1..], n - 1)
  }

  lemma {:induction false} RankBound(s: Bytes, n: nat)
    requires Octets(s)
    ensures 0 <= Rank(s, n) < Pow(n)
    decreases n
  {
    if n > 0 && s != [] {
      RankBound(s[1..], n - 1);
      Digit(s[0] + 1, 257, Pow(n - 1));
    }
  }

  lemma Digit(d: int, e: int, p: nat)
    requires 0 <= d < e && p > 0
    ensures 0 <= d * p && d * p + p <= e * p
  {
    assert (d + 1) * p <= e * p;
  }

  /** Comparing keys is comparing their numbers. */
  lemma {:induction false} RankOrder(a: Bytes, b: Bytes, n: nat)
    requires Octets(a) && Octets(b) && |a| <= n && |b| <= n
    ensures Sign(Compare(a, b)) == Sign(Rank(a, n) - Rank(b, n))
    decreases n
  {
    if a != [] && b != [] {
      RankBound(a[1..], n - 1);
      RankBound(b[1..], n - 1);
      if a[0] < b[0] {
        Digit(a[0] + 1, b[0] + 1, Pow(n - 1));
      } else if b[0] < a[0] {
        Digit(b[0] + 1, a[0] + 1, Pow(n - 1));
      } else {
        RankOrder(a[1..], b[1..], n - 1);
      }
    } else if a != [] {
      RankBound(a[1..], n - 1);
      Digit(0, a[0] + 1, Pow(n - 1));
    } else if b != [] {
      RankBound(b[1..], n - 1);
      Digit(0, b[0] + 1, Pow(n - 1));
    }
  }

  /** Different keys have different numbers. */
  lemma {:induction false} RankInjective(a: Bytes, b: Bytes, n: nat)
    requires Octets(a) && Octets(b) && |a| <= n && |b| <= n && Rank(a, n) == Rank(b, n)
    ensures a == b
  {
    RankOrder(a, b, n);
    CompareEqual(a, b);
  }

  lemma {:induction false} CompareEqual(a: Bytes, b: Bytes)
    requires Compare(a, b) == 0
    ensures a == b
    decreases |a|
  {
    if a != [] && b != [] {
      CompareEqual(a[1..], b[1..]);
      assert a == [a[0]] + a[1..] && b == [b[0]] + b[1..];
    }
  }
}
