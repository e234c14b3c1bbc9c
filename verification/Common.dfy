/** Small datatypes and facts about sequences shared by the other modules. */
module Common {
  datatype Option<+T> = None | Some(value: T)

  lemma TailConcat<T>(a: seq<T>, b: seq<T>)
    requires a != []
    ensures a + b != [] && (a + b)[0] == a[0] && (a + b)[1..] == a[1..] + b
  {
  }

  lemma ConcatAssoc<T>(a: seq<T>, b: seq<T>, c: seq<T>)
    ensures a + (b + c) == a + b + c
  {
  }

  function InsertAt<T>(s: seq<T>, n: nat, x: T): (t: seq<T>)
    requires n <= |s|
    ensures |t| == |s| + 1 && t[n] == x
    ensures (forall i :: 0 <= i < n ==> t[i] == s[i]) && forall i :: n < i < |t| ==> t[i] == s[i - 1]
  {
    s[..n] + [x] + s[n..]
  }

  function RemoveAt<T>(s: seq<T>, n: nat): (t: seq<T>)
    requires n < |s|
    ensures |t| == |s| - 1
    ensures (forall i :: 0 <= i < n ==> t[i] == s[i]) && forall i :: n <= i < |t| ==> t[i] == s[i + 1]
  {
    s[..n] + s[n + 1..]
  }
}
