/** What sequences as arrays need everywhere: one place set, and n equal entries. */
module Sequences {

  function Updated<T>(s: seq<T>, i: nat, v: T): (r: seq<T>)
    requires i < |s|
    ensures |r| == |s| && forall k | 0 <= k < |r| :: r[k] == if k == i then v else s[k]
  {
    s[i := v]
  }

  function Copies<T>(v: T, n: nat): (r: seq<T>)
    ensures |r| == n && forall k | 0 <= k < n :: r[k] == v
  {
    seq(n, _ => v)
  }

  lemma Associative<T>(a: seq<T>, b: seq<T>, c: seq<T>)
    ensures a + b + c == a + (b + c)
  {
  }

  function Min(a: nat, b: nat): nat {
    if a < b then a else b
  }

  function Max(a: nat, b: nat): nat {
    if a < b then b else a
  }
}
