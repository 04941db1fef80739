/** Sums over sequences of counts, as used by histograms and code lengths. */
module Sums {

  function Sum(s: seq<nat>): nat
  {
    if s == [] then 0 else s[0] + Sum(s[1..])
  }

  lemma {:induction false} SumUpdate(s: seq<nat>, i: nat, v: nat)
    requires i < |s|
    ensures Sum(s[i := v]) == Sum(s) - s[i] + v
  {
    if i == 0 {
      assert s[i := v][1..] == s[1..];
    } else {
      SumUpdate(s[1..], i - 1, v);
      assert s[i := v][1..] == s[1..][i - 1 := v];
    }
  }

  lemma {:induction false} SumConcat(a: seq<nat>, b: seq<nat>)
    ensures Sum(a + b) == Sum(a) + Sum(b)
  {
    if a == [] {
      assert a + b == b;
    } else {
      SumConcat(a[1..], b);
      assert (a + b)[1..] == a[1..] + b;
    }
  }

  lemma SumAppend(a: seq<nat>, x: nat)
    ensures Sum(a + [x]) == Sum(a) + x
  {
    SumConcat(a, [x]);
    assert [x][1..] == [];
  }

  lemma {:induction false} SumConstant(s: seq<nat>, c: nat)
    requires forall i | 0 <= i < |s| :: s[i] == c
    ensures Sum(s) == |s| * c
  {
    if s != [] {
      SumConstant(s[1..], c);
      assert |s| * c == c + (|s| - 1) * c;
    }
  }

  /** If every term is at least `c`, so is the average; it is exactly `c` only when all terms are. */
  lemma {:induction false} SumAtLeast(s: seq<nat>, c: nat)
    requires forall i | 0 <= i < |s| :: s[i] >= c
    ensures Sum(s) >= |s| * c
    ensures Sum(s) == |s| * c ==> forall i | 0 <= i < |s| :: s[i] == c
  {
    if s != [] {
      SumAtLeast(s[1..], c);
      assert |s| * c == c + (|s| - 1) * c;
      assert forall i | 1 <= i < |s| :: s[i] == s[1..][i - 1];
    }
  }

  lemma {:induction false} SumAtMost(s: seq<nat>, c: nat)
    requires forall i | 0 <= i < |s| :: s[i] <= c
    ensures Sum(s) <= |s| * c
    ensures Sum(s) == |s| * c ==> forall i | 0 <= i < |s| :: s[i] == c
  {
    if s != [] {
      SumAtMost(s[1..], c);
      assert |s| * c == c + (|s| - 1) * c;
      assert forall i | 1 <= i < |s| :: s[i] == s[1..][i - 1];
    }
  }

  lemma {:induction false} SumElement(s: seq<nat>, i: nat)
    requires i < |s|
    ensures s[i] <= Sum(s)
  {
    if i > 0 {
      SumElement(s[1..], i - 1);
    }
  }

  /** Two terms together do not exceed the sum. */
  lemma SumTwoElements(s: seq<nat>, i: nat, j: nat)
    requires i < |s| && j < |s| && i != j
    ensures s[i] + s[j] <= Sum(s)
  {
    SumUpdate(s, i, 0);
    SumElement(s[i := 0], j);
  }
}
