/** Lehmer codes of permutations (lib/jxl/lehmer_code.h:20-97).

The meaning of a code is "take the element at this index among those that remain". Both directions
of the source work in a Fenwick tree, where a node `t` covers the values in [t - LowBit(t), t).
 */
module Lehmer {
  import opened Bits

  // ----- what a code means -----

  function Remove<T>(s: seq<T>, i: nat): seq<T>
    requires i < |s|
  {
    s[..i] + s[i + 1..]
  }

  /** Every digit selects one of the elements that are left. */
  predicate IsCode(code: seq<nat>, n: nat) {
    |code| <= n && forall i | 0 <= i < |code| :: code[i] + i < n
  }

  lemma CodeTail(code: seq<nat>, n: nat)
    requires IsCode(code, n) && code != []
    ensures code[0] < n && IsCode(code[1..], n - 1)
  {
  }

  /** The elements that the digits select, in order. */
  function Selected(remaining: seq<nat>, code: seq<nat>): (s: seq<nat>)
    requires IsCode(code, |remaining|)
    ensures |s| == |code|
    decreases |code|
  {
    if code == [] then [] else [remaining[code[0]]] + Selected(Remove(remaining, code[0]), code[1..])
  }

  /** What the digits leave over. */
  function LeftOver(remaining: seq<nat>, code: seq<nat>): (s: seq<nat>)
    requires IsCode(code, |remaining|)
    ensures |s| == |remaining| - |code|
    decreases |code|
  {
    if code == [] then remaining else LeftOver(Remove(remaining, code[0]), code[1..])
  }

  lemma RemoveMultiset(s: seq<nat>, i: nat)
    requires i < |s|
    ensures multiset(s) == multiset{s[i]} + multiset(Remove(s, i))
  {
    assert s == s[..i] + [s[i]] + s[i + 1..];
  }

  /** Nothing is lost and nothing is selected twice. */
  lemma {:induction false} SelectedMultiset(remaining: seq<nat>, code: seq<nat>)
    requires IsCode(code, |remaining|)
    ensures multiset(Selected(remaining, code)) + multiset(LeftOver(remaining, code)) == multiset(remaining)
    decreases |code|
  {
    if code != [] {
      RemoveMultiset(remaining, code[0]);
      SelectedMultiset(Remove(remaining, code[0]), code[1..]);
    }
  }

  function Range(lo: nat, hi: nat): (s: seq<nat>)
    requires lo <= hi
    ensures |s| == hi - lo && forall k | 0 <= k < |s| :: s[k] == lo + k
  {
    seq(hi - lo, k requires 0 <= k => lo + k)
  }

  /** A permutation of 0, 1, ..., |p| - 1. */
  ghost predicate IsPermutation(p: seq<nat>) {
    (forall i | 0 <= i < |p| :: p[i] < |p|) && (forall i, j | 0 <= i < j < |p| :: p[i] != p[j])
    && forall v: nat | v < |p| :: v in p
  }

  lemma {:induction false} CountInRange(lo: nat, hi: nat, v: nat)
    requires lo <= hi
    ensures multiset(Range(lo, hi))[v] == if lo <= v < hi then 1 else 0
    decreases hi - lo
  {
    if lo < hi {
      CountInRange(lo + 1, hi, v);
      assert Range(lo, hi) == [lo] + Range(lo + 1, hi);
    }
  }

  lemma TwiceCounted(p: seq<nat>, i: nat, j: nat)
    requires i < j < |p| && p[i] == p[j]
    ensures multiset(p)[p[i]] >= 2
  {
    assert p == p[..i] + [p[i]] + p[i + 1..j] + [p[j]] + p[j + 1..];
  }

  /** A complete code selects a permutation. */
  lemma SelectedIsPermutation(code: seq<nat>, n: nat)
    requires |code| == n && IsCode(code, n)
    ensures IsPermutation(Selected(Range(0, n), code))
  {
    var p := Selected(Range(0, n), code);
    SelectedMultiset(Range(0, n), code);
    assert LeftOver(Range(0, n), code) == [];
    assert multiset(p) == multiset(Range(0, n));
    forall v: nat ensures multiset(p)[v] == if v < n then 1 else 0 {
      CountInRange(0, n, v);
    }
    forall i | 0 <= i < n ensures p[i] < n {
      assert p[i] in multiset(p);
    }
    forall i: nat, j: nat | i < j < n ensures p[i] != p[j] {
      if p[i] == p[j] {
        TwiceCounted(p, i, j);
      }
    }
    forall v: nat | v < n ensures v in p {
      assert v in multiset(p);
    }
  }

  lemma ZerosTail(code: seq<nat>, m: nat, n: nat)
    requires IsCode(code, n) && 0 < m <= |code| && forall i | 0 <= i < m :: code[i] == 0
    ensures code[0] == 0 && forall i | 0 <= i < m - 1 :: code[1..][i] == 0
  {
  }

  /** Zero digits keep the order of what remains. */
  lemma {:induction false} ZeroDigits(remaining: seq<nat>, code: seq<nat>, m: nat)
    requires IsCode(code, |remaining|) && m <= |code| && forall i | 0 <= i < m :: code[i] == 0
    ensures Selected(remaining, code)[..m] == remaining[..m]
    decreases |code|
  {
    if m > 0 {
      ZerosTail(code, m, |remaining|);
      CodeTail(code, |remaining|);
      var rest := Remove(remaining, 0);
      assert rest == remaining[1..];
      ZeroDigits(rest, code[1..], m - 1);
      assert Selected(remaining, code) == [remaining[0]] + Selected(rest, code[1..]);
      assert Selected(remaining, code)[..m] == [remaining[0]] + Selected(rest, code[1..])[..m - 1];
    }
  }

  /** The index of an element. */
  function IndexOf(s: seq<nat>, v: nat): (i: nat)
    requires v in s
    ensures i < |s| && s[i] == v
  {
    if s[0] == v then 0 else 1 + IndexOf(s[1..], v)
  }

  ghost predicate Distinct(s: seq<nat>) {
    forall i, j | 0 <= i < j < |s| :: s[i] != s[j]
  }

  ghost predicate Selectable(remaining: seq<nat>, p: seq<nat>) {
    Distinct(p) && forall i | 0 <= i < |p| :: p[i] in remaining
  }

  lemma SelectableTail(remaining: seq<nat>, p: seq<nat>)
    requires Selectable(remaining, p) && p != []
    ensures p[0] in remaining && Selectable(Remove(remaining, IndexOf(remaining, p[0])), p[1..])
  {
    var k := IndexOf(remaining, p[0]);
    forall i | 0 <= i < |p[1..]| ensures p[1..][i] in Remove(remaining, k) {
      assert p[i + 1] in remaining && p[i + 1] != p[0];
      assert remaining == remaining[..k] + [p[0]] + remaining[k + 1..];
    }
  }

  /** The code that selects `p`. */
  ghost function CodeOf(remaining: seq<nat>, p: seq<nat>): (c: seq<nat>)
    requires Selectable(remaining, p)
    ensures |c| == |p|
    decreases |p|
  {
    if p == [] then []
    else
      SelectableTail(remaining, p);
      var k := IndexOf(remaining, p[0]);
      [k] + CodeOf(Remove(remaining, k), p[1..])
  }

  /** Selecting undoes coding ... */
  lemma {:induction false} SelectedCodeOf(remaining: seq<nat>, p: seq<nat>)
    requires Selectable(remaining, p)
    ensures IsCode(CodeOf(remaining, p), |remaining|) && Selected(remaining, CodeOf(remaining, p)) == p
    decreases |p|
  {
    if p != [] {
      SelectableTail(remaining, p);
      var k := IndexOf(remaining, p[0]);
      SelectedCodeOf(Remove(remaining, k), p[1..]);
      var c := CodeOf(remaining, p);
      assert c[1..] == CodeOf(Remove(remaining, k), p[1..]);
    }
  }

  lemma DistinctIndex(s: seq<nat>, i: nat)
    requires Distinct(s) && i < |s|
    ensures IndexOf(s, s[i]) == i
  {
  }

  lemma DistinctRemove(s: seq<nat>, i: nat)
    requires Distinct(s) && i < |s|
    ensures Distinct(Remove(s, i)) && s[i] !in Remove(s, i)
  {
  }

  lemma {:induction false} SelectedFrom(remaining: seq<nat>, code: seq<nat>)
    requires IsCode(code, |remaining|) && Distinct(remaining)
    ensures Selectable(remaining, Selected(remaining, code))
    decreases |code|
  {
    if code != [] {
      var rest := Remove(remaining, code[0]);
      DistinctRemove(remaining, code[0]);
      SelectedFrom(rest, code[1..]);
    }
  }

  /** ... and coding undoes selecting. */
  lemma {:induction false} CodeOfSelected(remaining: seq<nat>, code: seq<nat>)
    requires IsCode(code, |remaining|) && Distinct(remaining)
    ensures Selectable(remaining, Selected(remaining, code))
    ensures CodeOf(remaining, Selected(remaining, code)) == code
    decreases |code|
  {
    SelectedFrom(remaining, code);
    if code != [] {
      var p := Selected(remaining, code);
      DistinctRemove(remaining, code[0]);
      DistinctIndex(remaining, code[0]);
      CodeOfSelected(Remove(remaining, code[0]), code[1..]);
      assert p[1..] == Selected(Remove(remaining, code[0]), code[1..]);
    }
  }
}
