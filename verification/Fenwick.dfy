/** The Fenwick tree behind both Lehmer code directions (lib/jxl/lehmer_code.h:23-97).

Node `t` (from 1) counts the flags set in [t - LowBit(t), t). `LowBit(t)` is `t & -t`, and
`t & (t - 1)` is `t - LowBit(t)`.
 */
module Fenwick {
  import opened Bits
  import opened Lehmer
  import opened UintConfigs

  // ----- lowest bits -----

  /** `ValueOfLowest1Bit`. */
  function LowBit(t: nat): (b: nat)
    requires t > 0
    ensures 1 <= b <= t
  {
    if t % 2 == 1 then 1 else 2 * LowBit(t / 2)
  }

  predicate Aligned(t: nat, e: nat)
    decreases e
  {
    e == 0 || (t % 2 == 0 && Aligned(t / 2, e - 1))
  }

  lemma {:induction false} AlignedZero(e: nat)
    ensures Aligned(0, e)
  {
    if e > 0 {
      AlignedZero(e - 1);
    }
  }

  /** The candidates of the descent are nodes of the current width. */
  lemma {:induction false} AlignedMiddle(t: nat, e: nat)
    requires Aligned(t, e + 1)
    ensures Aligned(t, e) && Aligned(t + Pow2(e), e) && LowBit(t + Pow2(e)) == Pow2(e)
    decreases e
  {
    if e > 0 {
      AlignedMiddle(t / 2, e - 1);
      assert (t + Pow2(e)) / 2 == t / 2 + Pow2(e - 1);
    }
  }

  /** Nodes between a node and its successor start at or above the node. */
  lemma {:induction false} BetweenNodes(t: nat, s: nat)
    requires 0 < t < s < t + LowBit(t)
    ensures s - LowBit(s) >= t
    decreases s
  {
    if t % 2 == 0 && s % 2 == 0 {
      BetweenNodes(t / 2, s / 2);
    }
  }

  /** The successor of a node covers at least what the node covers. */
  lemma {:induction false} Successor(t: nat)
    requires t > 0
    ensures LowBit(t + LowBit(t)) >= 2 * LowBit(t)
    decreases t
  {
    if t % 2 == 0 {
      Successor(t / 2);
      assert (t + LowBit(t)) / 2 == t / 2 + LowBit(t / 2);
    }
  }

  // ----- counting -----

  function Count(flags: seq<bool>, lo: nat, hi: nat): (c: nat)
    requires lo <= hi <= |flags|
    ensures c <= hi - lo
    decreases hi
  {
    if lo == hi then 0 else Count(flags, lo, hi - 1) + if flags[hi - 1] then 1 else 0
  }

  lemma {:induction false} CountSplit(flags: seq<bool>, lo: nat, mid: nat, hi: nat)
    requires lo <= mid <= hi <= |flags|
    ensures Count(flags, lo, hi) == Count(flags, lo, mid) + Count(flags, mid, hi)
    decreases hi
  {
    if mid < hi {
      CountSplit(flags, lo, mid, hi - 1);
    }
  }

  lemma {:induction false} CountUpdate(flags: seq<bool>, lo: nat, hi: nat, v: nat, b: bool)
    requires lo <= hi <= |flags| && v < |flags| && flags[v] != b
    ensures Count(flags[v := b], lo, hi) ==
            Count(flags, lo, hi) + if !(lo <= v < hi) then 0 else if b then 1 else -1
    decreases hi
  {
    if lo < hi {
      CountUpdate(flags, lo, hi - 1, v, b);
    }
  }

  lemma {:induction false} CountAll(flags: seq<bool>, lo: nat, hi: nat, b: bool)
    requires lo <= hi <= |flags| && forall k | lo <= k < hi :: flags[k] == b
    ensures Count(flags, lo, hi) == if b then hi - lo else 0
    decreases hi
  {
    if lo < hi {
      CountAll(flags, lo, hi - 1, b);
    }
  }

  lemma {:induction false} CountBoth(a: seq<bool>, b: seq<bool>, hi: nat)
    requires hi <= |a| && hi <= |b| && forall k | 0 <= k < hi :: a[k] != b[k]
    ensures Count(a, 0, hi) + Count(b, 0, hi) == hi
    decreases hi
  {
    if hi > 0 {
      CountBoth(a, b, hi - 1);
    }
  }

  // ----- what remains -----

  /** The values below `hi` whose flag is set, in increasing order. */
  function SetValues(flags: seq<bool>, hi: nat): (s: seq<nat>)
    requires hi <= |flags|
    ensures |s| == Count(flags, 0, hi) && forall k | 0 <= k < |s| :: s[k] < hi
    decreases hi
  {
    if hi == 0 then [] else SetValues(flags, hi - 1) + if flags[hi - 1] then [hi - 1] else []
  }

  lemma {:induction false} SetValuesAll(flags: seq<bool>, hi: nat)
    requires hi <= |flags| && forall k | 0 <= k < hi :: flags[k]
    ensures SetValues(flags, hi) == Range(0, hi)
    decreases hi
  {
    if hi > 0 {
      SetValuesAll(flags, hi - 1);
      assert Range(0, hi) == Range(0, hi - 1) + [hi - 1];
    }
  }

  lemma {:induction false} SetValuesSame(a: seq<bool>, b: seq<bool>, hi: nat)
    requires hi <= |a| && hi <= |b| && forall k | 0 <= k < hi :: a[k] == b[k]
    ensures SetValues(a, hi) == SetValues(b, hi)
    decreases hi
  {
    if hi > 0 {
      SetValuesSame(a, b, hi - 1);
    }
  }

  /** A set value is found at the index that counts the set values below it; clearing its flag removes it. */
  lemma {:induction false} SetValueAt(flags: seq<bool>, hi: nat, v: nat)
    requires v < hi <= |flags| && flags[v]
    ensures Count(flags, 0, v) < Count(flags, 0, hi) && SetValues(flags, hi)[Count(flags, 0, v)] == v
    ensures SetValues(flags[v := false], hi) == Remove(SetValues(flags, hi), Count(flags, 0, v))
    decreases hi
  {
    if v == hi - 1 {
      SetValuesSame(flags, flags[v := false], hi - 1);
    } else {
      SetValueAt(flags, hi - 1, v);
      var before, last := SetValues(flags, hi - 1), if flags[hi - 1] then [hi - 1] else [];
      var k := Count(flags, 0, v);
      assert Remove(before + last, k) == Remove(before, k) + last;
    }
  }

  lemma {:induction false} SetValuesDistinct(flags: seq<bool>, hi: nat)
    requires hi <= |flags|
    ensures Distinct(SetValues(flags, hi))
    decreases hi
  {
    if hi > 0 {
      SetValuesDistinct(flags, hi - 1);
    }
  }

  // ----- the tree -----

  ghost function Node(flags: seq<bool>, t: nat): nat
    requires 0 < t <= |flags|
  {
    Count(flags, t - LowBit(t), t)
  }

  function Stored(nodes: seq<nat>, t: nat): nat
    requires 0 < t <= |nodes|
  {
    nodes[t - 1]
  }

  /** Nodes 1, ..., |nodes| of the tree over `flags`. */
  ghost predicate IsTree(flags: seq<bool>, nodes: seq<nat>) {
    |nodes| <= |flags| && forall t: nat | 0 < t <= |nodes| :: Stored(nodes, t) == Node(flags, t)
  }

  function Bumped(nodes: seq<nat>, t: nat, b: bool): (s: seq<nat>)
    requires 0 < t <= |nodes| && (b || nodes[t - 1] > 0)
  {
    nodes[t - 1 := if b then nodes[t - 1] + 1 else nodes[t - 1] - 1]
  }

  /** While flag `v` is being changed to `b`: nodes below `next` are up to date, the others are not. */
  ghost predicate IsUpdating(flags: seq<bool>, v: nat, b: bool, nodes: seq<nat>, next: nat) {
    && |nodes| <= |flags| && v < |flags| && flags[v] != b && v < next
    && (next <= |nodes| ==> next - LowBit(next) <= v)
    && forall t: nat | 0 < t <= |nodes| ::
         Stored(nodes, t) == if t < next then Node(flags[v := b], t) else Node(flags, t)
  }

  lemma UpdateStart(flags: seq<bool>, v: nat, b: bool, nodes: seq<nat>)
    requires IsTree(flags, nodes) && v < |flags| && flags[v] != b
    ensures IsUpdating(flags, v, b, nodes, v + 1)
  {
    hide Count;
    forall t: nat | 0 < t <= |nodes|
      ensures Stored(nodes, t) == if t < v + 1 then Node(flags[v := b], t) else Node(flags, t)
    {
      CountUpdate(flags, t - LowBit(t), t, v, b);
    }
  }

  lemma UpdateStep(flags: seq<bool>, v: nat, b: bool, nodes: seq<nat>, next: nat)
    requires IsUpdating(flags, v, b, nodes, next) && next <= |nodes|
    ensures b || nodes[next - 1] > 0
    ensures IsUpdating(flags, v, b, Bumped(nodes, next, b), next + LowBit(next))
  {
    hide Count;
    CountUpdate(flags, next - LowBit(next), next, v, b);
    assert Stored(nodes, next) == Node(flags, next);
    Successor(next);
    var nodes' := Bumped(nodes, next, b);
    forall t: nat | 0 < t <= |nodes|
      ensures Stored(nodes', t) == if t < next + LowBit(next) then Node(flags[v := b], t) else Node(flags, t)
    {
      assert t != next ==> Stored(nodes', t) == Stored(nodes, t);
      if next < t < next + LowBit(next) {
        BetweenNodes(next, t);
        CountUpdate(flags, t - LowBit(t), t, v, b);
      }
    }
  }

  lemma UpdateEnd(flags: seq<bool>, v: nat, b: bool, nodes: seq<nat>, next: nat)
    requires IsUpdating(flags, v, b, nodes, next) && next > |nodes|
    ensures IsTree(flags[v := b], nodes)
  {
  }

  // ----- decoding -----

  /** The value sought is among the 2^e from `next` on, and `rank - 1` set values of these precede it. */
  ghost predicate Narrowed(flags: seq<bool>, digit: nat, next: nat, rank: nat, e: nat) {
    && Aligned(next, e) && next + Pow2(e) <= |flags| && rank >= 1
    && Count(flags, 0, next) + rank == digit + 1 && digit < Count(flags, 0, next + Pow2(e))
  }

  lemma NarrowStep(flags: seq<bool>, nodes: seq<nat>, digit: nat, next: nat, rank: nat, e: nat)
    requires IsTree(flags, nodes) && |nodes| == |flags| && Narrowed(flags, digit, next, rank, e + 1)
    ensures var cand := next + Pow2(e);
            cand <= |nodes| &&
            if nodes[cand - 1] < rank then Narrowed(flags, digit, cand, rank - nodes[cand - 1], e)
            else Narrowed(flags, digit, next, rank, e)
  {
    var cand := next + Pow2(e);
    AlignedMiddle(next, e);
    assert Stored(nodes, cand) == Node(flags, cand) == Count(flags, next, cand);
    CountSplit(flags, 0, next, cand);
  }

  lemma NarrowEnd(flags: seq<bool>, digit: nat, next: nat, rank: nat)
    requires Narrowed(flags, digit, next, rank, 0)
    ensures next < |flags| && flags[next] && Count(flags, 0, next) == digit
  {
  }

  lemma CountMonotone(flags: seq<bool>, a: nat, b: nat)
    requires a <= b <= |flags|
    ensures Count(flags, 0, a) <= Count(flags, 0, b)
  {
    CountSplit(flags, 0, a, b);
  }

  /** The root counts everything, so the first candidate is never taken. */
  lemma LastNode(flags: seq<bool>, nodes: seq<nat>, e: nat, digit: nat)
    requires IsTree(flags, nodes) && |flags| == |nodes| == Pow2(e)
    ensures nodes[|nodes| - 1] == Count(flags, 0, |flags|)
    ensures digit < Count(flags, 0, |flags|) ==> Narrowed(flags, digit, 0, digit + 1, e)
  {
    assert Stored(nodes, |nodes|) == Node(flags, |nodes|);
    AlignedZero(e);
    AlignedZero(e + 1);
    AlignedMiddle(0, e);
  }

  /** Descends to the set value with `digit` set values below it. */
  method FindSet(temp: array<nat>, log2n: nat, digit: nat, ghost flags: seq<bool>) returns (next: nat)
    requires |flags| == temp.Length == Pow2(log2n) && IsTree(flags, temp[..])
    requires digit < Count(flags, 0, |flags|)
    ensures next < |flags| && flags[next] && Count(flags, 0, next) == digit
  {
    var rank: nat := digit + 1;
    var bit := temp.Length;
    next := 0;
    LastNode(flags, temp[..], log2n, digit);
    ghost var e: nat := log2n;
    hide IsTree, Narrowed, Count, LowBit;
    for i := 0 to log2n + 1
      invariant e == (if i == 0 then log2n else log2n + 1 - i)
      invariant bit == if i == 0 then Pow2(log2n) else if e == 0 then 0 else Pow2(e - 1)
      invariant next == 0 || i > 0
      invariant i == 0 ==> rank == digit + 1
      invariant Narrowed(flags, digit, next, rank, e)
    {
      var cand := next + bit;
      if i > 0 {
        e := e - 1;
        NarrowStep(flags, temp[..], digit, next, rank, e);
      }
      bit := bit / 2;
      if temp[cand - 1] < rank {
        next := cand;
        rank := rank - temp[cand - 1];
      }
    }
    NarrowEnd(flags, digit, next, rank);
  }

  /** Sets flag `v` to `b`: updates the node that ends at `v` and its successors. */
  method Update(temp: array<nat>, v: nat, b: bool, ghost flags: seq<bool>)
    requires IsTree(flags, temp[..]) && v < |flags| && flags[v] != b
    modifies temp
    ensures IsTree(flags[v := b], temp[..])
  {
    var next := v + 1;
    UpdateStart(flags, v, b, temp[..]);
    hide IsTree, IsUpdating, Node, Count, Stored;
    while next <= temp.Length
      invariant IsUpdating(flags, v, b, temp[..], next) && next > 0
      decreases temp.Length + 1 - next
    {
      UpdateStep(flags, v, b, temp[..], next);
      ghost var nodes := temp[..];
      temp[next - 1] := if b then temp[next - 1] + 1 else temp[next - 1] - 1;
      assert temp[..] == Bumped(nodes, next, b);
      next := next + LowBit(next);
    }
    UpdateEnd(flags, v, b, temp[..], next);
  }

  /** Digits select values below `n`, although the tree is padded to a power of two. */
  lemma DigitSelects(flags: seq<bool>, n: nat, digit: nat, v: nat)
    requires n <= |flags| && v < |flags| && flags[v] && Count(flags, 0, v) == digit < Count(flags, 0, n)
    ensures v < n && SetValues(flags, n)[digit] == v
    ensures SetValues(flags[v := false], n) == Remove(SetValues(flags, n), digit)
  {
    if v >= n {
      CountMonotone(flags, n, v);
    }
    SetValueAt(flags, n, v);
  }

  lemma SelectedStep(remaining: seq<nat>, code: seq<nat>, i: nat, before: seq<nat>, all: seq<nat>)
    requires i < |code| && IsCode(code[i..], |remaining|) && before + Selected(remaining, code[i..]) == all
    ensures code[i] < |remaining| && IsCode(code[i + 1..], |remaining| - 1)
    ensures before + [remaining[code[i]]] + Selected(Remove(remaining, code[i]), code[i + 1..]) == all
  {
    var rest := code[i..];
    CodeTail(rest, |remaining|);
    assert rest[0] == code[i] && rest[1..] == code[i + 1..];
    assert Selected(remaining, rest) == [remaining[rest[0]]] + Selected(Remove(remaining, rest[0]), rest[1..]);
  }

  /** `i` elements have been selected; flags mark the others. */
  ghost predicate IsDecoding(flags: seq<bool>, n: nat, code: seq<nat>, i: nat, permutation: seq<nat>) {
    && i <= n <= |flags| && |code| == n && IsCode(code, n) && IsCode(code[i..], n - i)
    && Count(flags, 0, n) == |SetValues(flags, n)| == n - i
    && permutation + Selected(SetValues(flags, n), code[i..]) == Selected(Range(0, n), code)
  }

  lemma DigitInRange(flags: seq<bool>, n: nat, code: seq<nat>, i: nat, permutation: seq<nat>)
    requires IsDecoding(flags, n, code, i, permutation) && i < n
    ensures code[i] < Count(flags, 0, n) <= Count(flags, 0, |flags|)
  {
    hide Count, Selected;
    CountMonotone(flags, n, |flags|);
    CodeTail(code[i..], n - i);
    assert code[i..][0] == code[i];
  }

  lemma DecodingStep(flags: seq<bool>, n: nat, code: seq<nat>, i: nat, permutation: seq<nat>, next: nat)
    requires IsDecoding(flags, n, code, i, permutation) && i < n
    requires next < |flags| && flags[next] && Count(flags, 0, next) == code[i]
    ensures IsDecoding(flags[next := false], n, code, i + 1, permutation + [next])
  {
    hide Count, Selected, SetValues, IsCode;
    DigitInRange(flags, n, code, i, permutation);
    SelectedStep(SetValues(flags, n), code, i, permutation, Selected(Range(0, n), code));
    DigitSelects(flags, n, code[i], next);
    CountUpdate(flags, 0, n, next, false);
  }

  /** `DecodeLehmerCode`: the permutation whose elements the digits select. */
  method DecodeLehmerCode(code: seq<nat>, n: nat) returns (permutation: seq<nat>)
    requires n > 0 && |code| == n && IsCode(code, n)
    ensures permutation == Selected(Range(0, n), code)
  {
    hide IsTree, Count, SetValues, Selected, LowBit, IsCode, Pow2, CeilLog2, IsDecoding, Range;
    var log2n := CeilLog2(n);
    var paddedN := Pow2(log2n);
    var temp := new nat[paddedN](i requires 0 <= i => LowBit(i + 1));
    ghost var flags := seq(paddedN, _ => true);
    InitialTree(flags, temp[..], n);
    DecodingStart(flags, n, code);
    permutation := [];
    for i := 0 to n
      invariant |flags| == paddedN && IsTree(flags, temp[..]) && IsDecoding(flags, n, code, i, permutation)
    {
      DigitInRange(flags, n, code, i, permutation);
      var next := FindSet(temp, log2n, code[i], flags);
      DecodingStep(flags, n, code, i, permutation, next);
      permutation := permutation + [next];
      Update(temp, next, false, flags);
      flags := flags[next := false];
    }
    DecodingEnd(flags, n, code, permutation);
  }

  lemma DecodingStart(flags: seq<bool>, n: nat, code: seq<nat>)
    requires n <= |flags| && |code| == n && IsCode(code, n)
    requires SetValues(flags, n) == Range(0, n) && Count(flags, 0, n) == n
    ensures IsDecoding(flags, n, code, 0, [])
  {
    hide Count, SetValues, Selected, IsCode;
    assert code[0..] == code && [] + Selected(SetValues(flags, n), code) == Selected(Range(0, n), code);
  }

  lemma DecodingEnd(flags: seq<bool>, n: nat, code: seq<nat>, permutation: seq<nat>)
    requires IsDecoding(flags, n, code, n, permutation)
    ensures |code| == n && IsCode(code, n) && permutation == Selected(Range(0, n), code)
  {
  }

  lemma InitialTree(flags: seq<bool>, nodes: seq<nat>, n: nat)
    requires |nodes| == |flags| >= n && (forall k | 0 <= k < |flags| :: flags[k])
    requires forall k | 0 <= k < |nodes| :: nodes[k] == LowBit(k + 1)
    ensures IsTree(flags, nodes) && SetValues(flags, n) == Range(0, n) && Count(flags, 0, n) == n
  {
    SetValuesAll(flags, n);
    forall t: nat | 0 < t <= |nodes| ensures Stored(nodes, t) == Node(flags, t) {
      CountAll(flags, t - LowBit(t), t, true);
    }
  }

  // ----- encoding -----

  /** Sums the nodes that cover the flags below `i`. */
  method PrefixCount(temp: array<nat>, start: nat, ghost flags: seq<bool>) returns (sum: nat)
    requires temp.Length == |flags| + 1 && IsTree(flags, temp[1..]) && start <= |flags|
    ensures sum == Count(flags, 0, start)
  {
    var i: nat := start;
    sum := 0;
    while i != 0
      invariant i <= start && sum + Count(flags, 0, i) == Count(flags, 0, start)
    {
      assert Stored(temp[1..], i) == Node(flags, i);
      CountSplit(flags, 0, i - LowBit(i), i);
      sum := sum + temp[i];
      i := i - LowBit(i);
    }
  }

  /** The same update as in decoding, on nodes that are stored from index 1 on. */
  method Mark(temp: array<nat>, s: nat, ghost flags: seq<bool>)
    requires temp.Length == |flags| + 1 && IsTree(flags, temp[1..]) && s < |flags| && !flags[s]
    modifies temp
    ensures IsTree(flags[s := true], temp[1..])
  {
    var i := s + 1;
    UpdateStart(flags, s, true, temp[1..]);
    hide IsTree, IsUpdating, Node, Count, Stored;
    while i < temp.Length
      invariant i > 0 && IsUpdating(flags, s, true, temp[1..], i)
      decreases temp.Length - i
    {
      UpdateStep(flags, s, true, temp[1..], i);
      ghost var nodes := temp[1..];
      temp[i] := temp[i] + 1;
      assert temp[1..] == Bumped(nodes, i, true);
      i := i + LowBit(i);
    }
    UpdateEnd(flags, s, true, temp[1..], i);
  }

  function Negated(flags: seq<bool>): (n: seq<bool>)
    ensures |n| == |flags| && forall k | 0 <= k < |n| :: n[k] == !flags[k]
  {
    seq(|flags|, k requires 0 <= k < |flags| => !flags[k])
  }

  function Unused(used: seq<bool>): seq<nat> {
    SetValues(Negated(used), |used|)
  }

  /** The digit of `s` is the number of unused values below it. */
  lemma DigitOf(used: seq<bool>, p: seq<nat>, i: nat)
    requires i < |p| && Selectable(Unused(used), p[i..])
    ensures var s, remaining := p[i], Unused(used);
            s < |used| && !used[s] && Count(used, 0, s) <= s &&
            var digit: nat := s - Count(used, 0, s);
            Selectable(Unused(used[s := true]), p[i + 1..]) &&
            CodeOf(remaining, p[i..]) ==
            [digit] + CodeOf(Unused(used[s := true]), p[i + 1..])
  {
    var free, s := Negated(used), p[i];
    var remaining := SetValues(free, |used|);
    assert p[i..][0] == s && p[i..][1..] == p[i + 1..];
    SetValueOf(free, |used|, s);
    SetValueAt(free, |used|, s);
    CountBoth(used, free, s);
    SetValuesDistinct(free, |used|);
    DistinctIndex(remaining, Count(free, 0, s));
    assert Negated(used[s := true]) == free[s := false];
    hide SetValues, Count, Negated;
    SelectableTail(remaining, p[i..]);
  }

  lemma {:induction false} SetValueOf(flags: seq<bool>, hi: nat, v: nat)
    requires hi <= |flags| && v in SetValues(flags, hi)
    ensures v < hi && flags[v]
    decreases hi
  {
    if hi > 0 && v in SetValues(flags, hi - 1) {
      SetValueOf(flags, hi - 1, v);
    }
  }

  lemma CodedStep(used: seq<bool>, p: seq<nat>, i: nat, before: seq<nat>, all: seq<nat>)
    requires i < |p| && Selectable(Unused(used), p[i..]) && before + CodeOf(Unused(used), p[i..]) == all
    ensures var s := p[i];
            s < |used| && !used[s] && Count(used, 0, s + 1) <= s &&
            var digit: nat := s - Count(used, 0, s + 1);
            Selectable(Unused(used[s := true]), p[i + 1..]) &&
            before + [digit] + CodeOf(Unused(used[s := true]), p[i + 1..]) == all
  {
    DigitOf(used, p, i);
    CountNext(used, p[i]);
    hide Count, Unused, CodeOf, Selectable;
    var digit: nat := p[i] - Count(used, 0, p[i] + 1);
    assert before + [digit] + CodeOf(Unused(used[p[i] := true]), p[i + 1..])
        == before + ([digit] + CodeOf(Unused(used[p[i] := true]), p[i + 1..]));
  }

  /** `ComputeLehmerCode`: the code that selects the permutation. */
  method ComputeLehmerCode(permutation: seq<nat>) returns (code: seq<nat>)
    requires Selectable(Range(0, |permutation|), permutation)
    ensures code == CodeOf(Range(0, |permutation|), permutation)
  {
    var n := |permutation|;
    var temp := new nat[n + 1](_ => 0);
    ghost var used := seq(n, _ => false);
    EmptyTree(used, temp[1..]);
    code := [];
    ghost var all := CodeOf(Range(0, n), permutation);
    assert permutation[0..] == permutation;
    hide IsTree, Count, Unused, CodeOf, Selectable;
    for idx := 0 to n
      invariant |used| == n && IsTree(used, temp[1..])
      invariant Selectable(Unused(used), permutation[idx..])
      invariant code + CodeOf(Unused(used), permutation[idx..]) == all
    {
      var s := permutation[idx];
      CodedStep(used, permutation, idx, code, all);
      var penalty := PrefixCount(temp, s + 1, used);
      code := code + [s - penalty];
      Mark(temp, s, used);
      used := used[s := true];
    }
    NothingCoded(Unused(used), permutation[n..]);
  }

  lemma CountNext(flags: seq<bool>, s: nat)
    requires s < |flags| && !flags[s]
    ensures Count(flags, 0, s + 1) == Count(flags, 0, s)
  {
  }

  lemma NothingCoded(remaining: seq<nat>, p: seq<nat>)
    requires p == [] && Selectable(remaining, p)
    ensures CodeOf(remaining, p) == []
  {
  }

  lemma EmptyTree(flags: seq<bool>, nodes: seq<nat>)
    requires |nodes| == |flags| && (forall k | 0 <= k < |flags| :: !flags[k])
    requires forall k | 0 <= k < |nodes| :: nodes[k] == 0
    ensures IsTree(flags, nodes) && Unused(flags) == Range(0, |flags|)
  {
    SetValuesAll(Negated(flags), |flags|);
    forall t: nat | 0 < t <= |nodes| ensures Stored(nodes, t) == Node(flags, t) {
      CountAll(flags, t - LowBit(t), t, false);
    }
  }

  /** The two directions on the trees are inverse to each other. */
  method CodeAndDecode(permutation: seq<nat>) returns (back: seq<nat>)
    requires permutation != [] && Selectable(Range(0, |permutation|), permutation)
    ensures back == permutation
  {
    SelectedCodeOf(Range(0, |permutation|), permutation);
    var code := ComputeLehmerCode(permutation);
    back := DecodeLehmerCode(code, |permutation|);
  }
}
