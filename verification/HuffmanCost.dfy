/** No prefix code is shorter than what the Huffman construction merges
(experimental/fast_lossless/fast_lossless.cc:155-167).
 */
module HuffmanCost {
  import opened Bits
  import opened PriorityQueue
  import opened Sequences

  /** What the merges add up to: every merge makes all symbols below it one bit longer. */
  function MergeCost(q: seq<QElem>, next: nat): nat
    decreases |q|
  {
    if |q| <= 1 then 0
    else
      var merged := Merged(q, next);
      assert |merged| == |q| - 1;
      q[0].freq + q[1].freq + MergeCost(merged, next + 1)
  }

  /** The bits for all occurrences, if element `i` has `lens[i]` bits. */
  function Weighted(q: seq<QElem>, lens: seq<nat>): nat
    requires |q| == |lens|
  {
    if q == [] then 0 else Weighted(q[..|q| - 1], lens[..|q| - 1]) + q[|q| - 1].freq * lens[|q| - 1]
  }

  /** What words of these lengths take of 2^limit. */
  function KraftOf(lens: seq<nat>, limit: nat): nat {
    if lens == [] then 0 else KraftOf(lens[..|lens| - 1], limit) + Share(limit, lens[|lens| - 1])
  }

  ghost predicate AreWithin(lens: seq<nat>, limit: nat) {
    forall i | 0 <= i < |lens| :: lens[i] <= limit
  }

  // ----- sums of parts -----

  lemma {:induction false} WeightedConcat(a: seq<QElem>, la: seq<nat>, b: seq<QElem>, lb: seq<nat>)
    requires |a| == |la| && |b| == |lb|
    ensures Weighted(a + b, la + lb) == Weighted(a, la) + Weighted(b, lb)
    decreases |b|
  {
    if b == [] {
      assert a + b == a && la + lb == la;
    } else {
      var k := |b| - 1;
      WeightedConcat(a, la, b[..k], lb[..k]);
      assert (a + b)[..|a| + k] == a + b[..k] && (la + lb)[..|a| + k] == la + lb[..k];
    }
  }

  lemma {:induction false} KraftConcat(a: seq<nat>, b: seq<nat>, limit: nat)
    ensures KraftOf(a + b, limit) == KraftOf(a, limit) + KraftOf(b, limit)
    decreases |b|
  {
    hide Share;
    if b == [] {
      assert a + b == a;
    } else {
      KraftConcat(a, b[..|b| - 1], limit);
      assert (a + b)[..|a + b| - 1] == a + b[..|b| - 1];
    }
  }

  lemma {:induction false} WeightedUpdate(q: seq<QElem>, lens: seq<nat>, i: nat, x: nat)
    requires |q| == |lens| && i < |q|
    ensures Weighted(q, Updated(lens, i, x)) == Weighted(q, lens) - q[i].freq * lens[i] + q[i].freq * x
    decreases |q|
  {
    var k := |q| - 1;
    if i < k {
      WeightedUpdate(q[..k], lens[..k], i, x);
      assert Updated(lens, i, x)[..k] == Updated(lens[..k], i, x);
    } else {
      assert Updated(lens, i, x)[..k] == lens[..k];
    }
  }

  lemma {:induction false} KraftUpdate(lens: seq<nat>, i: nat, x: nat, limit: nat)
    requires i < |lens|
    ensures KraftOf(Updated(lens, i, x), limit) == KraftOf(lens, limit) - Share(limit, lens[i]) + Share(limit, x)
    decreases |lens|
  {
    hide Share;
    var k := |lens| - 1;
    if i < k {
      KraftUpdate(lens[..k], i, x, limit);
      assert Updated(lens, i, x)[..k] == Updated(lens[..k], i, x);
    } else {
      assert Updated(lens, i, x)[..k] == lens[..k];
    }
  }

  // ----- shortening -----

  lemma {:induction false} KraftHalves(lens: seq<nat>, limit: nat)
    requires limit > 0 && forall i | 0 <= i < |lens| :: lens[i] < limit
    ensures KraftOf(lens, limit) == 2 * KraftOf(lens, limit - 1)
  {
    if lens != [] {
      KraftHalves(lens[..|lens| - 1], limit);
    }
  }

  lemma {:induction false} KraftOfNothing(lens: seq<nat>)
    requires AreWithin(lens, 0)
    ensures KraftOf(lens, 0) == |lens|
  {
    if lens != [] {
      KraftOfNothing(lens[..|lens| - 1]);
    }
  }

  // ----- the exchange -----

  function Swapped(lens: seq<nat>, i: nat, j: nat): (r: seq<nat>)
    requires i < |lens| && j < |lens|
    ensures |r| == |lens| && forall k | 0 <= k < |r| :: r[k] == lens[if k == i then j else if k == j then i else k]
  {
    Updated(Updated(lens, i, lens[j]), j, lens[i])
  }

  /** A longer word for a rarer element never costs more. */
  lemma SwapCost(q: seq<QElem>, lens: seq<nat>, i: nat, j: nat, limit: nat)
    requires |q| == |lens| && i < |q| && j < |q| && i != j && q[i].freq <= q[j].freq && lens[i] <= lens[j]
    ensures Weighted(q, Swapped(lens, i, j)) <= Weighted(q, lens)
    ensures KraftOf(Swapped(lens, i, j), limit) == KraftOf(lens, limit)
  {
    hide Weighted, KraftOf, Share;
    var one := Updated(lens, i, lens[j]);
    WeightedUpdate(q, lens, i, lens[j]);
    WeightedUpdate(q, one, j, lens[i]);
    KraftUpdate(lens, i, lens[j], limit);
    KraftUpdate(one, j, lens[i], limit);
    Rearranged(q[i].freq, q[j].freq, lens[i], lens[j]);
  }

  lemma Rearranged(f: nat, g: nat, x: nat, y: nat)
    requires f <= g && x <= y
    ensures f * y + g * x <= f * x + g * y
  {
    assert f * x + g * y - f * y - g * x == (g - f) * (y - x);
  }

  /** The two rarest elements may as well have the longest words, if there are two. */
  lemma RarestLongest(q: seq<QElem>, lens: seq<nat>, limit: nat, i: nat, j: nat) returns (r: seq<nat>)
    requires IsQueue(q) && |q| == |lens| && AreWithin(lens, limit)
    requires i < j < |q| && lens[i] == lens[j] == limit
    ensures |r| == |q| && AreWithin(r, limit) && r[0] == r[1] == limit
    ensures Weighted(q, r) <= Weighted(q, lens) && KraftOf(r, limit) == KraftOf(lens, limit)
  {
    hide Weighted, KraftOf;
    r := lens;
    if i > 0 {
      assert Leq(q[0], q[i]);
      SwapCost(q, r, 0, i, limit);
      r := Swapped(r, 0, i);
    }
    if j > 1 {
      assert Leq(q[1], q[j]);
      SwapCost(q, r, 1, j, limit);
      r := Swapped(r, 1, j);
    }
  }

  // ----- the merge -----

  /** The lengths after a merge: the pair is replaced by one element with one bit less. */
  function MergedLens(q: seq<QElem>, lens: seq<nat>, next: nat): (r: seq<nat>)
    requires |q| == |lens| >= 2 && lens[0] > 0
    ensures |r| == |lens| - 1
  {
    var p := Position(q[2..], QElem(q[0].freq + q[1].freq, next));
    lens[2..][..p] + [lens[0] - 1] + lens[2..][p..]
  }

  lemma MergedCost(q: seq<QElem>, lens: seq<nat>, next: nat, limit: nat)
    requires |q| == |lens| >= 2 && 0 < lens[0] == lens[1] <= limit
    ensures |Merged(q, next)| == |q| - 1
    ensures Weighted(q, lens) == q[0].freq + q[1].freq + Weighted(Merged(q, next), MergedLens(q, lens, next))
    ensures KraftOf(MergedLens(q, lens, next), limit) == KraftOf(lens, limit)
  {
    hide Weighted, KraftOf, Share, Position;
    var e, l := QElem(q[0].freq + q[1].freq, next), lens[0];
    var rest, tail := q[2..], lens[2..];
    var p := Position(rest, e);
    SplitSums(q, lens, limit);
    SplitParts(rest, tail, p, limit);
    InsertSums(rest, tail, p, e, l - 1, limit);
    MergedTerm(q[0].freq, q[1].freq, l, limit);
  }

  lemma MergedTerm(f: nat, g: nat, l: nat, limit: nat)
    requires 0 < l <= limit
    ensures f * l + g * l == (f + g) * (l - 1) + f + g && Share(limit, l - 1) == 2 * Share(limit, l)
  {
  }

  lemma SplitSums(q: seq<QElem>, lens: seq<nat>, limit: nat)
    requires |q| == |lens| >= 2
    ensures Weighted(q, lens) == q[0].freq * lens[0] + q[1].freq * lens[1] + Weighted(q[2..], lens[2..])
    ensures KraftOf(lens, limit) == Share(limit, lens[0]) + Share(limit, lens[1]) + KraftOf(lens[2..], limit)
  {
    WeightedConcat(q[..2], lens[..2], q[2..], lens[2..]);
    KraftConcat(lens[..2], lens[2..], limit);
    assert q == q[..2] + q[2..] && lens == lens[..2] + lens[2..];
    assert q[..2][..1] == [q[0]] && lens[..2][..1] == [lens[0]];
    assert [q[0]][..0] == [] && [lens[0]][..0] == [];
  }

  lemma SplitParts(q: seq<QElem>, lens: seq<nat>, p: nat, limit: nat)
    requires |q| == |lens| && p <= |q|
    ensures Weighted(q, lens) == Weighted(q[..p], lens[..p]) + Weighted(q[p..], lens[p..])
    ensures KraftOf(lens, limit) == KraftOf(lens[..p], limit) + KraftOf(lens[p..], limit)
  {
    WeightedConcat(q[..p], lens[..p], q[p..], lens[p..]);
    KraftConcat(lens[..p], lens[p..], limit);
    assert q == q[..p] + q[p..] && lens == lens[..p] + lens[p..];
  }

  lemma InsertSums(q: seq<QElem>, lens: seq<nat>, p: nat, e: QElem, l: nat, limit: nat)
    requires |q| == |lens| && p <= |q|
    ensures Weighted(q[..p] + [e] + q[p..], lens[..p] + [l] + lens[p..])
         == Weighted(q[..p], lens[..p]) + e.freq * l + Weighted(q[p..], lens[p..])
    ensures KraftOf(lens[..p] + [l] + lens[p..], limit)
         == KraftOf(lens[..p], limit) + Share(limit, l) + KraftOf(lens[p..], limit)
  {
    WeightedConcat(q[..p] + [e], lens[..p] + [l], q[p..], lens[p..]);
    KraftConcat(lens[..p] + [l], lens[p..], limit);
    assert (q[..p] + [e])[..p] == q[..p] && (lens[..p] + [l])[..p] == lens[..p];
  }

  // ----- the bound -----

  ghost predicate IsNext(q: seq<QElem>, next: nat) {
    forall i | 0 <= i < |q| :: q[i].node < next
  }

  lemma MergedIsQueue(q: seq<QElem>, next: nat)
    requires IsQueue(q) && |q| >= 2 && IsNext(q, next)
    ensures IsQueue(Merged(q, next)) && |Merged(q, next)| == |q| - 1 && IsNext(Merged(q, next), next + 1)
  {
    var rest, e := q[2..], QElem(q[0].freq + q[1].freq, next);
    TailQueue(q);
    EmplaceKeepsQueue(rest, e);
    hide IsQueue, Emplace;
    var r := Merged(q, next);
    forall i | 0 <= i < |r| ensures r[i].node < next + 1 {
      assert r[i] in r;
      if r[i] in rest {
        var k :| 0 <= k < |rest| && rest[k] == r[i];
      }
    }
  }

  /** Words that fit beside each other take at least as many bits as the merges add up to. */
  lemma {:induction false} LowerBound(q: seq<QElem>, next: nat, lens: seq<nat>, limit: nat)
    requires IsQueue(q) && IsNext(q, next) && |q| == |lens| && AreWithin(lens, limit)
    requires KraftOf(lens, limit) <= Pow2(limit)
    ensures Weighted(q, lens) >= MergeCost(q, next)
    decreases |q|, limit
  {
    hide IsQueue, Weighted, KraftOf, Merged, Share;
    if |q| >= 2 {
      if limit == 0 {
        KraftOfNothing(lens);
      } else if i: nat, j: nat :| i < j < |q| && lens[i] == lens[j] == limit {
        var r := RarestLongest(q, lens, limit, i, j);
        MergedCost(q, r, next, limit);
        MergedIsQueue(q, next);
        LowerBound(Merged(q, next), next + 1, MergedLens(q, r, next), limit);
      } else if i: nat :| i < |q| && lens[i] == limit {
        OneLongest(lens, i, limit);
        var r := Updated(lens, i, limit - 1);
        WeightedUpdate(q, lens, i, limit - 1);
        ShorterWord(q[i].freq, limit);
        LowerBound(q, next, r, limit - 1);
      } else {
        KraftHalves(lens, limit);
        LowerBound(q, next, lens, limit - 1);
      }
    }
  }

  lemma ShorterWord(f: nat, limit: nat)
    requires limit > 0
    ensures f * (limit - 1) <= f * limit
  {
  }

  /** A single longest word can be shortened: what all words take is odd, and so less than everything. */
  lemma OneLongest(lens: seq<nat>, i: nat, limit: nat)
    requires limit > 0 && i < |lens| && lens[i] == limit && KraftOf(lens, limit) <= Pow2(limit)
    requires forall j | 0 <= j < |lens| && j != i :: lens[j] < limit
    ensures KraftOf(Updated(lens, i, limit - 1), limit - 1) <= Pow2(limit - 1)
  {
    hide KraftOf;
    KraftUpdate(lens, i, limit - 1, limit);
    KraftHalves(Updated(lens, i, limit - 1), limit);
    assert Share(limit, limit) == 1 && Share(limit, limit - 1) == 2;
    assert Pow2(limit) == 2 * Pow2(limit - 1);
  }
}
