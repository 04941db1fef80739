/** Length-limited Huffman code lengths (experimental/fast_lossless/fast_lossless.cc:143-191).

Nodes are numbered: the leaves first, then the inner nodes in the order of their creation, so parents
have larger numbers than their children.
 */
module Huffman {
  import opened Bits
  import opened UintConfigs
  import opened PriorityQueue
  import opened HuffmanCost
  import opened Sequences

  const MAX_SYMBOLS: nat := 32
  const MAX_NODES: nat := 64

  // ----- the forest -----

  /** `m` leaves and the inner nodes up to `n`; the queue holds the roots. */
  ghost predicate IsForest(parent: seq<nat>, kids: seq<(nat, nat)>, m: nat, n: nat, q: seq<QElem>) {
    && |parent| == MAX_NODES && |kids| == n && m <= n <= MAX_NODES && IsQueue(q) && |q| + n == 2 * m
    && (forall i | 0 <= i < |q| :: q[i].node < n)
    && (forall i: nat | m <= i < n :: IsInner(parent, kids, q, i))
    && (forall j: nat | j < n && !Queued(q, j) :: IsChild(parent, kids, m, n, j))
  }

  ghost predicate IsInner(parent: seq<nat>, kids: seq<(nat, nat)>, q: seq<QElem>, i: nat)
    requires i < |kids| && i < |parent|
  {
    var (a, b) := kids[i];
    a != b && a < i && b < i && !Queued(q, a) && !Queued(q, b) && parent[a] == i && parent[b] == i
  }

  ghost predicate IsChild(parent: seq<nat>, kids: seq<(nat, nat)>, m: nat, n: nat, j: nat)
    requires j < |parent| && n <= |kids|
  {
    j < parent[j] < n && m <= parent[j] && (kids[parent[j]].0 == j || kids[parent[j]].1 == j)
  }

  function SetParents(parent: seq<nat>, a: nat, b: nat, p: nat): (r: seq<nat>)
    requires a < |parent| && b < |parent|
    ensures |r| == |parent| && forall k | 0 <= k < |r| :: r[k] == if k == a || k == b then p else parent[k]
  {
    parent[a := p][b := p]
  }

  lemma InnerAfter(parent: seq<nat>, kids: seq<(nat, nat)>, q: seq<QElem>, q': seq<QElem>, n: nat, a: nat, b: nat,
                   i: nat)
    requires |kids| == n <= |parent| && i < n && a < n && b < n && IsInner(parent, kids, q, i)
    requires Queued(q, a) && Queued(q, b) && i < |parent|
    requires !Queued(q', kids[i].0) && !Queued(q', kids[i].1)
    ensures IsInner(SetParents(parent, a, b, n), kids + [(a, b)], q', i)
  {
    hide Queued;
  }

  lemma ChildAfter(parent: seq<nat>, kids: seq<(nat, nat)>, m: nat, n: nat, a: nat, b: nat, j: nat)
    requires |kids| == n && m <= n && a < n && b < n && n <= |parent| && j < n
    requires j != a && j != b ==> IsChild(parent, kids, m, n, j)
    ensures IsChild(SetParents(parent, a, b, n), kids + [(a, b)], m, n + 1, j)
  {
  }

  /** Merging the two smallest roots. */
  lemma MergeKeepsForest(parent: seq<nat>, kids: seq<(nat, nat)>, m: nat, n: nat, q: seq<QElem>)
    requires IsForest(parent, kids, m, n, q) && |q| >= 2 && m <= MAX_SYMBOLS
    ensures var a, b := q[0].node, q[1].node;
            a < |parent| && b < |parent| &&
              IsForest(SetParents(parent, a, b, n), kids + [(a, b)], m, n + 1, Merged(q, n))
  {
    var a, b := q[0].node, q[1].node;
    var q' := Merged(q, n);
    var parent', kids' := SetParents(parent, a, b, n), kids + [(a, b)];
    MergedNodes(q, n);
    assert Queued(q, a) && Queued(q, b) && a != b;
    hide IsQueue, Merged, Queued, Leq;
    forall i: nat | m <= i < n + 1 ensures IsInner(parent', kids', q', i) {
      if i < n {
        assert IsInner(parent, kids, q, i);
        assert !Queued(q', kids[i].0) && !Queued(q', kids[i].1);
        InnerAfter(parent, kids, q, q', n, a, b, i);
      } else {
        assert !Queued(q', a) && !Queued(q', b);
      }
    }
    assert Queued(q', n);
    forall j: nat | j < n + 1 && !Queued(q', j) ensures IsChild(parent', kids', m, n + 1, j) {
      if j != a && j != b {
        assert !Queued(q, j);
        assert IsChild(parent, kids, m, n, j);
      }
      ChildAfter(parent, kids, m, n, a, b, j);
    }
  }

  /** The roots after a merge. */
  lemma MergedNodes(q: seq<QElem>, n: nat)
    requires IsQueue(q) && |q| >= 2 && forall i | 0 <= i < |q| :: q[i].node < n
    ensures var r := Merged(q, n);
            IsQueue(r) && |r| == |q| - 1 && (forall i | 0 <= i < |r| :: r[i].node < n + 1) &&
            forall node: nat :: Queued(r, node) <==>
              (Queued(q, node) && node != q[0].node && node != q[1].node) || node == n
  {
    var rest, e := q[2..], QElem(q[0].freq + q[1].freq, n);
    TailQueue(q);
    EmplaceKeepsQueue(rest, e);
    hide IsQueue, Emplace, Queued, Leq;
    var r := Merged(q, n);
    forall node: nat
      ensures Queued(r, node) <==> (Queued(q, node) && node != q[0].node && node != q[1].node) || node == n
    {
      EmplacedNodes(rest, e, node);
    }
    forall i | 0 <= i < |r| ensures r[i].node < n + 1 {
      assert r[i] in r;
      if r[i] in rest {
        var k :| 0 <= k < |rest| && rest[k] == r[i];
      }
    }
  }

  // ----- heights -----

  /** Depths from the root: every other node is one below its parent. */
  ghost predicate AreHeights(parent: seq<nat>, height: seq<nat>, root: nat) {
    && |parent| == |height| == MAX_NODES && root < MAX_NODES && height[root] == 0
    && forall i: nat | i < root :: parent[i] < MAX_NODES && height[i] == height[parent[i]] + 1
  }

  ghost predicate HasParent(parent: seq<nat>, kids: seq<(nat, nat)>, m: nat, i: nat)
    requires i < |parent|
  {
    i < parent[i] < |kids| && m <= parent[i] && (kids[parent[i]].0 == i || kids[parent[i]].1 == i)
  }

  ghost predicate HasKids(parent: seq<nat>, kids: seq<(nat, nat)>, i: nat)
    requires i < |kids| && i < |parent|
  {
    var (a, b) := kids[i];
    a != b && a < i && b < i && parent[a] == i && parent[b] == i
  }

  /** The finished tree: one root, all other nodes are children. */
  ghost predicate IsTree(parent: seq<nat>, kids: seq<(nat, nat)>, m: nat) {
    && 2 <= m <= MAX_SYMBOLS && |parent| == MAX_NODES && |kids| == 2 * m - 1
    && (forall i: nat | i < 2 * m - 2 :: HasParent(parent, kids, m, i))
    && (forall i: nat | m <= i < 2 * m - 1 :: HasKids(parent, kids, i))
  }

  lemma OneRootIsTree(parent: seq<nat>, kids: seq<(nat, nat)>, m: nat, q: seq<QElem>)
    requires 2 <= m <= MAX_SYMBOLS && IsForest(parent, kids, m, 2 * m - 1, q)
    ensures IsTree(parent, kids, m)
  {
    var root: nat := 2 * m - 2;
    RootIsQueued(parent, kids, m, q);
    forall i: nat | i < root ensures HasParent(parent, kids, m, i) {
      assert q[0].node == root && !Queued(q, i);
      assert IsChild(parent, kids, m, 2 * m - 1, i);
    }
    forall i: nat | m <= i < 2 * m - 1 ensures HasKids(parent, kids, i) {
      assert IsInner(parent, kids, q, i);
    }
  }

  lemma RootIsQueued(parent: seq<nat>, kids: seq<(nat, nat)>, m: nat, q: seq<QElem>)
    requires 2 <= m <= MAX_SYMBOLS && IsForest(parent, kids, m, 2 * m - 1, q)
    ensures |q| == 1 && q[0].node == 2 * m - 2
  {
    var root: nat := 2 * m - 2;
    assert !IsChild(parent, kids, m, 2 * m - 1, root);
    assert Queued(q, root);
    var i :| 0 <= i < |q| && q[i].node == root;
  }

  /** The part of the unit, in units of 2^-limit, below a cut: nodes under `i` whose parent is not. */
  function Frontier(parent: seq<nat>, height: seq<nat>, limit: nat, root: nat, i: nat, k: nat): nat
    requires k <= |parent| && k <= |height| && forall j | 0 <= j < k :: height[j] <= limit
  {
    if k == 0 then 0
    else Frontier(parent, height, limit, root, i, k - 1)
         + if k - 1 == root || parent[k - 1] >= i then Pow2(limit - height[k - 1]) else 0
  }

  /** Moving the cut below `i` replaces `i` by its two children. */
  lemma {:induction false} FrontierSplit(parent: seq<nat>, height: seq<nat>, limit: nat, root: nat, i: nat, k: nat,
                                         a: nat, b: nat)
    requires k <= i <= root && k <= |parent| && k <= |height| && (forall j | 0 <= j < k :: height[j] <= limit)
    requires a != b && forall j | 0 <= j < k :: parent[j] == i <==> j == a || j == b
    ensures Frontier(parent, height, limit, root, i, k) == Frontier(parent, height, limit, root, i + 1, k)
              + (if a < k then Pow2(limit - height[a]) else 0) + (if b < k then Pow2(limit - height[b]) else 0)
    decreases k
  {
    if k > 0 {
      FrontierSplit(parent, height, limit, root, i, k - 1, a, b);
    }
  }

  lemma FrontierStep(parent: seq<nat>, kids: seq<(nat, nat)>, m: nat, height: seq<nat>, limit: nat, i: nat)
    requires IsTree(parent, kids, m) && AreHeights(parent, height, 2 * m - 2) && m <= i < 2 * m - 1
    requires forall j | 0 <= j < 2 * m - 1 :: height[j] <= limit
    ensures Frontier(parent, height, limit, 2 * m - 2, i + 1, i + 1) == Frontier(parent, height, limit, 2 * m - 2, i, i)
  {
    var (a, b) := kids[i];
    assert HasKids(parent, kids, i);
    forall j: nat | j < i ensures parent[j] == i <==> j == a || j == b {
      assert HasParent(parent, kids, m, j);
    }
    assert i < 2 * m - 2 ==> HasParent(parent, kids, m, i);
    FrontierSplit(parent, height, limit, 2 * m - 2, i, i, a, b);
    assert height[a] == height[i] + 1 && height[b] == height[i] + 1;
    assert i == 2 * m - 2 || parent[i] >= i + 1;
    assert Pow2(limit - height[i]) == 2 * Pow2(limit - height[i] - 1);
  }

  lemma {:induction false} FrontierIsWhole(parent: seq<nat>, kids: seq<(nat, nat)>, m: nat, height: seq<nat>,
                                           limit: nat, i: nat)
    requires IsTree(parent, kids, m) && AreHeights(parent, height, 2 * m - 2) && m <= i <= 2 * m - 1
    requires forall j | 0 <= j < 2 * m - 1 :: height[j] <= limit
    ensures Frontier(parent, height, limit, 2 * m - 2, i, i) == Pow2(limit)
    decreases 2 * m - 1 - i
  {
    if i < 2 * m - 1 {
      FrontierIsWhole(parent, kids, m, height, limit, i + 1);
      FrontierStep(parent, kids, m, height, limit, i);
    } else {
      forall j: nat | j < 2 * m - 2 ensures parent[j] <= 2 * m - 2 {
        assert HasParent(parent, kids, m, j);
      }
      NothingAbove(parent, height, limit, 2 * m - 2, 2 * m - 2);
    }
  }

  lemma {:induction false} NothingAbove(parent: seq<nat>, height: seq<nat>, limit: nat, root: nat, k: nat)
    requires k <= root && k <= |parent| && k <= |height| && (forall j | 0 <= j < k :: height[j] <= limit)
    requires forall j | 0 <= j < k :: parent[j] <= root
    ensures Frontier(parent, height, limit, root, root + 1, k) == 0
    decreases k
  {
    if k > 0 {
      NothingAbove(parent, height, limit, root, k - 1);
    }
  }

  function LeafSum(height: seq<nat>, limit: nat, k: nat): nat
    requires k <= |height|
  {
    if k == 0 then 0 else LeafSum(height, limit, k - 1) + Share(limit, height[k - 1])
  }

  lemma {:induction false} LeavesAreFrontier(parent: seq<nat>, height: seq<nat>, limit: nat, root: nat, m: nat, k: nat)
    requires k <= m <= root && k <= |parent| && k <= |height| && (forall j | 0 <= j < k :: height[j] <= limit)
    requires forall j | 0 <= j < k :: parent[j] >= m
    ensures Frontier(parent, height, limit, root, m, k) == LeafSum(height, limit, k)
    decreases k
  {
    if k > 0 {
      LeavesAreFrontier(parent, height, limit, root, m, k - 1);
    }
  }

  /** The leaves of any tree share out the unit exactly. */
  lemma KraftOfTree(parent: seq<nat>, kids: seq<(nat, nat)>, m: nat, height: seq<nat>, limit: nat)
    requires IsTree(parent, kids, m) && AreHeights(parent, height, 2 * m - 2)
    requires forall j | 0 <= j < 2 * m - 1 :: height[j] <= limit
    ensures LeafSum(height, limit, m) == Pow2(limit) && forall i | 0 <= i < m :: height[i] >= 1
  {
    FrontierIsWhole(parent, kids, m, height, limit, m);
    forall i: nat | i < m ensures parent[i] >= m && height[i] >= 1 {
      assert HasParent(parent, kids, m, i);
    }
    LeavesAreFrontier(parent, height, limit, 2 * m - 2, m, m);
  }

  // ----- balanced trees -----

  predicate IsPower(w: nat)
    requires w > 0
  {
    Pow2(CeilLog2(w)) == w
  }

  /** While all frequencies started as ones: no root weighs more than two others, at most one weight is
      not a power of two, and no subtree is higher than the logarithm of its weight. */
  ghost predicate IsBalanced(q: seq<QElem>, sub: seq<nat>) {
    && (forall i | 0 <= i < |q| :: q[i].freq > 0 && q[i].node < |sub| && sub[q[i].node] <= CeilLog2(q[i].freq))
    && (forall i, j | 0 <= i < |q| && 0 <= j < |q| :: q[i].freq <= 2 * q[j].freq)
    && (forall i, j | 0 <= i < j < |q| :: IsPower(q[i].freq) || IsPower(q[j].freq))
  }

  lemma CeilLog2Monotone(a: nat, b: nat)
    requires 0 < a <= b
    ensures CeilLog2(a) <= CeilLog2(b)
  {
    CeilLog2AtMost(a, CeilLog2(b));
  }

  /** The sum of the two smallest weights passes the next power of two, so the tree may be one higher. */
  lemma MergedLog(f1: nat, f2: nat)
    requires 0 < f1 <= f2 <= 2 * f1 && (IsPower(f1) || IsPower(f2))
    ensures CeilLog2(f1 + f2) >= CeilLog2(f2) + 1
  {
    var c := CeilLog2(f2);
    if IsPower(f2) {
      assert f1 + f2 > Pow2(c);
    } else {
      var a := CeilLog2(f1);
      CeilLog2AtMost(f2, a + 1);
      assert f1 + f2 > Pow2(c) by {
        if c <= a {
          Pow2Monotone(c, a);
        }
      }
    }
    if CeilLog2(f1 + f2) <= c {
      Pow2Monotone(CeilLog2(f1 + f2), c);
    }
  }

  lemma SumOfPowers(f: nat)
    requires f > 0 && IsPower(f)
    ensures IsPower(2 * f)
  {
    var c := CeilLog2(f);
    assert Pow2(c + 1) == 2 * f;
    CeilLog2AtMost(2 * f, c + 1);
    if CeilLog2(2 * f) < c + 1 {
      Pow2Monotone(CeilLog2(2 * f), c);
    }
  }

  /** Merging keeps the balance. */
  lemma MergeKeepsBalance(q: seq<QElem>, sub: seq<nat>, n: nat)
    requires IsQueue(q) && |q| >= 2 && IsBalanced(q, sub) && |sub| == n
    ensures q[0].node < n && q[1].node < n
    ensures IsBalanced(Merged(q, n), sub + [Above(sub[q[0].node], sub[q[1].node])])
  {
    var e := QElem(q[0].freq + q[1].freq, n);
    var r, p := Emplace(q[2..], e), Position(q[2..], e);
    MergedElements(q, e);
    hide Emplace, Position, CeilLog2, IsPower, IsQueue;
    LogsKept(q, r, p, sub, n);
    DoublesKept(q, r, p);
    PowersKept(q, r, p);
  }

  lemma LogsKept(q: seq<QElem>, r: seq<QElem>, p: nat, sub: seq<nat>, n: nat)
    requires |q| >= 2 && |r| == |q| - 1 && p < |r| && r[p] == QElem(q[0].freq + q[1].freq, n)
    requires forall i | 0 <= i < |r| :: i != p ==> r[i] == q[if i < p then i + 2 else i + 1]
    requires q[0].freq <= q[1].freq && IsBalanced(q, sub) && |sub| == n
    ensures var sub' := sub + [Above(sub[q[0].node], sub[q[1].node])];
            forall i | 0 <= i < |r| :: r[i].freq > 0 && r[i].node < |sub'| && sub'[r[i].node] <= CeilLog2(r[i].freq)
  {
    var f1, f2 := q[0].freq, q[1].freq;
    assert IsPower(f1) || IsPower(f2);
    MergedLog(f1, f2);
    CeilLog2Monotone(f1, f2);
    hide CeilLog2, IsPower;
    var sub' := sub + [Above(sub[q[0].node], sub[q[1].node])];
    forall i | 0 <= i < |r| ensures r[i].freq > 0 && r[i].node < |sub'| && sub'[r[i].node] <= CeilLog2(r[i].freq) {
      if i != p {
        assert r[i] == q[if i < p then i + 2 else i + 1];
      }
    }
  }

  lemma DoublesKept(q: seq<QElem>, r: seq<QElem>, p: nat)
    requires |q| >= 2 && |r| == |q| - 1 && p < |r| && r[p].freq == q[0].freq + q[1].freq
    requires forall i | 0 <= i < |r| :: i != p ==> r[i] == q[if i < p then i + 2 else i + 1]
    requires q[0].freq <= q[1].freq && forall i | 2 <= i < |q| :: q[1].freq <= q[i].freq
    requires forall i, j | 0 <= i < |q| && 0 <= j < |q| :: q[i].freq <= 2 * q[j].freq
    ensures forall i, j | 0 <= i < |r| && 0 <= j < |r| :: r[i].freq <= 2 * r[j].freq
  {
    forall i | 0 <= i < |r| ensures q[1].freq <= r[i].freq <= q[0].freq + q[1].freq {
      if i != p {
        var k := if i < p then i + 2 else i + 1;
        assert r[i] == q[k] && (k == 1 || k >= 2);
        assert q[k].freq <= 2 * q[0].freq;
      }
    }
  }

  function Above(a: nat, b: nat): nat {
    1 + if a < b then b else a
  }

  lemma PowersKept(q: seq<QElem>, r: seq<QElem>, p: nat)
    requires |q| >= 2 && |r| == |q| - 1 && p < |r| && r[p].freq == q[0].freq + q[1].freq
    requires forall i | 0 <= i < |r| :: i != p ==> r[i] == q[if i < p then i + 2 else i + 1]
    requires forall i | 0 <= i < |q| :: q[i].freq > 0
    requires q[0].freq <= q[1].freq && forall i | 2 <= i < |q| :: q[1].freq <= q[i].freq
    requires forall i, j | 0 <= i < |q| && 0 <= j < |q| :: q[i].freq <= 2 * q[j].freq
    requires forall i, j | 0 <= i < j < |q| :: IsPower(q[i].freq) || IsPower(q[j].freq)
    ensures forall i | 0 <= i < |r| :: r[i].freq > 0
    ensures forall i, j | 0 <= i < j < |r| :: IsPower(r[i].freq) || IsPower(r[j].freq)
  {
    hide IsPower;
    forall i, j | 0 <= i < j < |r| ensures IsPower(r[i].freq) || IsPower(r[j].freq) {
      if i == p || j == p {
        var k := if i == p then j + 1 else i + 2;
        assert r[if i == p then j else i] == q[k];
        MergedWithOther(q[0].freq, q[1].freq, q[k].freq);
      }
    }
  }

  /** If neither is a power of two after the merge, then two were not before it. */
  lemma MergedWithOther(f1: nat, f2: nat, g: nat)
    requires 0 < f1 <= f2 <= g <= 2 * f1
    requires (IsPower(f1) || IsPower(f2)) && (IsPower(f1) || IsPower(g)) && (IsPower(f2) || IsPower(g))
    ensures IsPower(f1 + f2) || IsPower(g)
  {
    if !IsPower(g) {
      if CeilLog2(f1) < CeilLog2(f2) {
        PowerGap(f1, f2, g);
      } else {
        Pow2Monotone(CeilLog2(f2), CeilLog2(f1));
      }
      SumOfPowers(f1);
    }
  }

  lemma PowerGap(f1: nat, f2: nat, g: nat)
    requires 0 < f1 && f2 <= g <= 2 * f1 && f2 > 0 && IsPower(f1) && IsPower(f2) && CeilLog2(f1) < CeilLog2(f2)
    ensures g == f2
  {
    Pow2Monotone(CeilLog2(f1) + 1, CeilLog2(f2));
  }

  // ----- the queue of leaves -----

  /** How many of the first `k` symbols occur. */
  function Used(freqs: seq<nat>, k: nat): (u: nat)
    requires k <= |freqs|
    ensures u <= k
  {
    if k == 0 then 0 else Used(freqs, k - 1) + if freqs[k - 1] > 0 then 1 else 0
  }

  ghost predicate AtMostOne(freqs: seq<nat>) {
    forall i | 0 <= i < |freqs| :: freqs[i] <= 1
  }

  function QueueSum(q: seq<QElem>): nat {
    if q == [] then 0 else QueueSum(q[..|q| - 1]) + q[|q| - 1].freq
  }

  lemma {:induction false} QueueSumConcat(a: seq<QElem>, b: seq<QElem>)
    ensures QueueSum(a + b) == QueueSum(a) + QueueSum(b)
    decreases |b|
  {
    if b == [] {
      assert a + b == a;
    } else {
      QueueSumConcat(a, b[..|b| - 1]);
      assert (a + b)[..|a + b| - 1] == a + b[..|b| - 1];
    }
  }

  lemma EmplaceSum(q: seq<QElem>, e: QElem)
    ensures QueueSum(Emplace(q, e)) == QueueSum(q) + e.freq
  {
    var p := Position(q, e);
    QueueSumConcat(q[..p] + [e], q[p..]);
    QueueSumConcat(q[..p], [e]);
    QueueSumConcat(q[..p], q[p..]);
    assert [e][..0] == [] && q[..p] + q[p..] == q;
  }

  /** Subtrees are higher than the subtrees of their children. */
  ghost predicate AreSubtrees(kids: seq<(nat, nat)>, sub: seq<nat>, m: nat) {
    |sub| == |kids| && forall i: nat | m <= i < |kids| ::
      kids[i].0 < i && kids[i].1 < i && sub[i] > sub[kids[i].0] && sub[i] > sub[kids[i].1]
  }

  /** What the loops over the queue keep: the forest, its subtree heights and, for ones, the balance. */
  ghost predicate IsState(parent: seq<nat>, kids: seq<(nat, nat)>, sub: seq<nat>, m: nat, n: nat, q: seq<QElem>,
                          ones: bool) {
    && IsForest(parent, kids, m, n, q) && AreSubtrees(kids, sub, m)
    && (ones ==> IsBalanced(q, sub) && QueueSum(q) == m)
  }

  lemma LeafKeepsForest(parent: seq<nat>, kids: seq<(nat, nat)>, n: nat, q: seq<QElem>, f: nat)
    requires IsForest(parent, kids, n, n, q) && n < MAX_SYMBOLS
    ensures IsForest(parent, kids + [(0, 0)], n + 1, n + 1, Emplace(q, QElem(f, n)))
  {
    var e := QElem(f, n);
    var q' := Emplace(q, e);
    EmplaceKeepsQueue(q, e);
    forall j: nat | j < n + 1 ensures Queued(q', j) {
      EmplacedNodes(q, e, j);
      if j < n {
        AllQueued(parent, kids, n, q, j);
      }
    }
    forall i | 0 <= i < |q'| ensures q'[i].node < n + 1 {
      assert q'[i] in q';
    }
  }

  lemma AllQueued(parent: seq<nat>, kids: seq<(nat, nat)>, n: nat, q: seq<QElem>, j: nat)
    requires IsForest(parent, kids, n, n, q) && j < n
    ensures Queued(q, j)
  {
    assert !IsChild(parent, kids, n, n, j);
  }

  lemma OneIsBalanced(q: seq<QElem>, sub: seq<nat>, n: nat)
    requires IsBalanced(q, sub) && |sub| == n && QueueSum(q) == n && forall i | 0 <= i < |q| :: q[i].freq == 1
    ensures IsBalanced(Emplace(q, QElem(1, n)), sub + [0]) && QueueSum(Emplace(q, QElem(1, n))) == n + 1
    ensures forall i | 0 <= i < |Emplace(q, QElem(1, n))| :: Emplace(q, QElem(1, n))[i].freq == 1
  {
    hide Emplace, Position, CeilLog2, QueueSum, IsPower;
    var e := QElem(1, n);
    EmplaceSum(q, e);
    EmplaceAt(q, e);
    var p, r := Position(q, e), Emplace(q, e);
    LogOfOne();
    forall i | 0 <= i < |r| ensures r[i].freq == 1 && r[i].node <= n && (sub + [0])[r[i].node] <= CeilLog2(1) {
      assert r[i] == e || r[i] == q[if i < p then i else i - 1];
    }
  }

  lemma LogOfOne()
    ensures CeilLog2(1) == 0 && IsPower(1)
  {
    CeilLog2AtMost(1, 0);
  }

  /** While only leaves have been added. */
  ghost predicate IsLeafState(parent: seq<nat>, kids: seq<(nat, nat)>, sub: seq<nat>, n: nat, q: seq<QElem>,
                              ones: bool) {
    IsState(parent, kids, sub, n, n, q, ones) && |kids| == |sub| == n &&
      (ones ==> forall k | 0 <= k < |q| :: q[k].freq == 1)
  }

  lemma NoLeaves(parent: seq<nat>, ones: bool)
    requires |parent| == MAX_NODES
    ensures IsLeafState(parent, [], [], 0, [], ones)
  {
    hide CeilLog2, IsPower, IsChild, IsInner;
    assert IsForest(parent, [], 0, 0, []);
  }

  lemma LeafKeepsState(parent: seq<nat>, kids: seq<(nat, nat)>, sub: seq<nat>, n: nat, q: seq<QElem>, ones: bool,
                       f: nat)
    requires IsLeafState(parent, kids, sub, n, q, ones) && n < MAX_SYMBOLS && (ones ==> f == 1)
    ensures IsLeafState(parent, kids + [(0, 0)], sub + [0], n + 1, Emplace(q, QElem(f, n)), ones)
  {
    LeafKeepsForest(parent, kids, n, q, f);
    if ones {
      OneIsBalanced(q, sub, n);
    }
    hide IsForest, IsBalanced, Emplace, QueueSum;
  }

  /** The queue of the first `k` symbols. */
  function QueueOf(freqs: seq<nat>, k: nat): seq<QElem>
    requires k <= |freqs|
  {
    if k == 0 then []
    else if freqs[k - 1] == 0 then QueueOf(freqs, k - 1)
    else Emplace(QueueOf(freqs, k - 1), QElem(freqs[k - 1], Used(freqs, k - 1)))
  }

  /** The frequencies of the first `k` symbols that are not zero. */
  function LeafWeights(freqs: seq<nat>, k: nat): (wt: seq<nat>)
    requires k <= |freqs|
    ensures |wt| == Used(freqs, k)
  {
    if k == 0 then []
    else if freqs[k - 1] == 0 then LeafWeights(freqs, k - 1)
    else LeafWeights(freqs, k - 1) + [freqs[k - 1]]
  }

  lemma {:induction false} QueueIsOfLeaves(freqs: seq<nat>, k: nat)
    requires k <= |freqs|
    ensures var q, wt := QueueOf(freqs, k), LeafWeights(freqs, k);
            IsQueue(q) && |q| == Used(freqs, k) &&
            forall i | 0 <= i < |q| :: q[i].node < |wt| && q[i].freq == wt[q[i].node]
    decreases k
  {
    hide IsQueue, Emplace;
    if k == 0 {
      NoQueue();
    } else {
      QueueIsOfLeaves(freqs, k - 1);
      var q, e := QueueOf(freqs, k - 1), QElem(freqs[k - 1], Used(freqs, k - 1));
      if freqs[k - 1] > 0 {
        EmplaceKeepsQueue(q, e);
        LeavesEmplaced(q, LeafWeights(freqs, k - 1), e);
      }
    }
  }

  lemma NoQueue()
    ensures IsQueue([])
  {
  }

  lemma LeavesEmplaced(q: seq<QElem>, wt: seq<nat>, e: QElem)
    requires (forall i | 0 <= i < |q| :: q[i].node < |wt| && q[i].freq == wt[q[i].node]) && e.node == |wt|
    ensures var r, wt' := Emplace(q, e), wt + [e.freq];
            forall i | 0 <= i < |r| :: r[i].node < |wt'| && r[i].freq == wt'[r[i].node]
  {
    EmplaceAt(q, e);
    hide Emplace, Position;
  }

  /** All symbols that occur become leaves. */
  method FillQueue(freqs: seq<nat>, ghost parent: seq<nat>)
    returns (q: seq<QElem>, numNodes: nat, ghost kids: seq<(nat, nat)>, ghost sub: seq<nat>)
    requires |freqs| <= MAX_SYMBOLS && |parent| == MAX_NODES
    ensures numNodes == Used(freqs, |freqs|) && IsState(parent, kids, sub, numNodes, numNodes, q, AtMostOne(freqs))
    ensures q == QueueOf(freqs, |freqs|) && sub == Copies<nat>(0, numNodes) && |kids| == numNodes
  {
    hide IsLeafState, IsState, Emplace;
    q, numNodes, kids, sub := [], 0, [], [];
    ghost var ones := AtMostOne(freqs);
    NoLeaves(parent, ones);
    for i := 0 to |freqs|
      invariant numNodes == Used(freqs, i) && IsLeafState(parent, kids, sub, numNodes, q, ones)
      invariant q == QueueOf(freqs, i) && sub == Copies<nat>(0, numNodes) && |kids| == numNodes
    {
      if freqs[i] != 0 {
        assert ones ==> freqs[i] == 1;
        hide AtMostOne;
        LeafKeepsState(parent, kids, sub, numNodes, q, ones, freqs[i]);
        q := Emplace(q, QElem(freqs[i], numNodes));
        numNodes := numNodes + 1;
        kids, sub := kids + [(0, 0)], sub + [0];
      }
    }
    LeavesAreState(parent, kids, sub, numNodes, q, ones);
  }

  lemma LeavesAreState(parent: seq<nat>, kids: seq<(nat, nat)>, sub: seq<nat>, n: nat, q: seq<QElem>, ones: bool)
    requires IsLeafState(parent, kids, sub, n, q, ones)
    ensures IsState(parent, kids, sub, n, n, q, ones)
  {
  }

  lemma MergeKeepsSubtrees(kids: seq<(nat, nat)>, sub: seq<nat>, m: nat, a: nat, b: nat)
    requires AreSubtrees(kids, sub, m) && a < |kids| && b < |kids|
    ensures AreSubtrees(kids + [(a, b)], sub + [Above(sub[a], sub[b])], m)
  {
    var kids', sub' := kids + [(a, b)], sub + [Above(sub[a], sub[b])];
    forall i: nat | m <= i < |kids'|
      ensures kids'[i].0 < i && kids'[i].1 < i && sub'[i] > sub'[kids'[i].0] && sub'[i] > sub'[kids'[i].1]
    {
      if i < |kids| {
        assert kids'[i] == kids[i];
      }
    }
  }

  lemma QueueSumOfTwo(a: QElem, b: QElem)
    ensures QueueSum([a, b]) == a.freq + b.freq
  {
    var one, two := [a], [a, b];
    assert one[..|one| - 1] == [] && two[..|two| - 1] == one && two[|two| - 1] == b;
    assert QueueSum(one) == a.freq;
  }

  lemma MergeKeepsSum(q: seq<QElem>, n: nat)
    requires |q| >= 2
    ensures QueueSum(Merged(q, n)) == QueueSum(q)
  {
    hide QueueSum, Emplace;
    EmplaceSum(q[2..], QElem(q[0].freq + q[1].freq, n));
    QueueSumConcat([q[0], q[1]], q[2..]);
    QueueSumOfTwo(q[0], q[1]);
    assert q == [q[0], q[1]] + q[2..];
  }

  lemma ForestFacts(parent: seq<nat>, kids: seq<(nat, nat)>, m: nat, n: nat, q: seq<QElem>)
    requires IsForest(parent, kids, m, n, q)
    ensures |parent| == MAX_NODES && |kids| == n && m <= n && IsQueue(q) && |q| + n == 2 * m
    ensures forall i | 0 <= i < |q| :: q[i].node < n
  {
  }

  lemma SubtreesLength(kids: seq<(nat, nat)>, sub: seq<nat>, m: nat)
    requires AreSubtrees(kids, sub, m)
    ensures |sub| == |kids|
  {
  }

  lemma MergeKeepsState(parent: seq<nat>, kids: seq<(nat, nat)>, sub: seq<nat>, m: nat, n: nat, q: seq<QElem>,
                        ones: bool)
    requires IsState(parent, kids, sub, m, n, q, ones) && |q| >= 2 && m <= MAX_SYMBOLS
    ensures q[0].node < n && q[1].node < n && n < MAX_NODES && |parent| == MAX_NODES && |sub| == n
    ensures var a, b := q[0].node, q[1].node;
            IsState(SetParents(parent, a, b, n), kids + [(a, b)], sub + [Above(sub[a], sub[b])], m, n + 1,
                    Merged(q, n), ones)
  {
    hide IsForest, IsBalanced, Emplace, Merged, AreSubtrees, QueueSum, Above, SetParents, IsQueue;
    ForestFacts(parent, kids, m, n, q);
    SubtreesLength(kids, sub, m);
    MergeKeepsForest(parent, kids, m, n, q);
    MergeKeepsSubtrees(kids, sub, m, q[0].node, q[1].node);
    if ones {
      MergeKeepsBalance(q, sub, n);
      MergeKeepsSum(q, n);
    }
  }

  // ----- weights and heights of the run -----

  /** Weights of the inner nodes made so far. */
  function InnerSum(wt: seq<nat>, m: nat, n: nat): nat
    requires n <= |wt|
    decreases n
  {
    if n <= m then 0 else InnerSum(wt, m, n - 1) + wt[n - 1]
  }

  lemma {:induction false} InnerSumAppend(wt: seq<nat>, x: nat, m: nat, n: nat)
    requires n <= |wt|
    ensures InnerSum(wt + [x], m, n) == InnerSum(wt, m, n)
    decreases n
  {
    if n > m {
      InnerSumAppend(wt, x, m, n - 1);
    }
  }

  /** The height of the tree that the merges make, from the heights of the trees so far. */
  function MergeHeight(q: seq<QElem>, next: nat, sub: seq<nat>): nat
    decreases |q|
  {
    if q == [] || q[0].node >= |sub| then 0
    else if |q| == 1 || q[1].node >= |sub| then sub[q[0].node]
    else
      var merged := Merged(q, next);
      assert |merged| == |q| - 1;
      MergeHeight(merged, next + 1, sub + [Above(sub[q[0].node], sub[q[1].node])])
  }

  /** Every node weighs what its leaves do, and is one higher than the higher one of its children. */
  ghost predicate AreMeasured(kids: seq<(nat, nat)>, sub: seq<nat>, wt: seq<nat>, m: nat) {
    && |kids| == |sub| == |wt| && (forall i: nat | i < m && i < |sub| :: sub[i] == 0)
    && forall i: nat | m <= i < |kids| ::
         kids[i].0 < i && kids[i].1 < i && wt[i] == wt[kids[i].0] + wt[kids[i].1]
         && sub[i] == Above(sub[kids[i].0], sub[kids[i].1])
  }

  /** What is left to merge, and what has been merged, together make the whole tree. */
  ghost predicate IsRun(q0: seq<QElem>, wt0: seq<nat>, m: nat, kids: seq<(nat, nat)>, sub: seq<nat>, wt: seq<nat>,
                        q: seq<QElem>, n: nat) {
    && |wt| == n && m == |wt0| <= n && wt[..m] == wt0 && AreMeasured(kids, sub, wt, m)
    && (forall i | 0 <= i < |q| :: q[i].node < n && q[i].freq == wt[q[i].node])
    && InnerSum(wt, m, n) + MergeCost(q, n) == MergeCost(q0, m)
    && MergeHeight(q, n, sub) == MergeHeight(q0, m, Copies<nat>(0, m))
  }

  lemma RunStarts(q: seq<QElem>, wt: seq<nat>, m: nat, kids: seq<(nat, nat)>, sub: seq<nat>)
    requires |wt| == |kids| == |sub| == m && sub == Copies<nat>(0, m)
    requires forall i | 0 <= i < |q| :: q[i].node < m && q[i].freq == wt[q[i].node]
    ensures IsRun(q, wt, m, kids, sub, wt, q, m)
  {
    hide MergeCost, MergeHeight;
    assert wt[..m] == wt;
  }

  lemma MergedWeights(q: seq<QElem>, wt: seq<nat>, n: nat)
    requires IsQueue(q) && |q| >= 2 && |wt| == n
    requires forall i | 0 <= i < |q| :: q[i].node < n && q[i].freq == wt[q[i].node]
    ensures var q', wt' := Merged(q, n), wt + [q[0].freq + q[1].freq];
            forall i | 0 <= i < |q'| :: q'[i].node < n + 1 && q'[i].freq == wt'[q'[i].node]
  {
    var e := QElem(q[0].freq + q[1].freq, n);
    MergedElements(q, e);
    hide Emplace, Position, IsQueue;
  }

  lemma RunStep(q0: seq<QElem>, wt0: seq<nat>, m: nat, kids: seq<(nat, nat)>, sub: seq<nat>, wt: seq<nat>,
                q: seq<QElem>, n: nat)
    requires IsRun(q0, wt0, m, kids, sub, wt, q, n) && IsQueue(q) && |q| >= 2
    ensures q[0].node < n && q[1].node < n && |sub| == n
    ensures IsRun(q0, wt0, m, kids + [(q[0].node, q[1].node)], sub + [Above(sub[q[0].node], sub[q[1].node])],
                  wt + [q[0].freq + q[1].freq], Merged(q, n), n + 1)
  {
    hide IsQueue, Merged, Above;
    var x := q[0].freq + q[1].freq;
    MergedWeights(q, wt, n);
    InnerSumAppend(wt, x, m, n);
    assert (wt + [x])[..m] == wt[..m];
  }

  /** The finished run. */
  lemma RunEnds(q0: seq<QElem>, wt0: seq<nat>, m: nat, kids: seq<(nat, nat)>, sub: seq<nat>, wt: seq<nat>,
                q: seq<QElem>)
    requires m >= 1 && IsRun(q0, wt0, m, kids, sub, wt, q, 2 * m - 1) && |q| == 1 && q[0].node == 2 * m - 2
    ensures |wt| == 2 * m - 1 == |sub| && wt[..m] == wt0 && AreMeasured(kids, sub, wt, m)
    ensures InnerSum(wt, m, 2 * m - 1) == MergeCost(q0, m)
    ensures sub[2 * m - 2] == MergeHeight(q0, m, Copies<nat>(0, m))
  {
    hide InnerSum;
  }

  // ----- the cost of a tree -----

  /** Weight times depth, over the nodes under `i` whose parent is not. */
  function FrontierCost(parent: seq<nat>, height: seq<nat>, wt: seq<nat>, root: nat, i: nat, k: nat): nat
    requires k <= |parent| && k <= |height| && k <= |wt|
  {
    if k == 0 then 0
    else FrontierCost(parent, height, wt, root, i, k - 1)
         + if k - 1 == root || parent[k - 1] >= i then wt[k - 1] * height[k - 1] else 0
  }

  lemma {:induction false} CostSplit(parent: seq<nat>, height: seq<nat>, wt: seq<nat>, root: nat, i: nat, k: nat,
                                     a: nat, b: nat)
    requires k <= i <= root && k <= |parent| && k <= |height| && k <= |wt|
    requires a != b && forall j | 0 <= j < k :: parent[j] == i <==> j == a || j == b
    ensures FrontierCost(parent, height, wt, root, i, k) == FrontierCost(parent, height, wt, root, i + 1, k)
              + (if a < k then wt[a] * height[a] else 0) + (if b < k then wt[b] * height[b] else 0)
    decreases k
  {
    if k > 0 {
      CostSplit(parent, height, wt, root, i, k - 1, a, b);
    }
  }

  lemma CostStep(parent: seq<nat>, kids: seq<(nat, nat)>, m: nat, height: seq<nat>, sub: seq<nat>, wt: seq<nat>, i: nat)
    requires IsTree(parent, kids, m) && AreHeights(parent, height, 2 * m - 2) && m <= i < 2 * m - 1
    requires AreMeasured(kids, sub, wt, m)
    ensures FrontierCost(parent, height, wt, 2 * m - 2, i, i)
         == FrontierCost(parent, height, wt, 2 * m - 2, i + 1, i + 1) + wt[i]
  {
    var (a, b) := kids[i];
    assert HasKids(parent, kids, i);
    forall j: nat | j < i ensures parent[j] == i <==> j == a || j == b {
      assert HasParent(parent, kids, m, j);
    }
    assert i < 2 * m - 2 ==> HasParent(parent, kids, m, i);
    CostSplit(parent, height, wt, 2 * m - 2, i, i, a, b);
    assert height[a] == height[i] + 1 && height[b] == height[i] + 1;
    OneDeeper(wt[a], wt[b], height[i]);
  }

  lemma OneDeeper(f: nat, g: nat, h: nat)
    ensures f * (h + 1) + g * (h + 1) == (f + g) * h + (f + g)
  {
  }

  lemma {:induction false} CostIsInnerSum(parent: seq<nat>, kids: seq<(nat, nat)>, m: nat, height: seq<nat>,
                                          sub: seq<nat>, wt: seq<nat>, i: nat)
    requires IsTree(parent, kids, m) && AreHeights(parent, height, 2 * m - 2) && m <= i <= 2 * m - 1
    requires AreMeasured(kids, sub, wt, m)
    ensures FrontierCost(parent, height, wt, 2 * m - 2, i, i) + InnerSum(wt, m, i) == InnerSum(wt, m, 2 * m - 1)
    decreases 2 * m - 1 - i
  {
    if i < 2 * m - 1 {
      CostIsInnerSum(parent, kids, m, height, sub, wt, i + 1);
      CostStep(parent, kids, m, height, sub, wt, i);
    } else {
      forall j: nat | j < 2 * m - 2 ensures parent[j] <= 2 * m - 2 {
        assert HasParent(parent, kids, m, j);
      }
      NoCostAbove(parent, height, wt, 2 * m - 2, 2 * m - 2);
    }
  }

  lemma {:induction false} NoCostAbove(parent: seq<nat>, height: seq<nat>, wt: seq<nat>, root: nat, k: nat)
    requires k <= root && k <= |parent| && k <= |height| && k <= |wt| && forall j | 0 <= j < k :: parent[j] <= root
    ensures FrontierCost(parent, height, wt, root, root + 1, k) == 0
    decreases k
  {
    if k > 0 {
      NoCostAbove(parent, height, wt, root, k - 1);
    }
  }

  /** Weight times depth, over the first leaves. */
  function LeafCost(wt: seq<nat>, height: seq<nat>, k: nat): nat
    requires k <= |wt| && k <= |height|
  {
    if k == 0 then 0 else LeafCost(wt, height, k - 1) + wt[k - 1] * height[k - 1]
  }

  lemma {:induction false} LeafCostIsFrontier(parent: seq<nat>, height: seq<nat>, wt: seq<nat>, root: nat, m: nat,
                                              k: nat)
    requires k <= m <= root && k <= |parent| && k <= |height| && k <= |wt| && forall j | 0 <= j < k :: parent[j] >= m
    ensures FrontierCost(parent, height, wt, root, m, k) == LeafCost(wt, height, k)
    decreases k
  {
    if k > 0 {
      LeafCostIsFrontier(parent, height, wt, root, m, k - 1);
    }
  }

  /** The leaves of the tree cost what the merges add up to. */
  lemma CostOfTree(parent: seq<nat>, kids: seq<(nat, nat)>, m: nat, height: seq<nat>, sub: seq<nat>, wt: seq<nat>)
    requires IsTree(parent, kids, m) && AreHeights(parent, height, 2 * m - 2) && AreMeasured(kids, sub, wt, m)
    ensures LeafCost(wt, height, m) == InnerSum(wt, m, 2 * m - 1)
  {
    CostIsInnerSum(parent, kids, m, height, sub, wt, m);
    forall j: nat | j < m ensures parent[j] >= m {
      assert HasParent(parent, kids, m, j);
    }
    LeafCostIsFrontier(parent, height, wt, 2 * m - 2, m, m);
  }

  /** Some node is as deep below `i` as the tree at `i` is high. */
  lemma {:induction false} Deepest(parent: seq<nat>, kids: seq<(nat, nat)>, m: nat, height: seq<nat>, sub: seq<nat>,
                                   wt: seq<nat>, i: nat) returns (j: nat)
    requires IsTree(parent, kids, m) && AreHeights(parent, height, 2 * m - 2) && AreMeasured(kids, sub, wt, m)
    requires i < 2 * m - 1
    ensures j <= i && height[j] == height[i] + sub[i]
    decreases i
  {
    j := i;
    if i >= m {
      assert HasKids(parent, kids, i);
      var (a, b) := kids[i];
      j := Deepest(parent, kids, m, height, sub, wt, if sub[a] < sub[b] then b else a);
    }
  }

  /** A tree with few leaves is not high. */
  lemma {:induction false} HeightAtMost(kids: seq<(nat, nat)>, sub: seq<nat>, wt: seq<nat>, m: nat, i: nat)
    requires AreMeasured(kids, sub, wt, m) && i < |sub|
    ensures sub[i] <= if i < m then 0 else i - m + 1
    decreases i
  {
    if i >= m {
      HeightAtMost(kids, sub, wt, m, kids[i].0);
      HeightAtMost(kids, sub, wt, m, kids[i].1);
    }
  }

  /** Merges the two smallest roots until one is left. */
  method MergeAll(parent0: seq<nat>, q0: seq<QElem>, numNodes0: nat, ghost kids0: seq<(nat, nat)>, ghost sub0: seq<nat>,
                  ghost ones: bool, ghost wt0: seq<nat>)
    returns (parent: seq<nat>, numNodes: nat, ghost kids: seq<(nat, nat)>, ghost sub: seq<nat>, ghost wt: seq<nat>)
    requires 2 <= numNodes0 <= MAX_SYMBOLS && IsState(parent0, kids0, sub0, numNodes0, numNodes0, q0, ones)
    requires IsRun(q0, wt0, numNodes0, kids0, sub0, wt0, q0, numNodes0)
    ensures numNodes == 2 * numNodes0 - 1 == |sub| && IsTree(parent, kids, numNodes0) &&
            AreSubtrees(kids, sub, numNodes0)
    ensures ones ==> sub[numNodes - 1] <= CeilLog2(numNodes0)
    ensures |wt| == numNodes && wt[..numNodes0] == wt0 && AreMeasured(kids, sub, wt, numNodes0)
    ensures InnerSum(wt, numNodes0, numNodes) == MergeCost(q0, numNodes0)
    ensures sub[numNodes - 1] == MergeHeight(q0, numNodes0, Copies<nat>(0, numNodes0))
  {
    var q := q0;
    parent, numNodes, kids, sub, wt := parent0, numNodes0, kids0, sub0, wt0;
    ghost var m := numNodes0;
    hide IsState, Merged, Above, CeilLog2, IsTree, AreSubtrees, SetParents, IsRun, AreMeasured;
    QueueLength(parent, kids, sub, m, numNodes, q, ones);
    while |q| > 1
      invariant IsState(parent, kids, sub, m, numNodes, q, ones) && |q| + numNodes == 2 * m && |q| >= 1
      invariant IsRun(q0, wt0, m, kids, sub, wt, q, numNodes)
      decreases |q|
    {
      StateIsQueue(parent, kids, sub, m, numNodes, q, ones);
      RunStep(q0, wt0, m, kids, sub, wt, q, numNodes);
      wt := wt + [q[0].freq + q[1].freq];
      parent, q, kids, sub := MergeTwo(parent, q, numNodes, m, kids, sub, ones);
      numNodes := numNodes + 1;
    }
    FinalState(parent, kids, sub, m, q, ones);
    LastIsRoot(parent, kids, sub, m, q, ones);
    RunEnds(q0, wt0, m, kids, sub, wt, q);
  }

  lemma StateIsQueue(parent: seq<nat>, kids: seq<(nat, nat)>, sub: seq<nat>, m: nat, n: nat, q: seq<QElem>, ones: bool)
    requires IsState(parent, kids, sub, m, n, q, ones)
    ensures IsQueue(q)
  {
  }

  lemma LastIsRoot(parent: seq<nat>, kids: seq<(nat, nat)>, sub: seq<nat>, m: nat, q: seq<QElem>, ones: bool)
    requires 2 <= m <= MAX_SYMBOLS && IsState(parent, kids, sub, m, 2 * m - 1, q, ones)
    ensures |q| == 1 && q[0].node == 2 * m - 2
  {
    RootIsQueued(parent, kids, m, q);
  }

  method MergeTwo(parent0: seq<nat>, q0: seq<QElem>, next: nat, ghost m: nat, ghost kids0: seq<(nat, nat)>,
                  ghost sub0: seq<nat>, ghost ones: bool)
    returns (parent: seq<nat>, q: seq<QElem>, ghost kids: seq<(nat, nat)>, ghost sub: seq<nat>)
    requires IsState(parent0, kids0, sub0, m, next, q0, ones) && |q0| >= 2 && m <= MAX_SYMBOLS
    ensures IsState(parent, kids, sub, m, next + 1, q, ones) && |q| + next + 1 == 2 * m
    ensures q0[0].node < |sub0| && q0[1].node < |sub0| && q == Merged(q0, next)
    ensures kids == kids0 + [(q0[0].node, q0[1].node)] && sub == sub0 + [Above(sub0[q0[0].node], sub0[q0[1].node])]
  {
    MergeKeepsState(parent0, kids0, sub0, m, next, q0, ones);
    hide IsState, Merged, Above, SetParents;
    var n1, n2 := q0[0], q0[1];
    parent := SetParents(parent0, n1.node, n2.node, next);
    q := Merged(q0, next);
    kids, sub := kids0 + [(n1.node, n2.node)], sub0 + [Above(sub0[n1.node], sub0[n2.node])];
    QueueLength(parent, kids, sub, m, next + 1, q, ones);
  }

  lemma FinalState(parent: seq<nat>, kids: seq<(nat, nat)>, sub: seq<nat>, m: nat, q: seq<QElem>, ones: bool)
    requires 2 <= m <= MAX_SYMBOLS && IsState(parent, kids, sub, m, 2 * m - 1, q, ones)
    ensures |sub| == 2 * m - 1 && IsTree(parent, kids, m) && AreSubtrees(kids, sub, m)
    ensures ones ==> sub[2 * m - 2] <= CeilLog2(m)
  {
    OneRootIsTree(parent, kids, m, q);
    RootIsQueued(parent, kids, m, q);
    hide IsForest, CeilLog2, IsTree;
    if ones {
      assert q[..0] == [] && QueueSum(q) == QueueSum(q[..0]) + q[0].freq;
    }
  }

  lemma QueueLength(parent: seq<nat>, kids: seq<(nat, nat)>, sub: seq<nat>, m: nat, n: nat, q: seq<QElem>, ones: bool)
    requires IsState(parent, kids, sub, m, n, q, ones)
    ensures |q| + n == 2 * m && |parent| == MAX_NODES && |sub| == n
  {
  }

  // ----- heights and lengths -----

  /** The depth of a node and the height of its subtree fit the height of the tree. */
  ghost predicate DepthsFit(height: seq<nat>, sub: seq<nat>, root: nat, from: nat)
    requires root < |sub| && root < |height|
  {
    forall i: nat | from <= i <= root :: height[i] + sub[i] <= sub[root]
  }

  ghost predicate HeightsFrom(parent: seq<nat>, height: seq<nat>, root: nat, from: nat) {
    && |parent| == |height| == MAX_NODES && root < MAX_NODES && height[root] == 0
    && forall i: nat | from <= i < root :: parent[i] < MAX_NODES && height[i] == height[parent[i]] + 1
  }

  lemma HeightNext(parent: seq<nat>, kids: seq<(nat, nat)>, sub: seq<nat>, m: nat, height: seq<nat>, i: nat)
    requires IsTree(parent, kids, m) && AreSubtrees(kids, sub, m) && i < 2 * m - 2
    requires HeightsFrom(parent, height, 2 * m - 2, i + 1) && DepthsFit(height, sub, 2 * m - 2, i + 1)
    ensures i < |height| && parent[i] < |height|
    ensures HeightsFrom(parent, Updated(height, i, height[parent[i]] + 1), 2 * m - 2, i)
    ensures DepthsFit(Updated(height, i, height[parent[i]] + 1), sub, 2 * m - 2, i)
  {
    assert HasParent(parent, kids, m, i);
    var p := parent[i];
    assert sub[p] > sub[i] by {
      assert kids[p].0 == i || kids[p].1 == i;
    }
    forall j: nat | i < j < 2 * m - 2 ensures parent[j] > j {
      assert HasParent(parent, kids, m, j);
    }
  }

  /** Depths from the root down; `isOk` if none is beyond the limit. */
  method ComputeHeights(parent: seq<nat>, height0: seq<nat>, numNodes: nat, limit: nat, ghost kids: seq<(nat, nat)>,
                        ghost sub: seq<nat>, ghost m: nat)
    returns (height: seq<nat>, isOk: bool)
    requires IsTree(parent, kids, m) && AreSubtrees(kids, sub, m) && numNodes == 2 * m - 1
    requires |height0| == MAX_NODES && height0[numNodes - 1] == 0
    ensures AreHeights(parent, height, 2 * m - 2)
    ensures isOk <==> forall i | 0 <= i < 2 * m - 2 :: height[i] <= limit
    ensures sub[2 * m - 2] <= limit ==> isOk
  {
    height, isOk := height0, true;
    for i := numNodes - 1 downto 0
      invariant HeightsFrom(parent, height, numNodes - 1, i) && DepthsFit(height, sub, numNodes - 1, i)
      invariant isOk <==> forall k | i <= k < numNodes - 1 :: height[k] <= limit
    {
      HeightNext(parent, kids, sub, m, height, i);
      hide IsTree, AreSubtrees, HeightsFrom, DepthsFit;
      height := Updated(height, i, height[parent[i]] + 1);
      isOk := isOk && height[i] <= limit;
    }
  }

  /** The sum of 2^(limit - length) over the symbols that occur. */
  function KraftSum(freqs: seq<nat>, nbits: seq<nat>, limit: nat, k: nat): nat
    requires k <= |freqs| && k <= |nbits|
  {
    if k == 0 then 0
    else KraftSum(freqs, nbits, limit, k - 1) + if freqs[k - 1] > 0 then Share(limit, nbits[k - 1]) else 0
  }

  /** The lengths of the first `k` symbols that occur are the depths of their leaves. */
  ghost predicate LeavesMatch(freqs: seq<nat>, height: seq<nat>, nbits: seq<nat>, k: nat) {
    && k <= |freqs| == |nbits| && Used(freqs, k) <= |height|
    && forall i: nat | i < k && freqs[i] > 0 :: Used(freqs, i) < |height| && nbits[i] == height[Used(freqs, i)]
  }

  /** Symbols that do not occur, and those after the first `k`, keep what was there. */
  ghost predicate OthersKept(freqs: seq<nat>, nbits0: seq<nat>, nbits: seq<nat>, k: nat) {
    |freqs| == |nbits| == |nbits0| && forall i: nat | i < |freqs| && (i >= k || freqs[i] == 0) :: nbits[i] == nbits0[i]
  }

  lemma {:induction false} UsedMonotone(freqs: seq<nat>, i: nat, k: nat)
    requires i <= k <= |freqs|
    ensures Used(freqs, i) <= Used(freqs, k)
    ensures i < k && freqs[i] > 0 ==> Used(freqs, i) < Used(freqs, k)
    decreases k
  {
    if i < k {
      UsedMonotone(freqs, i, k - 1);
    }
  }

  lemma LengthsFit(freqs: seq<nat>, height: seq<nat>, nbits: seq<nat>, limit: nat, k: nat)
    requires LeavesMatch(freqs, height, nbits, k) && forall j | 0 <= j < Used(freqs, k) :: height[j] <= limit
    ensures forall i | 0 <= i < k :: freqs[i] > 0 ==> nbits[i] <= limit
  {
    forall i: nat | i < k && freqs[i] > 0 ensures nbits[i] <= limit {
      UsedMonotone(freqs, i, k);
    }
  }

  /** The symbols share out what the leaves do. */
  lemma {:induction false} KraftOfLeaves(freqs: seq<nat>, height: seq<nat>, nbits: seq<nat>, limit: nat, k: nat)
    requires k <= |freqs| == |nbits| && LeavesMatch(freqs, height, nbits, k) && Used(freqs, k) <= |height|
    ensures KraftSum(freqs, nbits, limit, k) == LeafSum(height, limit, Used(freqs, k))
    decreases k
  {
    hide LeavesMatch, Used, Share;
    if k == 0 {
      NothingUsed(freqs);
    } else {
      LeavesPrefix(freqs, height, nbits, k - 1);
      KraftOfLeaves(freqs, height, nbits, limit, k - 1);
    }
  }

  lemma NothingUsed(freqs: seq<nat>)
    ensures Used(freqs, 0) == 0
  {
  }

  lemma LeavesPrefix(freqs: seq<nat>, height: seq<nat>, nbits: seq<nat>, k: nat)
    requires k < |freqs| && LeavesMatch(freqs, height, nbits, k + 1)
    ensures LeavesMatch(freqs, height, nbits, k) && Used(freqs, k) <= |height|
    ensures Used(freqs, k + 1) == if freqs[k] > 0 then Used(freqs, k) + 1 else Used(freqs, k)
    ensures freqs[k] > 0 ==> Used(freqs, k) < |height| && nbits[k] == height[Used(freqs, k)]
  {
    UsedMonotone(freqs, k, k + 1);
  }

  lemma AssignNext(freqs: seq<nat>, height: seq<nat>, nbits0: seq<nat>, nbits: seq<nat>, i: nat)
    requires i < |freqs| && LeavesMatch(freqs, height, nbits, i) && OthersKept(freqs, nbits0, nbits, i)
    requires Used(freqs, i + 1) <= |height|
    ensures Used(freqs, i + 1) == if freqs[i] > 0 then Used(freqs, i) + 1 else Used(freqs, i)
    ensures var nbits' := if freqs[i] > 0 then Updated(nbits, i, height[Used(freqs, i)]) else nbits;
            LeavesMatch(freqs, height, nbits', i + 1) && OthersKept(freqs, nbits0, nbits', i + 1)
  {
  }

  /** Hands the depths out to the symbols that occur. */
  method AssignLengths(freqs: seq<nat>, height: seq<nat>, nbits0: seq<nat>) returns (nbits: seq<nat>)
    requires |freqs| == |nbits0| && Used(freqs, |freqs|) <= |height|
    ensures LeavesMatch(freqs, height, nbits, |freqs|) && OthersKept(freqs, nbits0, nbits, |freqs|)
  {
    nbits := nbits0;
    var numNodes := 0;
    for i := 0 to |freqs|
      invariant numNodes == Used(freqs, i) <= |height|
      invariant LeavesMatch(freqs, height, nbits, i) && OthersKept(freqs, nbits0, nbits, i)
    {
      UsedMonotone(freqs, i, |freqs|);
      UsedMonotone(freqs, i + 1, |freqs|);
      AssignNext(freqs, height, nbits0, nbits, i);
      hide LeavesMatch, OthersKept, Used;
      if freqs[i] != 0 {
        nbits := Updated(nbits, i, height[numNodes]);
        numNodes := numNodes + 1;
      }
    }
  }

  // ----- halving -----

  function Total(freqs: seq<nat>): nat {
    if freqs == [] then 0 else Total(freqs[..|freqs| - 1]) + freqs[|freqs| - 1]
  }

  function Half(f: nat): nat {
    (f + 1) / 2
  }

  function Halved(freqs: seq<nat>): (h: seq<nat>)
    ensures |h| == |freqs| && forall i | 0 <= i < |h| :: h[i] == Half(freqs[i])
  {
    seq(|freqs|, i requires 0 <= i < |freqs| => Half(freqs[i]))
  }

  /** ... and gets smaller until only ones are left. */
  lemma {:induction false} HalvedTotal(freqs: seq<nat>)
    ensures Total(Halved(freqs)) <= Total(freqs)
    ensures !AtMostOne(freqs) ==> Total(Halved(freqs)) < Total(freqs)
  {
    if freqs != [] {
      var n := |freqs| - 1;
      HalvedTotal(freqs[..n]);
      assert Halved(freqs)[..n] == Halved(freqs[..n]);
      if AtMostOne(freqs[..n]) && freqs[n] <= 1 {
        assert forall i | 0 <= i < n :: freqs[i] == freqs[..n][i];
      }
    }
  }

  method Halve(freqs0: seq<nat>) returns (freqs: seq<nat>)
    ensures freqs == Halved(freqs0)
  {
    freqs := freqs0;
    for i := 0 to |freqs|
      invariant |freqs| == |freqs0|
      invariant forall k | 0 <= k < |freqs| :: freqs[k] == if k < i then Half(freqs0[k]) else freqs0[k]
    {
      freqs := Updated(freqs, i, Half(freqs[i]));
    }
  }

  /** The symbols of two frequency vectors that occur are the same. */
  ghost predicate SameSymbols(a: seq<nat>, b: seq<nat>) {
    |a| == |b| && forall i | 0 <= i < |a| :: a[i] > 0 <==> b[i] > 0
  }

  lemma {:induction false} SameUsed(a: seq<nat>, b: seq<nat>, k: nat)
    requires SameSymbols(a, b) && k <= |a|
    ensures Used(a, k) == Used(b, k)
    decreases k
  {
    if k > 0 {
      SameUsed(a, b, k - 1);
    }
  }

  /** What the lengths are for: every symbol that occurs has one within the limit, and they share out
      all words exactly. */
  ghost predicate IsComplete(freqs: seq<nat>, nbits: seq<nat>, limit: nat) {
    && |freqs| == |nbits| && (forall i | 0 <= i < |freqs| :: freqs[i] > 0 ==> 1 <= nbits[i] <= limit)
    && KraftSum(freqs, nbits, limit, |freqs|) == Pow2(limit)
  }

  lemma {:induction false} KraftOfSame(a: seq<nat>, b: seq<nat>, nbits: seq<nat>, limit: nat, k: nat)
    requires SameSymbols(a, b) && k <= |a| && k <= |nbits|
    ensures KraftSum(a, nbits, limit, k) == KraftSum(b, nbits, limit, k)
    decreases k
  {
    if k > 0 {
      KraftOfSame(a, b, nbits, limit, k - 1);
    }
  }

  lemma Completed(freqs: seq<nat>, parent: seq<nat>, kids: seq<(nat, nat)>, m: nat, height: seq<nat>, nbits: seq<nat>,
                  limit: nat)
    requires m == Used(freqs, |freqs|) && IsTree(parent, kids, m) && AreHeights(parent, height, 2 * m - 2)
    requires (forall i | 0 <= i < 2 * m - 2 :: height[i] <= limit) && LeavesMatch(freqs, height, nbits, |freqs|)
    ensures IsComplete(freqs, nbits, limit)
  {
    KraftOfTree(parent, kids, m, height, limit);
    KraftOfLeaves(freqs, height, nbits, limit, |freqs|);
    LengthsFit(freqs, height, nbits, limit, |freqs|);
    hide IsTree, AreHeights, KraftSum, LeafSum, Pow2;
    forall i: nat | i < |freqs| && freqs[i] > 0 ensures nbits[i] >= 1 {
      UsedMonotone(freqs, i, |freqs|);
    }
  }

  // ----- the shortest lengths -----

  /** The bits for all occurrences of the first `k` symbols. */
  function SymbolCost(freqs: seq<nat>, nbits: seq<nat>, k: nat): nat
    requires k <= |freqs| && k <= |nbits|
  {
    if k == 0 then 0 else SymbolCost(freqs, nbits, k - 1) + freqs[k - 1] * nbits[k - 1]
  }

  /** Lengths of some prefix code for the symbols that occur. */
  ghost predicate IsCode(freqs: seq<nat>, nbits: seq<nat>, limit: nat) {
    && |freqs| == |nbits| && (forall i | 0 <= i < |freqs| && freqs[i] > 0 :: nbits[i] <= limit)
    && KraftSum(freqs, nbits, limit, |freqs|) <= Pow2(limit)
  }

  /** No prefix code, whatever the longest word in it, takes fewer bits for these frequencies. */
  ghost predicate IsShortest(freqs: seq<nat>, nbits: seq<nat>) {
    |freqs| == |nbits| && forall other: seq<nat>, limit: nat | IsCode(freqs, other, limit) ::
      SymbolCost(freqs, nbits, |freqs|) <= SymbolCost(freqs, other, |freqs|)
  }

  /** What the run on these frequencies costs, and how deep its tree is. */
  function HuffmanCostOf(freqs: seq<nat>): nat {
    MergeCost(QueueOf(freqs, |freqs|), Used(freqs, |freqs|))
  }

  function HuffmanHeight(freqs: seq<nat>): nat {
    MergeHeight(QueueOf(freqs, |freqs|), Used(freqs, |freqs|), Copies<nat>(0, Used(freqs, |freqs|)))
  }

  /** Other lengths, in the order of the queue. */
  function QueuedLens(freqs: seq<nat>, lens: seq<nat>, k: nat): (r: seq<nat>)
    requires k <= |freqs| == |lens|
  {
    if k == 0 then []
    else
      var before := QueuedLens(freqs, lens, k - 1);
      var p := Position(QueueOf(freqs, k - 1), QElem(freqs[k - 1], Used(freqs, k - 1)));
      if freqs[k - 1] == 0 || p > |before| then before else before[..p] + [lens[k - 1]] + before[p..]
  }

  lemma {:induction false} QueuedSums(freqs: seq<nat>, lens: seq<nat>, limit: nat, k: nat)
    requires k <= |freqs| == |lens| && forall i | 0 <= i < |freqs| && freqs[i] > 0 :: lens[i] <= limit
    ensures var q, r := QueueOf(freqs, k), QueuedLens(freqs, lens, k);
            |q| == |r| && AreWithin(r, limit) && Weighted(q, r) == SymbolCost(freqs, lens, k) &&
            KraftOf(r, limit) == KraftSum(freqs, lens, limit, k)
    decreases k
  {
    hide Weighted, KraftOf, Share, Position, Used, Emplace, AreWithin;
    if k == 0 {
      NoSums(limit);
    } else {
      QueuedSums(freqs, lens, limit, k - 1);
      if freqs[k - 1] > 0 {
        QueuedNext(QueueOf(freqs, k - 1), QueuedLens(freqs, lens, k - 1),
                   QElem(freqs[k - 1], Used(freqs, k - 1)), lens[k - 1], limit);
      } else {
        assert freqs[k - 1] * lens[k - 1] == 0;
      }
    }
  }

  lemma QueuedNext(q: seq<QElem>, r: seq<nat>, e: QElem, l: nat, limit: nat)
    requires |q| == |r| && AreWithin(r, limit) && l <= limit
    ensures var p := Position(q, e);
            var r' := r[..p] + [l] + r[p..];
            |Emplace(q, e)| == |r'| && AreWithin(r', limit) &&
            Weighted(Emplace(q, e), r') == Weighted(q, r) + e.freq * l &&
            KraftOf(r', limit) == KraftOf(r, limit) + Share(limit, l)
  {
    hide Weighted, KraftOf, Share, Position;
    var p := Position(q, e);
    SplitParts(q, r, p, limit);
    InsertSums(q, r, p, e, l, limit);
  }

  lemma NoSums(limit: nat)
    ensures Weighted([], []) == 0 && KraftOf([], limit) == 0 && AreWithin([], limit)
  {
  }

  /** No prefix code is cheaper than the run. */
  lemma RunIsCheapest(freqs: seq<nat>, other: seq<nat>, limit: nat)
    requires IsCode(freqs, other, limit)
    ensures HuffmanCostOf(freqs) <= SymbolCost(freqs, other, |freqs|)
  {
    hide IsQueue, Weighted, KraftOf, MergeCost, QueueOf, QueuedLens;
    var n := |freqs|;
    QueueIsOfLeaves(freqs, n);
    QueuedSums(freqs, other, limit, n);
    LowerBound(QueueOf(freqs, n), Used(freqs, n), QueuedLens(freqs, other, n), limit);
  }

  lemma LeafWeightsNext(freqs: seq<nat>, wt: seq<nat>, k: nat)
    requires 0 < k <= |freqs| && Used(freqs, k) <= |wt| && wt[..Used(freqs, k)] == LeafWeights(freqs, k)
    ensures Used(freqs, k - 1) <= |wt| && wt[..Used(freqs, k - 1)] == LeafWeights(freqs, k - 1)
    ensures freqs[k - 1] > 0 ==> Used(freqs, k) == Used(freqs, k - 1) + 1 && wt[Used(freqs, k - 1)] == freqs[k - 1]
    ensures freqs[k - 1] == 0 ==> Used(freqs, k) == Used(freqs, k - 1)
  {
    var u := Used(freqs, k - 1);
    assert u <= Used(freqs, k) && wt[..u] == wt[..Used(freqs, k)][..u];
    hide LeafWeights;
    assert LeafWeights(freqs, k) == if freqs[k - 1] == 0 then LeafWeights(freqs, k - 1)
                                    else LeafWeights(freqs, k - 1) + [freqs[k - 1]] by {
      LeafWeightsAre(freqs, k);
    }
    if freqs[k - 1] > 0 {
      assert wt[u] == wt[..u + 1][u];
    }
  }

  lemma LeafWeightsAre(freqs: seq<nat>, k: nat)
    requires 0 < k <= |freqs|
    ensures LeafWeights(freqs, k) == if freqs[k - 1] == 0 then LeafWeights(freqs, k - 1)
                                     else LeafWeights(freqs, k - 1) + [freqs[k - 1]]
  {
  }

  /** The symbols cost what their leaves do. */
  lemma {:induction false} CostOfLeaves(freqs: seq<nat>, height: seq<nat>, nbits: seq<nat>, wt: seq<nat>, k: nat)
    requires k <= |freqs| == |nbits| && LeavesMatch(freqs, height, nbits, k) && Used(freqs, k) <= |height|
    requires Used(freqs, k) <= |wt| && wt[..Used(freqs, k)] == LeafWeights(freqs, k)
    ensures SymbolCost(freqs, nbits, k) == LeafCost(wt, height, Used(freqs, k))
    decreases k
  {
    hide LeavesMatch, Used, LeafWeights;
    if k == 0 {
      NothingUsed(freqs);
    } else {
      LeavesPrefix(freqs, height, nbits, k - 1);
      LeafWeightsNext(freqs, wt, k);
      CostOfLeaves(freqs, height, nbits, wt, k - 1);
      if freqs[k - 1] == 0 {
        assert freqs[k - 1] * nbits[k - 1] == 0;
      }
    }
  }

  /** The depths of the leaves are the shortest lengths. */
  lemma ShortestFound(freqs: seq<nat>, parent: seq<nat>, kids: seq<(nat, nat)>, m: nat, height: seq<nat>,
                      sub: seq<nat>, wt: seq<nat>, nbits: seq<nat>)
    requires m == Used(freqs, |freqs|) && IsTree(parent, kids, m) && AreHeights(parent, height, 2 * m - 2)
    requires AreMeasured(kids, sub, wt, m) && |wt| == 2 * m - 1 && wt[..m] == LeafWeights(freqs, |freqs|)
    requires InnerSum(wt, m, 2 * m - 1) == HuffmanCostOf(freqs) && LeavesMatch(freqs, height, nbits, |freqs|)
    ensures IsShortest(freqs, nbits)
  {
    CostOfTree(parent, kids, m, height, sub, wt);
    hide IsTree, AreHeights, AreMeasured, InnerSum, LeafCost, SymbolCost, HuffmanCostOf, IsCode;
    CostOfLeaves(freqs, height, nbits, wt, |freqs|);
    forall other: seq<nat>, limit: nat | IsCode(freqs, other, limit)
      ensures SymbolCost(freqs, nbits, |freqs|) <= SymbolCost(freqs, other, |freqs|)
    {
      RunIsCheapest(freqs, other, limit);
    }
  }

  // ----- how often the frequencies are halved -----

  function HalvedTimes(freqs: seq<nat>, times: nat): (h: seq<nat>)
    ensures |h| == |freqs|
  {
    if times == 0 then freqs else Halved(HalvedTimes(freqs, times - 1))
  }

  /** The tree fits the limit after `times` halvings, and not after fewer. */
  ghost predicate IsFirstFit(freqs: seq<nat>, limit: nat, times: nat) {
    HuffmanHeight(HalvedTimes(freqs, times)) <= limit &&
    forall t | 0 <= t < times :: HuffmanHeight(HalvedTimes(freqs, t)) > limit
  }

  /** A tree within the limit has no leaf beyond it, and the other way round. */
  lemma FitsIff(parent: seq<nat>, kids: seq<(nat, nat)>, m: nat, height: seq<nat>, sub: seq<nat>, wt: seq<nat>,
                limit: nat)
    requires IsTree(parent, kids, m) && AreHeights(parent, height, 2 * m - 2) && AreMeasured(kids, sub, wt, m)
    requires forall i | 0 <= i < 2 * m - 2 :: height[i] <= limit
    ensures sub[2 * m - 2] <= limit
  {
    var j := Deepest(parent, kids, m, height, sub, wt, 2 * m - 2);
    if j == 2 * m - 2 {
      assert HasKids(parent, kids, j);
    }
  }

  lemma FewSymbolsFit(freqs: seq<nat>, kids: seq<(nat, nat)>, sub: seq<nat>, wt: seq<nat>, m: nat)
    requires m >= 1 && AreMeasured(kids, sub, wt, m) && |sub| == 2 * m - 1
    ensures sub[2 * m - 2] <= m - 1
  {
    HeightAtMost(kids, sub, wt, m, 2 * m - 2);
  }

  lemma CompleteForSame(freqs: seq<nat>, freqs0: seq<nat>, nbits0: seq<nat>, nbits: seq<nat>, limit: nat)
    requires SameSymbols(freqs, freqs0) && IsComplete(freqs, nbits, limit) && OthersKept(freqs, nbits0, nbits, |freqs|)
    ensures IsComplete(freqs0, nbits, limit) && OthersKept(freqs0, nbits0, nbits, |freqs0|)
  {
    KraftOfSame(freqs, freqs0, nbits, limit, |freqs|);
    hide KraftSum;
  }

  lemma HalvedSymbols(freqs: seq<nat>, freqs0: seq<nat>)
    requires SameSymbols(freqs, freqs0)
    ensures SameSymbols(Halved(freqs), freqs0)
  {
  }

  lemma NotHalved(freqs: seq<nat>)
    ensures HalvedTimes(freqs, 0) == freqs && SameSymbols(freqs, freqs)
  {
  }

  lemma HalvedOnce(freqs: seq<nat>, times: nat)
    ensures HalvedTimes(freqs, times + 1) == Halved(HalvedTimes(freqs, times))
  {
  }

  /** One try with a full queue: the lengths are set if the tree fits. */
  method TryTree(freqs: seq<nat>, limit: nat, q: seq<QElem>, parent0: seq<nat>, height0: seq<nat>, nbits0: seq<nat>,
                 m: nat, ghost kids0: seq<(nat, nat)>, ghost sub0: seq<nat>)
    returns (parent: seq<nat>, height: seq<nat>, nbits: seq<nat>, isOk: bool)
    requires |freqs| == |nbits0| <= MAX_SYMBOLS && |freqs| <= Pow2(limit) && m == Used(freqs, |freqs|) >= 2
    requires |parent0| == |height0| == MAX_NODES && height0[2 * m - 2] == 0
    requires IsState(parent0, kids0, sub0, m, m, q, AtMostOne(freqs)) && q == QueueOf(freqs, |freqs|)
    requires sub0 == Copies<nat>(0, m) && |kids0| == m
    ensures |parent| == |height| == MAX_NODES && height[2 * m - 2] == 0
    ensures isOk <==> HuffmanHeight(freqs) <= limit
    ensures AtMostOne(freqs) || m <= limit + 1 ==> isOk
    ensures isOk ==> IsComplete(freqs, nbits, limit) && OthersKept(freqs, nbits0, nbits, |freqs|)
                     && IsShortest(freqs, nbits)
    ensures !isOk ==> nbits == nbits0
  {
    hide IsState, IsRun, IsTree, AreSubtrees, AreMeasured, LeavesMatch, OthersKept, IsComplete, IsShortest, Used,
         QueueOf, LeafWeights, MergeCost, MergeHeight, InnerSum, KraftSum, AtMostOne, IsQueue, CeilLog2;
    ghost var n, wt := |freqs|, LeafWeights(freqs, |freqs|);
    QueueIsOfLeaves(freqs, n);
    RunStarts(q, wt, m, kids0, sub0);
    var numNodes;
    ghost var kids, sub;
    parent, numNodes, kids, sub, wt := MergeAll(parent0, q, m, kids0, sub0, AtMostOne(freqs), wt);
    height, isOk := ComputeHeights(parent, height0, numNodes, limit, kids, sub, m);
    FewSymbolsFit(freqs, kids, sub, wt, m);
    CeilLog2AtMost(m, limit);
    HeightsAre(parent, height, m);
    nbits := nbits0;
    if isOk {
      nbits := AssignLengths(freqs, height, nbits0);
      Completed(freqs, parent, kids, m, height, nbits, limit);
      ShortestFound(freqs, parent, kids, m, height, sub, wt, nbits);
      FitsIff(parent, kids, m, height, sub, wt, limit);
    }
  }

  lemma HeightsAre(parent: seq<nat>, height: seq<nat>, m: nat)
    requires m >= 2 && AreHeights(parent, height, 2 * m - 2)
    ensures |parent| == |height| == MAX_NODES && 2 * m - 2 < MAX_NODES && height[2 * m - 2] == 0
  {
  }

  /** Huffman code lengths, with halved frequencies until they fit the limit. Halving ends at ones at the
      latest, whose tree is balanced and so fits. The lengths are the shortest ones for the frequencies as they
      are then; up to `limit + 1` symbols always fit, and nothing is halved. */
  method ComputeCodeLengths(freqs0: seq<nat>, limit: nat, nbits0: seq<nat>)
    returns (nbits: seq<nat>, ghost halvings: nat)
    requires |freqs0| == |nbits0| <= MAX_SYMBOLS && |freqs0| <= Pow2(limit)
    ensures Used(freqs0, |freqs0|) <= 1 ==> nbits == nbits0
    ensures Used(freqs0, |freqs0|) >= 2 ==>
              IsComplete(freqs0, nbits, limit) && OthersKept(freqs0, nbits0, nbits, |freqs0|)
    ensures Used(freqs0, |freqs0|) >= 2 ==>
              IsShortest(HalvedTimes(freqs0, halvings), nbits) && IsFirstFit(freqs0, limit, halvings)
    ensures Used(freqs0, |freqs0|) <= limit + 1 ==> halvings == 0
  {
    hide IsState, OthersKept, IsComplete, IsShortest, Used, HuffmanHeight, AtMostOne, Total, Halved, SameSymbols,
         HalvedTimes, QueueOf;
    NotHalved(freqs0);
    var n := |freqs0|;
    nbits, halvings := nbits0, 0;
    if n <= 1 {
      return;
    }
    var parent, height := seq(MAX_NODES, _ => 0), seq(MAX_NODES, _ => 0);
    var freqs := freqs0;
    ghost var m := Used(freqs0, n);
    while true
      invariant SameSymbols(freqs, freqs0) && |parent| == |height| == MAX_NODES && nbits == nbits0
      invariant m >= 1 ==> m <= MAX_SYMBOLS && height[2 * m - 2] == 0
      invariant freqs == HalvedTimes(freqs0, halvings)
      invariant forall t | 0 <= t < halvings :: HuffmanHeight(HalvedTimes(freqs0, t)) > limit
      invariant m <= limit + 1 ==> halvings == 0
      decreases Total(freqs)
    {
      SameUsed(freqs, freqs0, n);
      var q, numNodes, kids, sub := FillQueue(freqs, parent);
      if numNodes <= 1 {
        return;
      }
      var isOk;
      parent, height, nbits, isOk := TryTree(freqs, limit, q, parent, height, nbits0, numNodes, kids, sub);
      if isOk {
        CompleteForSame(freqs, freqs0, nbits0, nbits, limit);
        return;
      }
      HalvedTotal(freqs);
      HalvedOnce(freqs0, halvings);
      HalvedSymbols(freqs, freqs0);
      freqs := Halve(freqs);
      halvings := halvings + 1;
    }
  }
}
