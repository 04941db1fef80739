/** The constructor of `PrefixCode` (experimental/fast_lossless/fast_lossless.cc:113-141): two levels of
Huffman codes, the second one below one symbol of the first.
 */
module PrefixCoding {
  import opened Bits
  import opened CanonicalCode
  import opened Alphabets
  import opened Huffman
  import opened ChunkCoding
  import opened Sequences

  const LEVEL1_LIMIT: nat := 7

  // ----- sums of shares -----

  /** What the codewords take of 2^limit; unused symbols take nothing. */
  function ShareSum(lens: seq<nat>, limit: nat): nat {
    if lens == [] then 0
    else ShareSum(lens[..|lens| - 1], limit) + SymbolShare(lens[|lens| - 1], limit)
  }

  lemma {:induction false} ShareSumConcat(a: seq<nat>, b: seq<nat>, limit: nat)
    ensures ShareSum(a + b, limit) == ShareSum(a, limit) + ShareSum(b, limit)
    decreases |b|
  {
    if b == [] {
      assert a + b == a;
    } else {
      ShareSumConcat(a, b[..|b| - 1], limit);
      assert (a + b)[..|a + b| - 1] == a + b[..|b| - 1];
    }
  }

  /** Kraft's sum in both forms. */
  lemma {:induction false} TakenIsShareSum(lens: seq<nat>, limit: nat)
    ensures Taken(lens, limit) == ShareSum(lens, limit)
    decreases |lens|
  {
    hide Share;
    if lens == [] {
      TakenNothing(limit);
    } else {
      var last := |lens| - 1;
      TakenIsShareSum(lens[..last], limit);
      TakenAppend(lens[..last], lens[last], limit);
      assert lens[..last] + [lens[last]] == lens;
    }
  }

  /** With a longer limit every share is scaled. */
  lemma {:induction false} ShareSumScaled(lens: seq<nat>, limit: nat, more: nat)
    requires forall i | 0 <= i < |lens| :: lens[i] <= limit
    ensures ShareSum(lens, limit + more) == Shl(ShareSum(lens, limit), more)
  {
    if lens == [] {
      ShlAdd(0, 0, more);
    } else {
      var last := |lens| - 1;
      ShareSumScaled(lens[..last], limit, more);
      ShlAdd(ShareSum(lens[..last], limit), SymbolShare(lens[last], limit), more);
      if lens[last] > 0 {
        ShlPow2(limit - lens[last], more);
      } else {
        ShlAdd(0, 0, more);
      }
    }
  }

  /** Lengths below a common prefix of `base` bits. */
  function Below(base: nat, nbits: seq<nat>): (r: seq<nat>)
    ensures |r| == |nbits| && forall i | 0 <= i < |r| :: r[i] == if nbits[i] > 0 then base + nbits[i] else 0
  {
    seq(|nbits|, i requires 0 <= i < |nbits| => if nbits[i] > 0 then base + nbits[i] else 0)
  }

  lemma {:induction false} ShareSumBelow(base: nat, nbits: seq<nat>, limit: nat)
    requires base <= limit
    ensures ShareSum(Below(base, nbits), limit) == ShareSum(nbits, limit - base)
  {
    if nbits != [] {
      var last := |nbits| - 1;
      ShareSumBelow(base, nbits[..last], limit);
      assert Below(base, nbits)[..last] == Below(base, nbits[..last]);
    }
  }

  lemma {:induction false} ShareSumNone(lens: seq<nat>, limit: nat)
    requires forall i | 0 <= i < |lens| :: lens[i] == 0
    ensures ShareSum(lens, limit) == 0
  {
    if lens != [] {
      ShareSumNone(lens[..|lens| - 1], limit);
    }
  }

  // ----- the result of one Huffman code -----

  /** Lengths that share out at most everything; unused symbols have none. */
  ghost predicate IsLevel(freqs: seq<nat>, nbits: seq<nat>, limit: nat) {
    && |nbits| == |freqs| && (forall i | 0 <= i < |freqs| :: nbits[i] <= limit && (freqs[i] == 0 ==> nbits[i] == 0))
    && ShareSum(nbits, limit) <= Pow2(limit)
    && (Used(freqs, |freqs|) >= 2 ==>
          ShareSum(nbits, limit) == Pow2(limit) && forall i | 0 <= i < |freqs| :: freqs[i] > 0 ==> nbits[i] > 0)
    && (Used(freqs, |freqs|) <= 1 ==> forall i | 0 <= i < |nbits| :: nbits[i] == 0)
  }

  lemma {:induction false} KraftIsShareSum(freqs: seq<nat>, nbits: seq<nat>, limit: nat, k: nat)
    requires k <= |freqs| == |nbits| && forall i | 0 <= i < |freqs| :: freqs[i] > 0 <==> nbits[i] > 0
    ensures KraftSum(freqs, nbits, limit, k) == ShareSum(nbits[..k], limit)
    decreases k
  {
    hide Share;
    if k > 0 {
      KraftIsShareSum(freqs, nbits, limit, k - 1);
      assert nbits[..k][..k - 1] == nbits[..k - 1];
    }
  }

  lemma LevelDone(freqs: seq<nat>, nbits: seq<nat>, limit: nat)
    requires |freqs| == |nbits|
    requires Used(freqs, |freqs|) <= 1 ==> nbits == Copies<nat>(0, |freqs|)
    requires Used(freqs, |freqs|) >= 2 ==>
               IsComplete(freqs, nbits, limit) && OthersKept(freqs, Copies<nat>(0, |freqs|), nbits, |freqs|)
    ensures IsLevel(freqs, nbits, limit)
  {
    hide Used, Share;
    if Used(freqs, |freqs|) <= 1 {
      ShareSumNone(nbits, limit);
    } else {
      forall i: nat | i < |freqs| ensures freqs[i] > 0 <==> nbits[i] > 0 {
      }
      KraftIsShareSum(freqs, nbits, limit, |freqs|);
      assert nbits[..|freqs|] == nbits;
    }
  }

  /** The shortest lengths for the frequencies, which are halved as often as it takes to fit the limit. */
  ghost predicate AreShortest(freqs: seq<nat>, nbits: seq<nat>, limit: nat) {
    Used(freqs, |freqs|) >= 2 ==>
      exists times: nat :: IsFirstFit(freqs, limit, times) && IsShortest(HalvedTimes(freqs, times), nbits)
  }

  method ComputeLevel(freqs: seq<nat>, limit: nat) returns (nbits: seq<nat>)
    requires |freqs| <= MAX_SYMBOLS && |freqs| <= Pow2(limit)
    ensures IsLevel(freqs, nbits, limit) && AreShortest(freqs, nbits, limit)
  {
    hide IsShortest, IsFirstFit, Used, IsLevel, HalvedTimes;
    ghost var halvings;
    nbits, halvings := ComputeCodeLengths(freqs, limit, Copies<nat>(0, |freqs|));
    LevelDone(freqs, nbits, limit);
  }

  // ----- two levels -----

  /** Raw symbols and, at the end, one symbol for all LZ77 symbols. */
  ghost predicate AreLevels(raw: seq<nat>, base: nat, level2: seq<nat>) {
    && base <= LEVEL1_LIMIT && (forall i | 0 <= i < |raw| :: raw[i] <= LEVEL1_LIMIT)
    && (forall i | 0 <= i < |level2| :: level2[i] <= MAX_BITS - base)
    && ShareSum(raw + [base], LEVEL1_LIMIT) <= Pow2(LEVEL1_LIMIT)
    && ShareSum(level2, MAX_BITS - base) <= Pow2(MAX_BITS - base)
    && (base == 0 ==> (forall i | 0 <= i < |level2| :: level2[i] == 0) || forall i | 0 <= i < |raw| :: raw[i] == 0)
  }

  lemma ShareSumLast(raw: seq<nat>, base: nat, limit: nat)
    ensures ShareSum(raw + [base], limit) == ShareSum(raw, limit) + SymbolShare(base, limit)
  {
    assert (raw + [base])[..|raw|] == raw;
    hide SymbolShare;
  }

  /** Both levels together never take more than there is, and everything if both are complete. */
  lemma LevelsTogether(raw: seq<nat>, base: nat, level2: seq<nat>)
    requires AreLevels(raw, base, level2)
    ensures ShareSum(raw + Below(base, level2), MAX_BITS) <= Pow2(MAX_BITS)
    ensures base > 0 && ShareSum(raw + [base], LEVEL1_LIMIT) == Pow2(LEVEL1_LIMIT)
            && ShareSum(level2, MAX_BITS - base) == Pow2(MAX_BITS - base) ==>
              ShareSum(raw + Below(base, level2), MAX_BITS) == Pow2(MAX_BITS)
  {
    hide ShareSum, Pow2, Shl, Below;
    ShareSumConcat(raw, Below(base, level2), MAX_BITS);
    ShareSumBelow(base, level2, MAX_BITS);
    ShareSumScaled(raw, LEVEL1_LIMIT, MAX_BITS - LEVEL1_LIMIT);
    ShareSumLast(raw, base, LEVEL1_LIMIT);
    ShlPow2(LEVEL1_LIMIT, MAX_BITS - LEVEL1_LIMIT);
    ShlMonotone(ShareSum(raw + [base], LEVEL1_LIMIT), Pow2(LEVEL1_LIMIT), MAX_BITS - LEVEL1_LIMIT);
    if base > 0 {
      ShlAdd(ShareSum(raw, LEVEL1_LIMIT), Pow2(LEVEL1_LIMIT - base), MAX_BITS - LEVEL1_LIMIT);
      ShlPow2(LEVEL1_LIMIT - base, MAX_BITS - LEVEL1_LIMIT);
    } else if forall i | 0 <= i < |level2| :: level2[i] == 0 {
      ShareSumNone(level2, MAX_BITS);
    } else {
      ShareSumNone(raw, MAX_BITS);
    }
  }

  // ----- the constructor -----

  lemma {:induction false} NoneUsed(freqs: seq<nat>, k: nat)
    requires k <= |freqs| && forall i | 0 <= i < k :: freqs[i] == 0
    ensures Used(freqs, k) == 0
    decreases k
  {
    if k > 0 {
      NoneUsed(freqs, k - 1);
    }
  }

  /** What the two calls give, put together. */
  lemma LevelsFit(rawCounts: seq<nat>, n: nat, total: nat, level1: seq<nat>, lz77Counts: seq<nat>, level2: seq<nat>)
    requires |rawCounts| == n && |level1| == n + 1 && IsLevel(rawCounts + [total], level1, LEVEL1_LIMIT)
    requires IsLevel(lz77Counts, level2, MAX_BITS - level1[n])
    requires total == 0 ==> forall i | 0 <= i < |lz77Counts| :: lz77Counts[i] == 0
    ensures AreLevels(level1[..n], level1[n], level2)
  {
    var freqs, base := rawCounts + [total], level1[n];
    assert level1[..n] + [base] == level1;
    hide ShareSum, Used;
    assert freqs[|rawCounts|] == total;
    if base == 0 && Used(freqs, |freqs|) >= 2 {
      NoneUsed(lz77Counts, |lz77Counts|);
    }
  }

  /** With a raw symbol and two LZ77 symbols both levels are complete. */
  lemma LevelsComplete(rawCounts: seq<nat>, n: nat, total: nat, level1: seq<nat>, lz77Counts: seq<nat>,
                       level2: seq<nat>)
    requires |rawCounts| == n && |level1| == n + 1 && IsLevel(rawCounts + [total], level1, LEVEL1_LIMIT)
    requires IsLevel(lz77Counts, level2, MAX_BITS - level1[n])
    requires total > 0 && rawCounts != [] && rawCounts[|rawCounts| - 1] > 0 && Used(lz77Counts, |lz77Counts|) >= 2
    ensures |level2| == |lz77Counts| && level1[n] > 0 && ShareSum(level1, LEVEL1_LIMIT) == Pow2(LEVEL1_LIMIT)
    ensures ShareSum(level2, MAX_BITS - level1[n]) == Pow2(MAX_BITS - level1[n])
    ensures forall i | 0 <= i < |rawCounts| :: rawCounts[i] > 0 ==> level1[i] > 0
    ensures forall i | 0 <= i < |lz77Counts| :: lz77Counts[i] > 0 ==> level2[i] > 0
  {
    var freqs := rawCounts + [total];
    UsedMonotone(freqs, n - 1, n);
    UsedMonotone(freqs, n, n + 1);
    hide ShareSum, Used, Pow2;
    assert freqs[n] == total && forall i | 0 <= i < n :: freqs[i] == rawCounts[i];
  }

  /** The codewords do not depend on unused raw symbols at the end. */
  lemma RawPadded(short: seq<nat>, firstBits: seq<nat>, lz77: seq<nat>)
    requires |short| == |firstBits| <= NUM_RAW && AreCodewords(firstBits, short + lz77, 0)
    ensures var pad := Copies<nat>(0, NUM_RAW - |short|); AreCodewords(firstBits + pad, short + pad + lz77, 0)
  {
    var pad := Copies<nat>(0, NUM_RAW - |short|);
    var raw := short + pad;
    assert raw[..|short|] == short;
    hide Codeword, FromNat, Pow2;
    forall i: nat | i < NUM_RAW
      ensures var b := (firstBits + pad)[i];
              b < Pow2((raw + lz77)[0 + i]) && FromNat(b, (raw + lz77)[0 + i]) == Codeword(raw + lz77, 0 + i)
    {
      if i < |short| {
        assert firstBits[i] < Pow2((short + lz77)[0 + i]);
      }
      if i < |short| && short[i] > 0 {
        WithoutTrailing(raw, |short|, lz77, i);
        assert (short + lz77)[i] == short[i] && (raw + lz77)[i] == short[i];
      } else {
        assert (raw + lz77)[i] == 0;
        EmptyCodeword(raw + lz77, i, (firstBits + pad)[i]);
      }
    }
  }

  lemma Lz77Padded(short: seq<nat>, lz77: seq<nat>, secondBits: seq<nat>)
    requires |short| <= NUM_RAW && |lz77| == |secondBits| && AreCodewords(secondBits, short + lz77, |short|)
    ensures AreCodewords(secondBits, short + Copies<nat>(0, NUM_RAW - |short|) + lz77, NUM_RAW)
  {
    var raw := short + Copies<nat>(0, NUM_RAW - |short|);
    assert raw[..|short|] == short;
    hide Codeword, FromNat, Pow2;
    forall i: nat | i < |lz77|
      ensures secondBits[i] < Pow2((raw + lz77)[NUM_RAW + i])
      ensures FromNat(secondBits[i], (raw + lz77)[NUM_RAW + i]) == Codeword(raw + lz77, NUM_RAW + i)
    {
      assert (short + lz77)[|short| + i] == lz77[i] == (raw + lz77)[NUM_RAW + i];
      if lz77[i] > 0 {
        WithoutTrailing(raw, |short|, lz77, |short| + i);
      } else {
        EmptyCodeword(raw + lz77, NUM_RAW + i, secondBits[i]);
      }
    }
  }

  lemma EmptyCodeword(lens: seq<nat>, s: nat, b: nat)
    requires s < |lens| && lens[s] == 0
    ensures Codeword(lens, s) == FromNat(b, lens[s])
    ensures b < Pow2(0) ==> b < Pow2(lens[s])
  {
  }

  lemma ConstructedComplete(rawCounts: seq<nat>, numraw: nat, total: nat, level1: seq<nat>, lz77Counts: seq<nat>,
                            level2: seq<nat>)
    requires 0 < numraw <= |rawCounts| == NUM_RAW && |lz77Counts| == NUM_LZ77 && |level1| == numraw + 1
    requires (forall i | numraw <= i < NUM_RAW :: rawCounts[i] == 0) && rawCounts[numraw - 1] > 0
    requires total == 0 <==> forall i | 0 <= i < NUM_LZ77 :: lz77Counts[i] == 0
    requires IsLevel(rawCounts[..numraw] + [total], level1, LEVEL1_LIMIT)
    requires IsLevel(lz77Counts, level2, MAX_BITS - level1[numraw]) && Used(lz77Counts, NUM_LZ77) >= 2
    ensures var base := level1[numraw];
            var rawNbits := level1[..numraw] + Copies<nat>(0, NUM_RAW - numraw);
            Taken(rawNbits + Below(base, level2), MAX_BITS) == Pow2(MAX_BITS) &&
            (forall i | 0 <= i < NUM_RAW :: rawCounts[i] > 0 ==> rawNbits[i] > 0) &&
            forall i | 0 <= i < NUM_LZ77 :: lz77Counts[i] > 0 ==> Below(base, level2)[i] > 0
  {
    SomeUsed(lz77Counts);
    hide Used, Taken, ShareSum, Pow2, IsLevel, Below;
    var counts := rawCounts[..numraw];
    assert |counts| == numraw && counts[numraw - 1] > 0;
    AssembledComplete(counts, numraw, total, level1, lz77Counts, level2);
    CountsKept(rawCounts, numraw, level1[..numraw]);
  }

  lemma CountsKept(rawCounts: seq<nat>, numraw: nat, short: seq<nat>)
    requires numraw <= |rawCounts| == NUM_RAW && |short| == numraw
    requires forall i | numraw <= i < NUM_RAW :: rawCounts[i] == 0
    requires forall i | 0 <= i < numraw :: rawCounts[..numraw][i] > 0 ==> short[i] > 0
    ensures forall i | 0 <= i < NUM_RAW :: rawCounts[i] > 0 ==> (short + Copies<nat>(0, NUM_RAW - numraw))[i] > 0
  {
    forall i | 0 <= i < NUM_RAW && rawCounts[i] > 0 ensures (short + Copies<nat>(0, NUM_RAW - numraw))[i] > 0 {
      assert rawCounts[..numraw][i] == rawCounts[i];
    }
  }

  lemma LevelBound(freqs: seq<nat>, nbits: seq<nat>, limit: nat, i: nat)
    requires IsLevel(freqs, nbits, limit) && i < |freqs|
    ensures |nbits| == |freqs| && nbits[i] <= limit
  {
  }

  /** The raw symbols up to the last one that occurs. */
  function RawUsed(counts: seq<nat>): (n: nat)
    ensures n <= |counts| && (n > 0 ==> counts[n - 1] > 0) && forall i | n <= i < |counts| :: counts[i] == 0
  {
    if counts == [] || counts[|counts| - 1] > 0 then |counts| else RawUsed(counts[..|counts| - 1])
  }

  lemma {:induction false} RawUsedIs(counts: seq<nat>, n: nat)
    requires n <= |counts| && (n > 0 ==> counts[n - 1] > 0) && forall i | n <= i < |counts| :: counts[i] == 0
    ensures RawUsed(counts) == n
  {
    if n < |counts| {
      RawUsedIs(counts[..|counts| - 1], n);
    }
  }

  method WithoutUnused(rawCounts: seq<nat>) returns (numraw: nat)
    ensures numraw == RawUsed(rawCounts)
  {
    numraw := |rawCounts|;
    while numraw > 0 && rawCounts[numraw - 1] == 0
      invariant numraw <= |rawCounts| && forall i | numraw <= i < |rawCounts| :: rawCounts[i] == 0
    {
      numraw := numraw - 1;
    }
    RawUsedIs(rawCounts, numraw);
  }

  /** The symbols of the first level that occur; all LZ77 symbols together are one of them. */
  function Level1Used(rawCounts: seq<nat>, lz77Counts: seq<nat>): nat {
    Used(rawCounts, |rawCounts|) + if exists k :: 0 <= k < |lz77Counts| && lz77Counts[k] > 0 then 1 else 0
  }

  /** No raw symbol below the last one that occurs is missing, and it is not the only symbol. */
  predicate IsGapless(rawCounts: seq<nat>, lz77Counts: seq<nat>) {
    RawUsed(rawCounts) == 0 ||
    (Level1Used(rawCounts, lz77Counts) >= 2 && forall i | 0 <= i < RawUsed(rawCounts) :: rawCounts[i] > 0)
  }

  /** Exactly the raw symbols that occur have a length, provided that there are two symbols in the first level;
      otherwise none has. */
  ghost predicate LengthsMatch(rawCounts: seq<nat>, lz77Counts: seq<nat>, rawNbits: seq<nat>) {
    |rawNbits| == |rawCounts| && forall i | 0 <= i < |rawCounts| ::
      rawNbits[i] > 0 <==> rawCounts[i] > 0 && Level1Used(rawCounts, lz77Counts) >= 2
  }

  lemma {:induction false} UsedPrefix(a: seq<nat>, b: seq<nat>, k: nat)
    requires k <= |a| && k <= |b| && forall i | 0 <= i < k :: a[i] == b[i]
    ensures Used(a, k) == Used(b, k)
    decreases k
  {
    if k > 0 {
      UsedPrefix(a, b, k - 1);
    }
  }

  lemma {:induction false} UsedNoMore(counts: seq<nat>, n: nat, k: nat)
    requires n <= k <= |counts| && forall i | n <= i < k :: counts[i] == 0
    ensures Used(counts, k) == Used(counts, n)
    decreases k
  {
    if n < k {
      UsedNoMore(counts, n, k - 1);
    }
  }

  /** The first level is built for the symbols counted by `Level1Used`. */
  lemma Level1Is(rawCounts: seq<nat>, lz77Counts: seq<nat>, n: nat, total: nat)
    requires n == RawUsed(rawCounts) && (total == 0 <==> forall k | 0 <= k < |lz77Counts| :: lz77Counts[k] == 0)
    ensures Used(rawCounts[..n] + [total], n + 1) == Level1Used(rawCounts, lz77Counts)
  {
    var freqs := rawCounts[..n] + [total];
    UsedPrefix(freqs, rawCounts, n);
    UsedNoMore(rawCounts, n, |rawCounts|);
    assert freqs[n] == total;
  }

  lemma Level1Lengths(rawCounts: seq<nat>, lz77Counts: seq<nat>, n: nat, total: nat, level1: seq<nat>)
    requires |rawCounts| == NUM_RAW && n == RawUsed(rawCounts) && |level1| == n + 1
    requires total == 0 <==> forall k | 0 <= k < |lz77Counts| :: lz77Counts[k] == 0
    requires IsLevel(rawCounts[..n] + [total], level1, LEVEL1_LIMIT)
    ensures LengthsMatch(rawCounts, lz77Counts, level1[..n] + Copies<nat>(0, NUM_RAW - n))
  {
    hide Used, ShareSum, Pow2, RawUsed;
    Level1Is(rawCounts, lz77Counts, n, total);
    hide Level1Used;
    var freqs, rawNbits := rawCounts[..n] + [total], level1[..n] + Copies<nat>(0, NUM_RAW - n);
    forall i: nat | i < NUM_RAW
      ensures rawNbits[i] > 0 <==> rawCounts[i] > 0 && Level1Used(rawCounts, lz77Counts) >= 2
    {
      if i < n {
        assert freqs[i] == rawCounts[i] && rawNbits[i] == level1[i];
      }
    }
  }

  /** The assertion of `ComputeCanonicalCode`, that all lengths in its first chunk are positive, holds exactly
      for counts without a gap. */
  lemma AssertionIff(rawCounts: seq<nat>, lz77Counts: seq<nat>, rawNbits: seq<nat>)
    requires LengthsMatch(rawCounts, lz77Counts, rawNbits)
    ensures (forall i | 0 <= i < RawUsed(rawCounts) :: rawNbits[i] > 0) <==> IsGapless(rawCounts, lz77Counts)
  {
    hide Used, Level1Used;
    var n := RawUsed(rawCounts);
    if n > 0 && forall i | 0 <= i < n :: rawNbits[i] > 0 {
      assert rawNbits[n - 1] > 0;
    }
  }

  method TotalCount(counts: seq<nat>) returns (total: nat)
    ensures total == Total(counts) && (total == 0 <==> forall k | 0 <= k < |counts| :: counts[k] == 0)
  {
    total := 0;
    for i := 0 to |counts|
      invariant total == Total(counts[..i]) && (total == 0 <==> forall k | 0 <= k < i :: counts[k] == 0)
    {
      assert counts[..i + 1][..i] == counts[..i];
      total := total + counts[i];
    }
    assert counts[..|counts|] == counts;
  }

  /** The lengths of the two levels, of which the second stands below the last symbol of the first. */
  ghost predicate IsSplit(rawCounts: seq<nat>, lz77Counts: seq<nat>, code: PrefixTables, base: nat, level2: seq<nat>) {
    var n := RawUsed(rawCounts);
    && n <= |code.rawNbits| && base <= LEVEL1_LIMIT && code.lz77Nbits == Below(base, level2)
    && AreShortest(rawCounts[..n] + [Total(lz77Counts)], code.rawNbits[..n] + [base], LEVEL1_LIMIT)
    && AreShortest(lz77Counts, level2, MAX_BITS - base)
  }

  /** `PrefixCode`: for any counts the result is a valid code; with at least one raw symbol and two LZ77
      symbols it is complete and every symbol that occurs has a codeword. A raw symbol has a codeword only if
      it occurs, so the lengths up to the last one are all positive if and only if the counts have no gap. Both
      levels have the shortest lengths for their counts, all LZ77 symbols together being one of the first. */
  method ConstructPrefixCode(rawCounts: seq<nat>, lz77Counts: seq<nat>) returns (code: PrefixTables)
    requires |rawCounts| == NUM_RAW && |lz77Counts| == NUM_LZ77
    ensures code.Valid()
    ensures (exists i :: 0 <= i < NUM_RAW && rawCounts[i] > 0) && Used(lz77Counts, NUM_LZ77) >= 2 ==>
              Taken(code.rawNbits + code.lz77Nbits, MAX_BITS) == Pow2(MAX_BITS) &&
              (forall i | 0 <= i < NUM_RAW :: rawCounts[i] > 0 ==> code.rawNbits[i] > 0) &&
              forall i | 0 <= i < NUM_LZ77 :: lz77Counts[i] > 0 ==> code.lz77Nbits[i] > 0
    ensures LengthsMatch(rawCounts, lz77Counts, code.rawNbits)
    ensures (forall i | 0 <= i < RawUsed(rawCounts) :: code.rawNbits[i] > 0) <==> IsGapless(rawCounts, lz77Counts)
    ensures exists base: nat, level2: seq<nat> :: IsSplit(rawCounts, lz77Counts, code, base, level2)
  {
    var numraw := WithoutUnused(rawCounts);
    var total := TotalCount(lz77Counts);
    Pow2Small();
    hide IsLevel, AreLevels, Used, Taken, PrefixTables.Valid, ShareSum, Pow2, Total, Below, RawUsed,
         LengthsMatch, IsGapless, AreShortest, IsSplit;
    var level1 := ComputeLevel(rawCounts[..numraw] + [total], LEVEL1_LIMIT);
    LevelBound(rawCounts[..numraw] + [total], level1, LEVEL1_LIMIT, numraw);
    var base := level1[numraw];
    assert 17 <= Pow2(MAX_BITS - base) by { Pow2Monotone(8, MAX_BITS - base); }
    var level2 := ComputeLevel(lz77Counts, MAX_BITS - base);
    LevelBound(lz77Counts, level2, MAX_BITS - base, 0);
    LevelsFit(rawCounts[..numraw], numraw, total, level1, lz77Counts, level2);
    code := Assemble(level1[..numraw], base, level2);
    Level1Lengths(rawCounts, lz77Counts, numraw, total, level1);
    AssertionIff(rawCounts, lz77Counts, code.rawNbits);
    SplitIs(rawCounts, lz77Counts, code, level1, base, level2);
    if numraw > 0 && Used(lz77Counts, NUM_LZ77) >= 2 {
      ConstructedComplete(rawCounts, numraw, total, level1, lz77Counts, level2);
    }
  }

  lemma SplitIs(rawCounts: seq<nat>, lz77Counts: seq<nat>, code: PrefixTables, level1: seq<nat>, base: nat,
                level2: seq<nat>)
    requires |rawCounts| == NUM_RAW && |level1| == RawUsed(rawCounts) + 1 && base == level1[RawUsed(rawCounts)]
    requires base <= LEVEL1_LIMIT && AreShortest(lz77Counts, level2, MAX_BITS - base)
    requires AreShortest(rawCounts[..RawUsed(rawCounts)] + [Total(lz77Counts)], level1, LEVEL1_LIMIT)
    requires code.rawNbits == level1[..RawUsed(rawCounts)] + Copies<nat>(0, NUM_RAW - RawUsed(rawCounts))
    requires code.lz77Nbits == Below(base, level2)
    ensures IsSplit(rawCounts, lz77Counts, code, base, level2)
  {
    hide AreShortest, Total, Below;
    var n := RawUsed(rawCounts);
    assert code.rawNbits[..n] + [base] == level1;
  }

  /** Counts with a gap: raw symbol 1 does not occur, but symbol 2 does, and the length of symbol 1 is zero. */
  method ConstructWithGap() returns (code: PrefixTables)
    ensures code.Valid() && |code.rawNbits| == NUM_RAW && code.rawNbits[1] == 0 && code.rawNbits[2] > 0
  {
    var rawCounts, lz77Counts := [1, 0, 1] + Copies<nat>(0, NUM_RAW - 3), Copies<nat>(1, NUM_LZ77);
    UsedMonotone(rawCounts, 0, 1);
    UsedMonotone(rawCounts, 1, NUM_RAW);
    assert lz77Counts[0] > 0 && rawCounts[0] == 1 && rawCounts[1] == 0 && rawCounts[2] == 1;
    hide PrefixTables.Valid, Used, Taken, IsGapless, Copies;
    code := ConstructPrefixCode(rawCounts, lz77Counts);
  }

  /** Both levels with unused raw symbols added. */
  lemma PaddedShares(short: seq<nat>, n: nat, base: nat, level2: seq<nat>)
    requires AreLevels(short, base, level2) && n == |short| <= NUM_RAW
    ensures IsPrefixLengths(short + Copies<nat>(0, NUM_RAW - n) + Below(base, level2))
    ensures base > 0 && ShareSum(short + [base], LEVEL1_LIMIT) == Pow2(LEVEL1_LIMIT)
            && ShareSum(level2, MAX_BITS - base) == Pow2(MAX_BITS - base) ==>
              Taken(short + Copies<nat>(0, NUM_RAW - n) + Below(base, level2), MAX_BITS) == Pow2(MAX_BITS)
  {
    var pad := Copies<nat>(0, NUM_RAW - n);
    var lens := short + pad + Below(base, level2);
    hide ShareSum, SymbolShare, Pow2, Taken, AreLevels, Below;
    LevelsTogether(short, base, level2);
    ShareSumConcat(short + pad, Below(base, level2), MAX_BITS);
    ShareSumConcat(short, pad, MAX_BITS);
    ShareSumConcat(short, Below(base, level2), MAX_BITS);
    ShareSumNone(pad, MAX_BITS);
    TakenIsShareSum(lens, MAX_BITS);
    PaddedLengths(short, base, level2);
  }

  lemma PaddedLengths(short: seq<nat>, base: nat, level2: seq<nat>)
    requires AreLevels(short, base, level2) && |short| <= NUM_RAW
    ensures var lens := short + Copies<nat>(0, NUM_RAW - |short|) + Below(base, level2);
            forall i | 0 <= i < |lens| :: lens[i] <= MAX_BITS
  {
    hide ShareSum, Pow2;
    var lens := short + Copies<nat>(0, NUM_RAW - |short|) + Below(base, level2);
    forall i | 0 <= i < |lens| ensures lens[i] <= MAX_BITS {
      if i < |short| {
        assert lens[i] == short[i];
      } else if i >= NUM_RAW {
        assert lens[i] == Below(base, level2)[i - NUM_RAW];
      }
    }
  }

  lemma SomeUsed(freqs: seq<nat>)
    requires Used(freqs, |freqs|) >= 2
    ensures exists i :: 0 <= i < |freqs| && freqs[i] > 0
  {
    if forall i | 0 <= i < |freqs| :: freqs[i] == 0 {
      NoneUsed(freqs, |freqs|);
    }
  }

  /** Lengths and codewords of both levels. */
  method Assemble(short: seq<nat>, base: nat, level2: seq<nat>) returns (code: PrefixTables)
    requires |short| <= NUM_RAW && |level2| == NUM_LZ77 && AreLevels(short, base, level2)
    ensures code.Valid()
    ensures code.rawNbits == short + Copies<nat>(0, NUM_RAW - |short|) && code.lz77Nbits == Below(base, level2)
  {
    var lz77Nbits := Below(base, level2);
    var pad := Copies<nat>(0, NUM_RAW - |short|);
    PaddedLengths(short, base, level2);
    PaddedShares(short, |short|, base, level2);
    assert forall i | 0 <= i < NUM_LZ77 :: lz77Nbits[i] == (short + pad + lz77Nbits)[NUM_RAW + i];
    hide AreCodewords, IsPrefixLengths, Below, ShareSum;
    var firstBits, secondBits := ComputeCanonicalCode(short, lz77Nbits);
    RawPadded(short, firstBits, lz77Nbits);
    Lz77Padded(short, lz77Nbits, secondBits);
    code := PrefixTables(short + pad, firstBits + pad, lz77Nbits, secondBits);
  }

  /** Nothing is left over, and every symbol that occurs has a codeword. */
  lemma AssembledComplete(rawCounts: seq<nat>, n: nat, total: nat, level1: seq<nat>, lz77Counts: seq<nat>,
                          level2: seq<nat>)
    requires n == |rawCounts| <= NUM_RAW && |level1| == n + 1
    requires IsLevel(rawCounts + [total], level1, LEVEL1_LIMIT)
    requires IsLevel(lz77Counts, level2, MAX_BITS - level1[n])
    requires total > 0 && rawCounts != [] && rawCounts[|rawCounts| - 1] > 0 && Used(lz77Counts, |lz77Counts|) >= 2
    ensures var base, short := level1[n], level1[..n];
            Taken(short + Copies<nat>(0, NUM_RAW - n) + Below(base, level2), MAX_BITS) == Pow2(MAX_BITS) &&
            (forall i | 0 <= i < n :: rawCounts[i] > 0 ==> short[i] > 0) &&
            forall i | 0 <= i < |lz77Counts| :: lz77Counts[i] > 0 ==> Below(base, level2)[i] > 0
  {
    hide IsLevel, ShareSum, Taken, Pow2, Used, AreLevels, Below;
    var base, short := level1[n], level1[..n];
    LevelsFit(rawCounts, n, total, level1, lz77Counts, level2);
    LevelsComplete(rawCounts, n, total, level1, lz77Counts, level2);
    assert short + [base] == level1;
    PaddedShares(short, n, base, level2);
  }
}
