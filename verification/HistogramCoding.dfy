/** Writing a distribution (lib/jxl/enc_ans.cc:86-91, 214-224, 240-356), and reading it back: a reader in front of
what is written for counts returns these counts and stops behind it.
 */
module HistogramCoding {
  import opened Bits
  import opened BitReading
  import opened BitWriting
  import opened Sums
  import opened HybridUint
  import opened AliasTable
  import opened UintConfigs
  import opened Histogram
  import opened Sequences

  // ----- numbers and log-counts -----

  /** `StoreVarLenUint8`. */
  function VarLenBits(n: nat): seq<bool> {
    if n == 0 then FromNat(0, 1)
    else
      var log := FloorLog2(n);
      FromNat(1, 1) + (FromNat(log, 3) + FromNat(n - Pow2(log), log))
  }

  lemma SmallLog(n: nat)
    requires 0 < n < 256
    ensures FloorLog2(n) < 8
  {
    assert Pow2(8) == 256 by { Pow2Small(); }
    if FloorLog2(n) >= 8 {
      Pow2Monotone(8, FloorLog2(n));
    }
  }

  method StoreVarLenUint8(n: nat, writer: BitWriter)
    requires n <= 255 && writer.Valid()
    modifies writer
    ensures writer.Valid() && writer.Contents() == old(writer.Contents()) + VarLenBits(n)
  {
    Pow2Small();
    hide BitWriter.Valid, BitWriter.Contents, FromNat, Pow2;
    if n == 0 {
      writer.Write(1, 0);
    } else {
      SmallLog(n);
      var nbits := FloorLog2(n);
      assert Pow2(nbits + 1) == 2 * Pow2(nbits) by { NextPower(nbits); }
      writer.Write(1, 1);
      writer.Write(3, nbits);
      writer.Write(nbits, n - Pow2(nbits));
    }
  }

  lemma NextPower(n: nat)
    ensures Pow2(n + 1) == 2 * Pow2(n)
  {
  }

  lemma VarLenHeld(s: seq<bool>, pos: nat, n: nat)
    requires n <= 255 && HoldsAt(s, pos, VarLenBits(n))
    ensures VarLenAt(s, pos) == Num(n, pos + |VarLenBits(n)|)
  {
    Pow2Small();
    hide FromNat, Pow2, NumberAt, HoldsAt;
    if n == 0 {
      HeldNumber(s, pos, 0, 1);
    } else {
      SmallLog(n);
      var log := FloorLog2(n);
      assert Pow2(log + 1) == 2 * Pow2(log) by { NextPower(log); }
      HoldsAtSplit(s, pos, FromNat(1, 1), FromNat(log, 3) + FromNat(n - Pow2(log), log));
      HoldsAtSplit(s, pos + 1, FromNat(log, 3), FromNat(n - Pow2(log), log));
      HeldNumber(s, pos, 1, 1);
      HeldNumber(s, pos + 1, log, 3);
      HeldNumber(s, pos + 4, n - Pow2(log), log);
      assert log == 0 ==> n == 1 by { assert Pow2(0) == 1 by { PowerOfZero(); } }
    }
  }

  lemma PowerOfZero()
    ensures Pow2(0) == 1
  {
  }

  /** The static Huffman code for log-counts; the last symbol announces a run. */
  const LOG_COUNT_LENGTHS: seq<nat> := [5, 4, 4, 4, 4, 4, 3, 3, 3, 3, 3, 6, 7, 7]
  const LOG_COUNT_SYMBOLS: seq<nat> := [17, 11, 15, 3, 9, 7, 4, 2, 5, 6, 0, 33, 1, 65]

  function LogSymbolBits(k: nat): (b: seq<bool>)
    requires k <= RLE_SYMBOL
    ensures |b| == LOG_COUNT_LENGTHS[k]
  {
    FromNat(LOG_COUNT_SYMBOLS[k], LOG_COUNT_LENGTHS[k])
  }

  /** A longer number starts with the bits that are held. */
  lemma NumberStarts(s: seq<bool>, pos: nat, b: nat, n: nat, m: nat)
    requires n <= m && b < Pow2(n) && HoldsAt(s, pos, FromNat(b, n))
    ensures NumberAt(s, pos, m) % Pow2(n) == b
  {
    var v := NumberAt(s, pos, m);
    var t := Stream(s, pos, m);
    FromNatToNat(t);
    FromNatPrefix(v, n, m);
    assert t[..n] == FromNat(b, n) by {
      hide FromNat;
      assert s[pos..pos + n] == FromNat(b, n);
      forall k | 0 <= k < n ensures t[k] == FromNat(b, n)[k] {
        assert s[pos..pos + n][k] == s[pos + k];
      }
    }
    ToNatFromNat(v, n);
    ToNatFromNat(b, n);
    ModSmall(b, Pow2(n));
  }

  lemma LogEntry(p: nat, k: nat)
    requires p < 128 && k <= RLE_SYMBOL && p % Pow2(LOG_COUNT_LENGTHS[k]) == LOG_COUNT_SYMBOLS[k]
    ensures HuffEntry(p) == (LOG_COUNT_LENGTHS[k], k)
  {
    Pow2Small();
    assert k == 0 || k == 1 || k == 2 || k == 3 || k == 4 || k == 5 || k == 6 || k == 7 || k == 8 || k == 9 || k == 10
        || k == 11 || k == 12 || k == 13;
  }

  lemma LogSymbolHeld(s: seq<bool>, pos: nat, k: nat)
    requires k <= RLE_SYMBOL && HoldsAt(s, pos, LogSymbolBits(k))
    ensures HuffEntry(NumberAt(s, pos, 7)) == (LOG_COUNT_LENGTHS[k], k)
  {
    LogSymbolFits(k);
    NumberBound(s, pos, 7);
    assert Pow2(7) == 128 by { Pow2Small(); }
    NumberStarts(s, pos, LOG_COUNT_SYMBOLS[k], LOG_COUNT_LENGTHS[k], 7);
    LogEntry(NumberAt(s, pos, 7), k);
  }

  lemma LogSymbolFits(k: nat)
    requires k <= RLE_SYMBOL
    ensures LOG_COUNT_LENGTHS[k] <= 7 && LOG_COUNT_SYMBOLS[k] < Pow2(LOG_COUNT_LENGTHS[k])
  {
    Pow2Small();
  }

  method WriteLogSymbol(k: nat, writer: BitWriter)
    requires k <= RLE_SYMBOL && writer.Valid()
    modifies writer
    ensures writer.Valid() && writer.Contents() == old(writer.Contents()) + LogSymbolBits(k)
  {
    LogSymbolFits(k);
    hide FromNat, BitWriter.Valid, BitWriter.Contents;
    writer.Write(LOG_COUNT_LENGTHS[k], LOG_COUNT_SYMBOLS[k]);
  }

  // ----- the shift -----

  /** As many ones as the shift plus one has bits below its highest one, a zero if there could be more, and
      these bits. */
  function ShiftBits(shift: nat): seq<bool> {
    var log := FloorLog2(shift + 1);
    FromNat(Pow2(log) - 1, log) + (if log < 3 then FromNat(0, 1) else []) + FromNat(shift + 1 - Pow2(log), log)
  }

  lemma ShiftLog(shift: nat)
    requires shift <= ANS_LOG_TAB_SIZE + 1
    ensures FloorLog2(shift + 1) <= 3
  {
    assert Pow2(4) == 16 by { Pow2Small(); }
    if FloorLog2(shift + 1) >= 4 {
      Pow2Monotone(4, FloorLog2(shift + 1));
    }
  }

  method WriteShift(shift: nat, writer: BitWriter)
    requires shift <= ANS_LOG_TAB_SIZE + 1 && writer.Valid()
    modifies writer
    ensures writer.Valid() && writer.Contents() == old(writer.Contents()) + ShiftBits(shift)
  {
    hide FromNat, Pow2, BitWriter.Valid, BitWriter.Contents, FloorLog2, ShiftBits;
    ShiftLog(shift);
    var log := FloorLog2(shift + 1);
    NextPower(log);
    Pow2Positive(1);
    Pow2Positive(log);
    ghost var start := writer.Contents();
    writer.Write(log, Pow2(log) - 1);
    if log != 3 {
      writer.Write(1, 0);
    }
    writer.Write(log, shift + 1 - Pow2(log));
    ShiftWritten(start, shift, log);
  }

  lemma ShiftWritten(start: seq<bool>, shift: nat, log: nat)
    requires log == FloorLog2(shift + 1) <= 3 && 0 < Pow2(log) <= shift + 1
    ensures var ones, low := FromNat(Pow2(log) - 1, log), FromNat(shift + 1 - Pow2(log), log);
            start + ShiftBits(shift) == if log != 3 then start + ones + FromNat(0, 1) + low else start + ones + low
  {
    hide FromNat, Pow2, FloorLog2;
  }

  /** Ones, one by one. */
  lemma {:induction false} OnesHeld(s: seq<bool>, pos: nat, log: nat, n: nat)
    requires n <= log <= 3 && HoldsAt(s, pos, FromNat(Pow2(n) - 1, n))
    requires log < 3 ==> HoldsAt(s, pos + n, FromNat(0, 1))
    ensures OnesAt(s, pos, log - n) == Num(log, pos + n + if log < 3 then 1 else 0)
    decreases n
  {
    hide NumberAt, HoldsAt, FromNat;
    if n == 0 {
      if log < 3 {
        HeldNumber(s, pos, 0, 1);
      }
    } else {
      FirstOne(n);
      HoldsAtSplit(s, pos, FromNat(1, 1), FromNat(Pow2(n - 1) - 1, n - 1));
      HeldNumber(s, pos, 1, 1);
      OnesHeld(s, pos + 1, log, n - 1);
    }
  }

  lemma FirstOne(n: nat)
    requires n > 0
    ensures FromNat(Pow2(n) - 1, n) == FromNat(1, 1) + FromNat(Pow2(n - 1) - 1, n - 1)
  {
    var v: nat := Pow2(n) - 1;
    assert v % 2 == 1 && v / 2 == Pow2(n - 1) - 1;
    assert FromNat(1, 1) == [true];
  }

  lemma ShiftHeld(s: seq<bool>, pos: nat, shift: nat)
    requires shift <= ANS_LOG_TAB_SIZE + 1 && HoldsAt(s, pos, ShiftBits(shift))
    ensures ShiftAt(s, pos) == Num(shift, pos + |ShiftBits(shift)|)
  {
    hide NumberAt, HoldsAt, FromNat, OnesAt, Pow2, FloorLog2;
    ShiftLog(shift);
    var log := FloorLog2(shift + 1);
    var ones, stop, low := FromNat(Pow2(log) - 1, log), if log < 3 then FromNat(0, 1) else [],
                           FromNat(shift + 1 - Pow2(log), log);
    assert ShiftBits(shift) == ones + stop + low;
    HoldsAtSplit(s, pos, ones + stop, low);
    HoldsAtSplit(s, pos, ones, stop);
    ShiftPartsHeld(s, pos, shift, log);
  }

  lemma ShiftPartsHeld(s: seq<bool>, pos: nat, shift: nat, log: nat)
    requires log <= 3 && Pow2(log) <= shift + 1 < Pow2(log + 1) && HoldsAt(s, pos, FromNat(Pow2(log) - 1, log))
    requires log < 3 ==> HoldsAt(s, pos + log, FromNat(0, 1))
    requires var at := pos + log + if log < 3 then 1 else 0; HoldsAt(s, at, FromNat(shift + 1 - Pow2(log), log))
    ensures ShiftAt(s, pos) == Num(shift, pos + 2 * log + if log < 3 then 1 else 0)
  {
    NextPower(log);
    hide NumberAt, HoldsAt, FromNat, OnesAt, Pow2;
    OnesHeld(s, pos, log, log);
    HeldNumber(s, pos + log + (if log < 3 then 1 else 0), shift + 1 - Pow2(log), log);
  }

  // ----- one count -----

  function LogCount(c: nat): nat {
    if c == 0 then 0 else FloorLog2(c) + 1
  }

  /** The bits below the highest one that the precision keeps. */
  function CountBits(c: nat, code: nat, shift: nat): seq<bool> {
    if code <= 1 || code >= RLE_SYMBOL then []
    else
      var bitcount := GetPopulationCountPrecision(code - 1, shift);
      var high := Shr(c, code - 1 - bitcount);
      FromNat(if high >= Pow2(bitcount) then high - Pow2(bitcount) else 0, bitcount)
  }

  /** The bits that are dropped are clear. */
  predicate IsRepresentable(c: nat, shift: nat) {
    LogCount(c) < RLE_SYMBOL &&
    (c > 0 ==> Low(c, FloorLog2(c) - GetPopulationCountPrecision(FloorLog2(c), shift)) == 0)
  }

  /** Of the `n` bits below the highest one none is kept as long as twice the shift is at most 12 - n; then every
      shift keeps one more, until all are. */
  lemma PrecisionGrows(n: nat, shift: nat)
    requires n <= 12
    ensures 2 * shift <= 12 - n ==> GetPopulationCountPrecision(n, shift) == 0
    ensures 2 * shift + 1 >= 12 + n ==> GetPopulationCountPrecision(n, shift) == n
    ensures 12 - n <= 2 * shift + 1 < 12 + n ==>
              GetPopulationCountPrecision(n, shift + 1) == GetPopulationCountPrecision(n, shift) + 1
  {
  }

  lemma CountParts(c: nat, shift: nat)
    requires c > 1 && IsRepresentable(c, shift)
    ensures var code := LogCount(c);
            2 <= code < RLE_SYMBOL &&
            var bitcount := GetPopulationCountPrecision(code - 1, shift);
            var high := Shr(c, code - 1 - bitcount);
            Pow2(bitcount) <= high < Pow2(bitcount + 1) &&
            Pow2(code - 1) + Shl(high - Pow2(bitcount), code - 1 - bitcount) == c
  {
    hide GetPopulationCountPrecision, Low, Shr, Shl, Pow2, FloorLog2;
    var log := FloorLog2(c);
    LogPositive(c);
    var bitcount := GetPopulationCountPrecision(log, shift);
    HighPart(c, log, bitcount);
  }

  lemma LogPositive(c: nat)
    requires c > 1
    ensures FloorLog2(c) >= 1
  {
  }

  lemma HighPart(c: nat, log: nat, kept: nat)
    requires kept <= log && Pow2(log) <= c < Pow2(log + 1) && Low(c, log - kept) == 0
    ensures Pow2(kept) <= Shr(c, log - kept) < Pow2(kept + 1)
    ensures Pow2(log) + Shl(Shr(c, log - kept) - Pow2(kept), log - kept) == c
  {
    hide Low, Shr, Shl, Pow2;
    var drop: nat := log - kept;
    ShrBounds(c, kept, drop);
    ShrBounds(c, kept + 1, drop);
    ShiftSplit(c, drop);
    ShlAdd(Pow2(kept), Shr(c, drop) - Pow2(kept), drop);
    ShlPow2(kept, drop);
  }

  lemma CountHeld(s: seq<bool>, pos: nat, c: nat, shift: nat)
    requires IsRepresentable(c, shift) && HoldsAt(s, pos, CountBits(c, LogCount(c), shift))
    ensures CountAt(s, pos, LogCount(c), shift) == Num(c, pos + |CountBits(c, LogCount(c), shift)|)
  {
    hide FromNat, NumberAt, HoldsAt, Shl, Shr, GetPopulationCountPrecision, Pow2, LogCount, IsRepresentable;
    var code := LogCount(c);
    if c > 1 {
      CountParts(c, shift);
      var bitcount := GetPopulationCountPrecision(code - 1, shift);
      NextPower(bitcount);
      HeldNumber(s, pos, Shr(c, code - 1 - bitcount) - Pow2(bitcount), bitcount);
    } else {
      SmallLogCounts();
    }
  }

  lemma SmallLogCounts()
    ensures LogCount(0) == 0 && LogCount(1) == 1
  {
  }

  method WriteCount(c: nat, code: nat, shift: nat, writer: BitWriter)
    requires IsRepresentable(c, shift) && code == LogCount(c) && writer.Valid()
    modifies writer
    ensures writer.Valid() && writer.Contents() == old(writer.Contents()) + CountBits(c, code, shift)
  {
    hide FromNat, Shl, Shr, GetPopulationCountPrecision, BitWriter.Valid, BitWriter.Contents, Pow2;
    if code > 1 {
      LogOfMore(c);
      CountParts(c, shift);
      var bitcount := GetPopulationCountPrecision(code - 1, shift);
      var dropBits := code - 1 - bitcount;
      NextPower(bitcount);
      writer.Write(bitcount, Shr(c, dropBits) - Pow2(bitcount));
    } else {
      assert writer.Contents() + [] == writer.Contents();
    }
  }

  lemma LogOfMore(c: nat)
    requires LogCount(c) > 1
    ensures c > 1
  {
  }

  // ----- runs -----

  /** Where a run starts, its length is more than four; the first count is written, the others are announced. */
  predicate IsLong(same: seq<nat>, l: nat) {
    l < |same| && same[l] > 4
  }

  ghost predicate IsRunAt(counts: seq<nat>, omitPos: nat, same: seq<nat>, l: nat)
    requires l < |same| == |counts|
  {
    l + same[l] <= |counts| && same[l] <= 255 && (omitPos < l || omitPos >= l + same[l]) &&
    forall k | l < k < l + same[l] :: counts[k] == counts[l] && same[k] == 0
  }

  /** Runs of equal counts, apart from each other, without the omitted one. */
  ghost predicate AreRunsOf(counts: seq<nat>, omitPos: nat, same: seq<nat>) {
    |same| == |counts| && forall l | 0 <= l < |same| && IsLong(same, l) :: IsRunAt(counts, omitPos, same, l)
  }

  /** The run that is announced at position `i`, behind its first count. */
  function Told(same: seq<nat>, i: nat): nat {
    if i > 0 && IsLong(same, i - 1) then same[i - 1] else 0
  }

  /** No announced run goes on at position `i`. */
  ghost predicate IsFree(same: seq<nat>, i: nat) {
    forall l: nat | IsLong(same, l) :: !(l + 1 < i < l + same[l])
  }

  lemma FreeAtStart(same: seq<nat>)
    ensures IsFree(same, 0)
  {
  }

  lemma FreeNext(same: seq<nat>, i: nat)
    requires IsFree(same, i) && Told(same, i) == 0
    ensures IsFree(same, i + 1)
  {
    forall l: nat | IsLong(same, l) ensures !(l + 1 < i + 1 < l + same[l]) {
      assert l + 1 != i;
    }
  }

  lemma FreeAfterRun(counts: seq<nat>, omitPos: nat, same: seq<nat>, l: nat)
    requires AreRunsOf(counts, omitPos, same) && IsLong(same, l)
    ensures IsFree(same, l + same[l]) && Told(same, l + same[l]) == 0
    ensures forall k | l + 1 < k <= l + same[l] :: Told(same, k) == 0
  {
    assert IsRunAt(counts, omitPos, same, l);
    forall m: nat | IsLong(same, m) ensures !(m + 1 < l + same[l] < m + same[m]) {
      assert IsRunAt(counts, omitPos, same, m);
    }
  }

  /** A run that starts below the last count that is not zero ends there at the latest. */
  lemma RunsWithin(counts: seq<nat>, omitPos: nat, same: seq<nat>, l: nat)
    requires AreRunsOf(counts, omitPos, same) && IsLong(same, l) && l < |Trimmed(counts)|
    ensures l + same[l] <= |Trimmed(counts)|
  {
    assert IsRunAt(counts, omitPos, same, l);
    var n := |Trimmed(counts)|;
    assert Trimmed(counts)[n - 1] == counts[n - 1] != 0;
    assert Freq(Trimmed(counts), n) == Freq(counts, n);
    assert n < |counts| ==> counts[n] == 0;
  }

  // ----- the log-counts in the stream -----

  function LogBitsFrom(logcounts: seq<nat>, same: seq<nat>, length: nat, i: nat): seq<bool>
    requires length <= |logcounts| == |same| && forall k | 0 <= k < length :: logcounts[k] < RLE_SYMBOL
    decreases length - i
  {
    if i >= length then []
    else if Told(same, i) > 0 then
      LogSymbolBits(RLE_SYMBOL) + (VarLenBits(Told(same, i) - 5)
        + LogBitsFrom(logcounts, same, length, i + Told(same, i) - 1))
    else LogSymbolBits(logcounts[i]) + LogBitsFrom(logcounts, same, length, i + 1)
  }

  /** The omitted count has the first of the largest log-counts. */
  ghost predicate IsOmitted(logcounts: seq<nat>, omitPos: nat, length: nat) {
    && omitPos < length <= |logcounts| && (forall k | 0 <= k < length :: logcounts[k] < RLE_SYMBOL)
    && (forall k | 0 <= k < omitPos :: logcounts[k] < logcounts[omitPos])
    && forall k | omitPos < k < length :: logcounts[k] <= logcounts[omitPos]
  }

  /** What the reader has after the positions before `i`. */
  ghost predicate LogsMatch(st: Logs, logcounts: seq<nat>, same: seq<nat>, omitPos: nat, length: nat, i: nat) {
    && |st.logcounts| == |st.same| == length <= |logcounts| == |same| && omitPos < length
    && (forall k | 0 <= k < length :: st.same[k] == if k < i then Told(same, k) else 0)
    && (forall k: nat | k < i && k < length && IsFree(same, k) && Told(same, k) == 0 ::
          st.logcounts[k] == logcounts[k])
    && if i <= omitPos then st.omitLog < logcounts[omitPos]
       else st.omitLog == logcounts[omitPos] && st.omitPos == omitPos
  }

  /** The step from position `i` to position `j` reads the bits between them. */
  ghost predicate IsLogStep(s: seq<bool>, st: Logs, next: Logs, logcounts: seq<nat>, same: seq<nat>, omitPos: nat,
                            length: nat, i: nat, j: nat)
    requires length <= |logcounts| == |same| && forall k | 0 <= k < length :: logcounts[k] < RLE_SYMBOL
  {
    && i < j && IsFree(same, j) && LogsMatch(next, logcounts, same, omitPos, length, j)
    && HoldsAt(s, next.pos, LogBitsFrom(logcounts, same, length, j))
    && next.pos + |LogBitsFrom(logcounts, same, length, j)| == st.pos + |LogBitsFrom(logcounts, same, length, i)|
  }

  lemma RunBits(logcounts: seq<nat>, same: seq<nat>, length: nat, i: nat)
    requires i < length <= |logcounts| == |same| && forall k | 0 <= k < length :: logcounts[k] < RLE_SYMBOL
    ensures var run := Told(same, i);
            LogBitsFrom(logcounts, same, length, i) ==
            if run > 0 then LogSymbolBits(RLE_SYMBOL) + (VarLenBits(run - 5)
              + LogBitsFrom(logcounts, same, length, i + run - 1))
            else LogSymbolBits(logcounts[i]) + LogBitsFrom(logcounts, same, length, i + 1)
  {
  }

  /** A run is read as it was written. */
  lemma RunStepHeld(s: seq<bool>, st: Logs, counts: seq<nat>, logcounts: seq<nat>, same: seq<nat>, omitPos: nat,
                    length: nat, i: nat, run: nat)
    requires AreRunsOf(counts, omitPos, same) && IsOmitted(logcounts, omitPos, length) && |logcounts| == |same|
    requires LogsMatch(st, logcounts, same, omitPos, length, i) && i < length && run == Told(same, i) > 0
    requires HoldsAt(s, st.pos, LogBitsFrom(logcounts, same, length, i))
    ensures |st.logcounts| == |st.same| == length && LogStep(s, st, i).1 == i + run - 1
    ensures IsLogStep(s, st, LogStep(s, st, i).0, logcounts, same, omitPos, length, i, i + run - 1)
  {
    hide HoldsAt, LogSymbolBits, VarLenBits, VarLenAt, IsFree, LogBitsFrom, LogsMatch, LogStep, Told, AreRunsOf;
    RunMatches(st, counts, logcounts, same, omitPos, length, i, run, 0);
    RunLength(counts, omitPos, same, i);
    RunBits(logcounts, same, length, i);
    var rest := LogBitsFrom(logcounts, same, length, i + run - 1);
    RunHeld(s, st.pos, run, rest);
    LogStepIs(s, st, i, RLE_SYMBOL);
    RunMatches(st, counts, logcounts, same, omitPos, length, i, run, LogStep(s, st, i).0.pos);
  }

  lemma RunLength(counts: seq<nat>, omitPos: nat, same: seq<nat>, i: nat)
    requires AreRunsOf(counts, omitPos, same) && Told(same, i) > 0
    ensures 5 <= Told(same, i) <= 255 && IsFree(same, i + Told(same, i) - 1)
  {
    assert IsRunAt(counts, omitPos, same, i - 1);
    FreeAfterRun(counts, omitPos, same, i - 1);
  }

  lemma RunHeld(s: seq<bool>, pos: nat, run: nat, rest: seq<bool>)
    requires 5 <= run <= 255 && HoldsAt(s, pos, LogSymbolBits(RLE_SYMBOL) + (VarLenBits(run - 5) + rest))
    ensures HoldsAt(s, pos, LogSymbolBits(RLE_SYMBOL))
    ensures var at := pos + |LogSymbolBits(RLE_SYMBOL)|;
            VarLenAt(s, at) == Num(run - 5, at + |VarLenBits(run - 5)|) &&
            HoldsAt(s, at + |VarLenBits(run - 5)|, rest)
  {
    hide HoldsAt, LogSymbolBits, VarLenBits, VarLenAt;
    HoldsAtSplit(s, pos, LogSymbolBits(RLE_SYMBOL), VarLenBits(run - 5) + rest);
    HoldsAtSplit(s, pos + |LogSymbolBits(RLE_SYMBOL)|, VarLenBits(run - 5), rest);
    VarLenHeld(s, pos + |LogSymbolBits(RLE_SYMBOL)|, run - 5);
  }

  lemma RunMatches(st: Logs, counts: seq<nat>, logcounts: seq<nat>, same: seq<nat>, omitPos: nat, length: nat, i: nat,
                   run: nat, pos: nat)
    requires AreRunsOf(counts, omitPos, same) && LogsMatch(st, logcounts, same, omitPos, length, i) && i < length
    requires run == Told(same, i) > 0
    ensures |st.logcounts| == |st.same| == length
    ensures LogsMatch(Logs(st.logcounts[i := RLE_SYMBOL], st.same[i := run], st.omitLog, st.omitPos, pos), logcounts,
                      same, omitPos, length, i + run - 1)
  {
    hide IsFree;
    assert IsRunAt(counts, omitPos, same, i - 1);
    FreeAfterRun(counts, omitPos, same, i - 1);
    InsideIsNotFree(same, i - 1);
  }

  /** What a log-count changes. */
  ghost predicate HasSymbol(st: Logs, next: Logs, i: nat, k: nat)
    requires i < |st.logcounts|
  {
    && next.same == st.same && next.logcounts == st.logcounts[i := k]
    && if k > st.omitLog then next.omitLog == k && next.omitPos == i
       else next.omitLog == st.omitLog && next.omitPos == st.omitPos
  }

  lemma SymbolMatches(st: Logs, next: Logs, logcounts: seq<nat>, same: seq<nat>, omitPos: nat, length: nat, i: nat)
    requires IsOmitted(logcounts, omitPos, length) && |logcounts| == |same| && i < length && Told(same, i) == 0
    requires LogsMatch(st, logcounts, same, omitPos, length, i) && HasSymbol(st, next, i, logcounts[i])
    ensures LogsMatch(next, logcounts, same, omitPos, length, i + 1)
  {
    hide IsFree, Told;
  }

  lemma MatchSizes(st: Logs, logcounts: seq<nat>, same: seq<nat>, omitPos: nat, length: nat, i: nat)
    requires LogsMatch(st, logcounts, same, omitPos, length, i)
    ensures |st.logcounts| == |st.same| == length <= |logcounts| == |same|
  {
  }

  /** The step for a log-count, and for a run. */
  lemma LogStepIs(s: seq<bool>, st: Logs, i: nat, k: nat)
    requires i < |st.logcounts| == |st.same| && k <= RLE_SYMBOL && HoldsAt(s, st.pos, LogSymbolBits(k))
    ensures var logs, pos := st.logcounts[i := k], st.pos + |LogSymbolBits(k)|;
            LogStep(s, st, i) ==
            if k == RLE_SYMBOL then
              (Logs(logs, st.same[i := VarLenAt(s, pos).value + 5], st.omitLog, st.omitPos, VarLenAt(s, pos).end),
               i + VarLenAt(s, pos).value + 4)
            else (if k > st.omitLog then Logs(logs, st.same, k, i, pos)
                  else Logs(logs, st.same, st.omitLog, st.omitPos, pos), i + 1)
  {
    LogSymbolHeld(s, st.pos, k);
    hide HoldsAt, NumberAt, LogSymbolBits, HuffEntry, VarLenAt;
  }

  lemma SymbolStepIs(s: seq<bool>, st: Logs, i: nat, k: nat)
    requires i < |st.logcounts| == |st.same| && k < RLE_SYMBOL && HoldsAt(s, st.pos, LogSymbolBits(k))
    ensures var next := LogStep(s, st, i);
            next.1 == i + 1 && next.0.pos == st.pos + |LogSymbolBits(k)| && HasSymbol(st, next.0, i, k)
  {
    LogStepIs(s, st, i, k);
    hide HoldsAt, LogSymbolBits, LogStep;
  }

  lemma SymbolBitsHeld(s: seq<bool>, pos: nat, logcounts: seq<nat>, same: seq<nat>, length: nat, i: nat)
    requires i < length <= |logcounts| == |same| && forall k | 0 <= k < length :: logcounts[k] < RLE_SYMBOL
    requires Told(same, i) == 0 && HoldsAt(s, pos, LogBitsFrom(logcounts, same, length, i))
    ensures var first, rest := LogSymbolBits(logcounts[i]), LogBitsFrom(logcounts, same, length, i + 1);
            HoldsAt(s, pos, first) && HoldsAt(s, pos + |first|, rest) &&
            |LogBitsFrom(logcounts, same, length, i)| == |first| + |rest|
  {
    RunBits(logcounts, same, length, i);
    hide HoldsAt, LogSymbolBits, LogBitsFrom, Told;
    HoldsAtSplit(s, pos, LogSymbolBits(logcounts[i]), LogBitsFrom(logcounts, same, length, i + 1));
  }

  /** A log-count is read as it was written. */
  lemma SymbolStepHeld(s: seq<bool>, st: Logs, logcounts: seq<nat>, same: seq<nat>, omitPos: nat, length: nat, i: nat)
    requires IsOmitted(logcounts, omitPos, length) && |logcounts| == |same| && IsFree(same, i)
    requires LogsMatch(st, logcounts, same, omitPos, length, i) && i < length && Told(same, i) == 0
    requires HoldsAt(s, st.pos, LogBitsFrom(logcounts, same, length, i))
    ensures |st.logcounts| == |st.same| == length && LogStep(s, st, i).1 == i + 1
    ensures IsLogStep(s, st, LogStep(s, st, i).0, logcounts, same, omitPos, length, i, i + 1)
  {
    assert logcounts[i] < RLE_SYMBOL;
    hide HoldsAt, LogSymbolBits, IsFree, LogBitsFrom, LogsMatch, Told, LogStep, IsOmitted, HasSymbol;
    MatchSizes(st, logcounts, same, omitPos, length, i);
    SymbolBitsHeld(s, st.pos, logcounts, same, length, i);
    SymbolStepIs(s, st, i, logcounts[i]);
    SymbolMatches(st, LogStep(s, st, i).0, logcounts, same, omitPos, length, i);
    FreeNext(same, i);
  }

  /** One log-count or run is read as it was written. */
  lemma LogStepHeld(s: seq<bool>, st: Logs, counts: seq<nat>, logcounts: seq<nat>, same: seq<nat>, omitPos: nat,
                    length: nat, i: nat)
    requires AreRunsOf(counts, omitPos, same) && IsOmitted(logcounts, omitPos, length) && |logcounts| == |same|
    requires LogsMatch(st, logcounts, same, omitPos, length, i) && i < length && IsFree(same, i)
    requires HoldsAt(s, st.pos, LogBitsFrom(logcounts, same, length, i))
    ensures |st.logcounts| == |st.same| > i
    ensures IsLogStep(s, st, LogStep(s, st, i).0, logcounts, same, omitPos, length, i, LogStep(s, st, i).1)
  {
    hide HoldsAt, LogBitsFrom, IsFree, LogStep, IsLogStep, AreRunsOf;
    if Told(same, i) > 0 {
      RunStepHeld(s, st, counts, logcounts, same, omitPos, length, i, Told(same, i));
    } else {
      SymbolStepHeld(s, st, logcounts, same, omitPos, length, i);
    }
  }

  lemma InsideIsNotFree(same: seq<nat>, l: nat)
    requires IsLong(same, l)
    ensures forall k: nat | l + 1 < k < l + same[l] :: !IsFree(same, k)
  {
  }

  /** All log-counts and runs. */
  lemma {:induction false} LogsHeld(s: seq<bool>, st: Logs, counts: seq<nat>, logcounts: seq<nat>, same: seq<nat>,
                                    omitPos: nat, length: nat, i: nat) returns (n: nat)
    requires AreRunsOf(counts, omitPos, same) && IsOmitted(logcounts, omitPos, length) && |logcounts| == |same|
    requires LogsMatch(st, logcounts, same, omitPos, length, i) && IsFree(same, i)
    requires HoldsAt(s, st.pos, LogBitsFrom(logcounts, same, length, i))
    ensures |st.logcounts| == |st.same| && n >= length
    ensures var r := LogsFrom(s, st, i);
            LogsMatch(r, logcounts, same, omitPos, length, n) &&
            r.pos == st.pos + |LogBitsFrom(logcounts, same, length, i)|
    decreases length - i
  {
    hide HoldsAt, LogStep, LogBitsFrom, IsFree, AreRunsOf;
    n := i;
    if i < length {
      LogStepHeld(s, st, counts, logcounts, same, omitPos, length, i);
      var next := LogStep(s, st, i);
      hide LogsMatch;
      n := LogsHeld(s, next.0, counts, logcounts, same, omitPos, length, next.1);
    } else {
      NoBits(logcounts, same, length, i);
    }
  }

  lemma NoBits(logcounts: seq<nat>, same: seq<nat>, length: nat, i: nat)
    requires length <= |logcounts| == |same| && (forall k | 0 <= k < length :: logcounts[k] < RLE_SYMBOL) && i >= length
    ensures LogBitsFrom(logcounts, same, length, i) == []
  {
  }

  // ----- the counts in the stream -----

  function RawBitsFrom(counts: seq<nat>, logcounts: seq<nat>, same: seq<nat>, omitPos: nat, shift: nat, length: nat,
                       i: nat): seq<bool>
    requires length <= |counts| == |logcounts| == |same|
    decreases length - i
  {
    if i >= length then []
    else if Told(same, i) > 0 then
      RawBitsFrom(counts, logcounts, same, omitPos, shift, length, i + Told(same, i) - 1)
    else (if i == omitPos then [] else CountBits(counts[i], logcounts[i], shift))
         + RawBitsFrom(counts, logcounts, same, omitPos, shift, length, i + 1)
  }

  /** Everything that the two loops need. */
  ghost predicate IsPlan(counts: seq<nat>, logcounts: seq<nat>, same: seq<nat>, omitPos: nat, shift: nat, length: nat) {
    && length <= |counts| == |logcounts| == |same| && AreRunsOf(counts, omitPos, same)
    && IsOmitted(logcounts, omitPos, length)
    && (forall k: nat | k < length && k != omitPos :: IsRepresentable(counts[k], shift) &&
                                                      logcounts[k] == LogCount(counts[k]))
    && forall l: nat | IsLong(same, l) && l < length :: l + same[l] <= length
  }

  /** The tables of the reader. */
  ghost predicate AreTables(readLogs: seq<nat>, readSame: seq<nat>, logcounts: seq<nat>, same: seq<nat>, length: nat) {
    && |readLogs| == |readSame| == length <= |logcounts| == |same|
    && forall k: nat | k < length :: readSame[k] == Told(same, k) &&
                                     (IsFree(same, k) && Told(same, k) == 0 ==> readLogs[k] == logcounts[k])
  }

  /** The counts before `i`, without the omitted one. */
  function Masked(counts: seq<nat>, omitPos: nat, length: nat, i: nat): (r: seq<nat>)
    requires length <= |counts|
    ensures |r| == length && forall k | 0 <= k < length :: r[k] == if k < i && k != omitPos then counts[k] else 0
  {
    seq(length, k requires 0 <= k < length => if k < i && k != omitPos then counts[k] else 0)
  }

  /** A run that goes on at position `i`. */
  ghost predicate IsInside(counts: seq<nat>, same: seq<nat>, i: nat, numsame: nat, prev: nat) {
    exists l: nat :: IsLong(same, l) && l < |counts| && l + 1 < i && i + numsame == l + same[l] && prev == counts[l]
  }

  /** What the reader has after the counts before `i`. */
  ghost predicate TallyMatches(s: seq<bool>, st: Tally, counts: seq<nat>, logcounts: seq<nat>, same: seq<nat>,
                               omitPos: nat, shift: nat, length: nat, i: nat, end: nat)
    requires length <= |counts| == |logcounts| == |same|
  {
    var rest := RawBitsFrom(counts, logcounts, same, omitPos, shift, length, i + st.numsame);
    && st.counts == Masked(counts, omitPos, length, i) && st.total == Sum(st.counts)
    && IsFree(same, i + st.numsame) && (st.numsame > 0 ==> IsInside(counts, same, i, st.numsame, st.prev))
    && HoldsAt(s, st.pos, rest) && st.pos + |rest| == end
  }

  lemma MaskedNext(counts: seq<nat>, omitPos: nat, length: nat, i: nat)
    requires i < length <= |counts|
    ensures var before, after := Masked(counts, omitPos, length, i), Masked(counts, omitPos, length, i + 1);
            if i == omitPos then after == before
            else after == before[i := counts[i]] && Sum(after) == Sum(before) + counts[i]
  {
    var before, after := Masked(counts, omitPos, length, i), Masked(counts, omitPos, length, i + 1);
    if i != omitPos {
      SumUpdate(before, i, counts[i]);
      assert after == before[i := counts[i]];
    } else {
      assert after == before;
    }
  }

  /** Inside a run nothing is announced, and the omitted count is elsewhere. */
  lemma InsideRun(counts: seq<nat>, omitPos: nat, same: seq<nat>, i: nat, numsame: nat, prev: nat)
    requires AreRunsOf(counts, omitPos, same) && numsame > 0 && IsInside(counts, same, i, numsame, prev)
    ensures i < |counts| && counts[i] == prev && i != omitPos && Told(same, i) == 0
    ensures IsInside(counts, same, i + 1, numsame - 1, prev)
  {
    var l: nat :| IsLong(same, l) && l < |counts| && l + 1 < i && i + numsame == l + same[l] && prev == counts[l];
    assert IsRunAt(counts, omitPos, same, l);
    FreeAfterRun(counts, omitPos, same, l);
  }

  /** Where a run is announced. */
  lemma RunBegins(counts: seq<nat>, omitPos: nat, same: seq<nat>, i: nat, length: nat)
    requires AreRunsOf(counts, omitPos, same) && Told(same, i) > 0 && length <= |counts|
    ensures 0 < i < |counts| && i - 1 != omitPos && i != omitPos && counts[i] == counts[i - 1]
    ensures IsFree(same, i + Told(same, i) - 1)
    ensures IsInside(counts, same, i + 1, Told(same, i) - 2, counts[i - 1])
  {
    assert IsRunAt(counts, omitPos, same, i - 1);
    FreeAfterRun(counts, omitPos, same, i - 1);
    assert IsLong(same, i - 1);
  }

  lemma RawNext(counts: seq<nat>, logcounts: seq<nat>, same: seq<nat>, omitPos: nat, shift: nat, length: nat, i: nat)
    requires i < length <= |counts| == |logcounts| == |same|
    ensures RawBitsFrom(counts, logcounts, same, omitPos, shift, length, i) ==
            if Told(same, i) > 0 then
              RawBitsFrom(counts, logcounts, same, omitPos, shift, length, i + Told(same, i) - 1)
            else (if i == omitPos then [] else CountBits(counts[i], logcounts[i], shift))
                 + RawBitsFrom(counts, logcounts, same, omitPos, shift, length, i + 1)
  {
  }

  /** A count that repeats the one before it. */
  lemma RepeatHeld(s: seq<bool>, st: Tally, counts: seq<nat>, logcounts: seq<nat>, same: seq<nat>, omitPos: nat,
                   shift: nat, length: nat, i: nat, end: nat, readLogs: seq<nat>, readSame: seq<nat>)
    requires IsPlan(counts, logcounts, same, omitPos, shift, length) && i < length
    requires AreTables(readLogs, readSame, logcounts, same, length) && (st.numsame > 0 || Told(same, i) > 0)
    requires TallyMatches(s, st, counts, logcounts, same, omitPos, shift, length, i, end)
    ensures TallyMatches(s, TallyStep(s, readLogs, readSame, omitPos, shift, st, i), counts, logcounts, same, omitPos,
                         shift, length, i + 1, end)
  {
    hide HoldsAt, RawBitsFrom, IsFree, AreRunsOf, CountAt, CountBits, IsOmitted, Sum, IsInside, IsRepresentable,
         LogCount, Told;
    MaskedNext(counts, omitPos, length, i);
    if st.numsame > 0 {
      InsideRun(counts, omitPos, same, i, st.numsame, st.prev);
    } else {
      RawNext(counts, logcounts, same, omitPos, shift, length, i);
      RunBegins(counts, omitPos, same, i, length);
      ToldIsLong(same, i);
    }
  }

  /** A count of its own, or the omitted one. */
  lemma OwnHeld(s: seq<bool>, st: Tally, counts: seq<nat>, logcounts: seq<nat>, same: seq<nat>, omitPos: nat,
                shift: nat, length: nat, i: nat, end: nat, readLogs: seq<nat>, readSame: seq<nat>)
    requires i < length <= |counts| == |logcounts| == |same| && st.numsame == 0 && Told(same, i) == 0
    requires i != omitPos ==> IsRepresentable(counts[i], shift) && logcounts[i] == LogCount(counts[i])
    requires |readLogs| == |readSame| == length && readSame[i] == 0 && readLogs[i] == logcounts[i]
    requires TallyMatches(s, st, counts, logcounts, same, omitPos, shift, length, i, end)
    ensures TallyMatches(s, TallyStep(s, readLogs, readSame, omitPos, shift, st, i), counts, logcounts, same, omitPos,
                         shift, length, i + 1, end)
  {
    hide HoldsAt, RawBitsFrom, IsFree, CountAt, CountBits, Sum, IsInside, IsRepresentable, LogCount, Told, Masked;
    MaskedNext(counts, omitPos, length, i);
    RawNext(counts, logcounts, same, omitPos, shift, length, i);
    FreeNext(same, i);
    var rest := RawBitsFrom(counts, logcounts, same, omitPos, shift, length, i + 1);
    if i != omitPos {
      HoldsAtSplit(s, st.pos, CountBits(counts[i], logcounts[i], shift), rest);
      CountHeld(s, st.pos, counts[i], shift);
    } else {
      assert [] + rest == rest;
    }
  }

  /** What the reader does at a position where no run goes on and none begins. */
  lemma OwnPosition(s: seq<bool>, st: Tally, counts: seq<nat>, logcounts: seq<nat>, same: seq<nat>, omitPos: nat,
                    shift: nat, length: nat, i: nat, end: nat, readLogs: seq<nat>, readSame: seq<nat>)
    requires IsPlan(counts, logcounts, same, omitPos, shift, length) && i < length
    requires AreTables(readLogs, readSame, logcounts, same, length) && st.numsame == 0 && Told(same, i) == 0
    requires TallyMatches(s, st, counts, logcounts, same, omitPos, shift, length, i, end)
    ensures |readLogs| == |readSame| == length && readSame[i] == 0 && readLogs[i] == logcounts[i]
    ensures i != omitPos ==> IsRepresentable(counts[i], shift) && logcounts[i] == LogCount(counts[i])
  {
    hide HoldsAt, RawBitsFrom, IsFree, AreRunsOf, IsOmitted, Sum, IsInside, IsRepresentable, LogCount, Told, Masked;
  }

  /** One count is read as it was written. */
  lemma TallyStepHeld(s: seq<bool>, st: Tally, counts: seq<nat>, logcounts: seq<nat>, same: seq<nat>, omitPos: nat,
                      shift: nat, length: nat, i: nat, end: nat, readLogs: seq<nat>, readSame: seq<nat>)
    requires IsPlan(counts, logcounts, same, omitPos, shift, length) && i < length
    requires AreTables(readLogs, readSame, logcounts, same, length) && |st.counts| == length
    requires TallyMatches(s, st, counts, logcounts, same, omitPos, shift, length, i, end)
    ensures TallyMatches(s, TallyStep(s, readLogs, readSame, omitPos, shift, st, i), counts, logcounts, same, omitPos,
                         shift, length, i + 1, end)
  {
    hide TallyMatches, TallyStep, AreTables, Told;
    if st.numsame > 0 || Told(same, i) > 0 {
      RepeatHeld(s, st, counts, logcounts, same, omitPos, shift, length, i, end, readLogs, readSame);
    } else {
      OwnPosition(s, st, counts, logcounts, same, omitPos, shift, length, i, end, readLogs, readSame);
      OwnHeld(s, st, counts, logcounts, same, omitPos, shift, length, i, end, readLogs, readSame);
    }
  }

  /** All counts. */
  lemma {:induction false} TallyHeld(s: seq<bool>, pos: nat, counts: seq<nat>, logcounts: seq<nat>, same: seq<nat>,
                                     omitPos: nat, shift: nat, length: nat, i: nat, readLogs: seq<nat>,
                                     readSame: seq<nat>)
    requires IsPlan(counts, logcounts, same, omitPos, shift, length) && i <= length
    requires AreTables(readLogs, readSame, logcounts, same, length)
    requires HoldsAt(s, pos, RawBitsFrom(counts, logcounts, same, omitPos, shift, length, 0))
    ensures TallyMatches(s, TallyUpTo(s, readLogs, readSame, omitPos, shift, pos, i), counts, logcounts, same, omitPos,
                         shift, length, i, pos + |RawBitsFrom(counts, logcounts, same, omitPos, shift, length, 0)|)
    decreases i
  {
    hide TallyStep, TallyMatches, RawBitsFrom, HoldsAt, AreRunsOf, IsOmitted, IsRepresentable, Told, IsFree, IsLong;
    var end := pos + |RawBitsFrom(counts, logcounts, same, omitPos, shift, length, 0)|;
    if i == 0 {
      NothingTallied(s, pos, counts, logcounts, same, omitPos, shift, length, end);
    } else {
      TallyHeld(s, pos, counts, logcounts, same, omitPos, shift, length, i - 1, readLogs, readSame);
      TallyStepHeld(s, TallyUpTo(s, readLogs, readSame, omitPos, shift, pos, i - 1), counts, logcounts, same, omitPos,
                    shift, length, i - 1, end, readLogs, readSame);
    }
  }

  lemma NothingTallied(s: seq<bool>, pos: nat, counts: seq<nat>, logcounts: seq<nat>, same: seq<nat>, omitPos: nat,
                       shift: nat, length: nat, end: nat)
    requires length <= |counts| == |logcounts| == |same|
    requires var bits := RawBitsFrom(counts, logcounts, same, omitPos, shift, length, 0);
             HoldsAt(s, pos, bits) && end == pos + |bits|
    ensures TallyMatches(s, Tally(seq(length, _ => 0), 0, 0, 0, pos), counts, logcounts, same, omitPos, shift, length,
                         0, end)
  {
    hide RawBitsFrom, HoldsAt;
    var z: seq<nat> := seq(length, _ => 0);
    SumConstant(z, 0);
    assert z == Masked(counts, omitPos, length, 0);
    FreeAtStart(same);
  }

  lemma ToldIsLong(same: seq<nat>, i: nat)
    ensures Told(same, i) > 0 ==> Told(same, i) > 4
  {
  }

  // ----- the omitted count -----

  /** The omitted count gets the largest log-count, one more than those before it. */
  function OmitLog(counts: seq<nat>, omitPos: nat, k: nat): nat
    requires k <= |counts|
  {
    if k == 0 then 0
    else
      var c := counts[k - 1];
      Max(OmitLog(counts, omitPos, k - 1),
          if k - 1 == omitPos || c == 0 then 0 else LogCount(c) + if k - 1 < omitPos then 1 else 0)
  }

  function LogCountsOf(counts: seq<nat>, omitPos: nat): (r: seq<nat>)
    ensures |r| == |counts|
    ensures forall i | 0 <= i < |r| ::
              r[i] == if i == omitPos then OmitLog(counts, omitPos, |counts|) else LogCount(counts[i])
  {
    seq(|counts|, i requires 0 <= i < |counts| =>
      if i == omitPos then OmitLog(counts, omitPos, |counts|) else LogCount(counts[i]))
  }

  /** What `EncodeCounts` is given for three or more symbols: counts that fit the precision but for the omitted
      one, before which none is larger than half of everything. */
  ghost predicate CanWrite(counts: seq<nat>, omitPos: nat, shift: nat) {
    && Sum(counts) == ANS_TAB_SIZE && omitPos < |counts| && counts[omitPos] > 0 && shift <= ANS_LOG_TAB_SIZE + 1
    && (forall k: nat | k < |counts| && k != omitPos :: IsRepresentable(counts[k], shift))
    && (forall k: nat | k < omitPos :: counts[k] < 2048)
    && exists i: nat, j: nat :: i < j < |counts| && i != omitPos && j != omitPos && counts[i] > 0 && counts[j] > 0
  }

  lemma LogBelow(c: nat)
    ensures c < 2048 ==> LogCount(c) <= 11
  {
    assert Pow2(11) == 2048 by { Pow2Small(); }
    if c > 0 && FloorLog2(c) >= 11 {
      Pow2Monotone(11, FloorLog2(c));
    }
  }

  lemma {:induction false} OmitLogIs(counts: seq<nat>, omitPos: nat, shift: nat, k: nat)
    requires k <= |counts| && (forall i: nat | i < |counts| && i != omitPos :: IsRepresentable(counts[i], shift))
    requires forall i: nat | i < omitPos && i < |counts| :: counts[i] < 2048
    ensures OmitLog(counts, omitPos, k) < RLE_SYMBOL
    ensures forall i: nat | i < k && i != omitPos && counts[i] > 0 ::
              LogCount(counts[i]) + (if i < omitPos then 1 else 0) <= OmitLog(counts, omitPos, k)
    decreases k
  {
    hide LogCount;
    if k > 0 {
      OmitLogIs(counts, omitPos, shift, k - 1);
      LogBelow(counts[k - 1]);
      if k - 1 != omitPos {
        assert IsRepresentable(counts[k - 1], shift);
      }
    }
  }

  lemma OmittedIs(counts: seq<nat>, omitPos: nat, shift: nat)
    requires CanWrite(counts, omitPos, shift)
    ensures IsOmitted(LogCountsOf(counts, omitPos), omitPos, |counts|)
  {
    OmitLogIs(counts, omitPos, shift, |counts|);
    OmitLogPositive(counts, omitPos, shift);
    SmallLogCounts();
    assert forall k: nat | k < |counts| && k != omitPos :: IsRepresentable(counts[k], shift);
    hide LogCount, Sum, OmitLog, CanWrite;
  }

  lemma OmitLogPositive(counts: seq<nat>, omitPos: nat, shift: nat)
    requires CanWrite(counts, omitPos, shift)
    ensures OmitLog(counts, omitPos, |counts|) >= 1
  {
    OmitLogIs(counts, omitPos, shift, |counts|);
    hide LogCount, Sum, OmitLog, IsRepresentable;
    var i: nat, j: nat :| i < j < |counts| && i != omitPos && j != omitPos && counts[i] > 0 && counts[j] > 0;
    LogAtLeast(counts[i]);
  }

  lemma LogAtLeast(c: nat)
    requires c > 0
    ensures LogCount(c) >= 1
  {
  }

  /** Three positions that are not zero. */
  lemma LongEnough(counts: seq<nat>, omitPos: nat, shift: nat)
    requires CanWrite(counts, omitPos, shift)
    ensures |Trimmed(counts)| >= 3 && omitPos < |Trimmed(counts)|
  {
    var i: nat, j: nat :| i < j < |counts| && i != omitPos && j != omitPos && counts[i] > 0 && counts[j] > 0;
    assert Freq(Trimmed(counts), i) == Freq(counts, i) && Freq(Trimmed(counts), j) == Freq(counts, j);
    assert Freq(Trimmed(counts), omitPos) == Freq(counts, omitPos);
    hide Sum;
  }

  lemma IsPlanned(counts: seq<nat>, same: seq<nat>, omitPos: nat, shift: nat)
    requires CanWrite(counts, omitPos, shift) && AreRunsOf(counts, omitPos, same)
    ensures |Trimmed(counts)| >= 3
    ensures IsPlan(counts, LogCountsOf(counts, omitPos), same, omitPos, shift, |Trimmed(counts)|)
  {
    OmittedIs(counts, omitPos, shift);
    LongEnough(counts, omitPos, shift);
    var length := |Trimmed(counts)|;
    forall l: nat | IsLong(same, l) && l < length ensures l + same[l] <= length {
      RunsWithin(counts, omitPos, same, l);
    }
    OthersPlanned(counts, omitPos, shift, length);
    hide OmitLog, LogCount, IsRepresentable, Sum, Trimmed, LogCountsOf, CanWrite, AreRunsOf, IsLong;
  }

  lemma OthersPlanned(counts: seq<nat>, omitPos: nat, shift: nat, length: nat)
    requires CanWrite(counts, omitPos, shift) && length <= |counts|
    ensures forall k: nat | k < length && k != omitPos :: IsRepresentable(counts[k], shift) &&
              LogCountsOf(counts, omitPos)[k] == LogCount(counts[k])
  {
    hide OmitLog, LogCount, IsRepresentable, Sum;
  }

  // ----- the histogram in the stream -----

  /** Three or more symbols: two marks, the shift, the length, the log-counts, and the counts. */
  function GeneralBits(counts: seq<nat>, same: seq<nat>, omitPos: nat, shift: nat): seq<bool>
    requires |same| == |counts| && forall k | 0 <= k < |counts| :: LogCountsOf(counts, omitPos)[k] < RLE_SYMBOL
  {
    var length, logcounts := |Trimmed(counts)|, LogCountsOf(counts, omitPos);
    ShiftBits(shift) + (VarLenBits(if length < 3 then 0 else length - 3)
      + (LogBitsFrom(logcounts, same, length, 0) + RawBitsFrom(counts, logcounts, same, omitPos, shift, length, 0)))
  }

  lemma FourHeld(s: seq<bool>, pos: nat, a: seq<bool>, b: seq<bool>, c: seq<bool>, d: seq<bool>)
    requires HoldsAt(s, pos, a + (b + (c + d)))
    ensures HoldsAt(s, pos, a) && HoldsAt(s, pos + |a|, b) && HoldsAt(s, pos + |a| + |b|, c)
    ensures HoldsAt(s, pos + |a| + |b| + |c|, d)
  {
    hide HoldsAt;
    HoldsAtSplit(s, pos, a, b + (c + d));
    HoldsAtSplit(s, pos + |a|, b, c + d);
    HoldsAtSplit(s, pos + |a| + |b|, c, d);
  }

  lemma LogsStart(logcounts: seq<nat>, same: seq<nat>, omitPos: nat, length: nat, pos: nat)
    requires length <= |logcounts| == |same| && omitPos < length
    ensures LogsMatch(NoLogs(length, pos), logcounts, same, omitPos, length, 0)
  {
  }

  /** The tables after the first loop. */
  lemma LogsGiveTables(st: Logs, logcounts: seq<nat>, same: seq<nat>, omitPos: nat, length: nat, n: nat)
    requires LogsMatch(st, logcounts, same, omitPos, length, n) && n >= length
    ensures AreTables(st.logcounts, st.same, logcounts, same, length) && st.omitPos == omitPos
  {
    hide IsFree, Told;
  }

  /** The counts after the second loop. */
  lemma TallyGivesCounts(s: seq<bool>, st: Tally, counts: seq<nat>, logcounts: seq<nat>, same: seq<nat>, omitPos: nat,
                         shift: nat, length: nat, end: nat)
    requires IsPlan(counts, logcounts, same, omitPos, shift, length) && length == |Trimmed(counts)|
    requires Sum(counts) == ANS_TAB_SIZE
    requires TallyMatches(s, st, counts, logcounts, same, omitPos, shift, length, length, end)
    ensures |st.counts| == length && st.total == ANS_TAB_SIZE - counts[omitPos]
    ensures st.counts[omitPos := counts[omitPos]] == Trimmed(counts) && st.pos == end
  {
    hide HoldsAt, AreRunsOf, IsRepresentable, LogCount, Sum, IsFree;
    assert st.counts[omitPos := counts[omitPos]] == Trimmed(counts);
    SumUpdate(st.counts, omitPos, counts[omitPos]);
    TrimmedSum(counts);
  }

  /** Both loops of the reader, in front of both parts. */
  lemma LoopsHeld(s: seq<bool>, pos: nat, counts: seq<nat>, logcounts: seq<nat>, same: seq<nat>, omitPos: nat,
                  shift: nat, length: nat)
    requires IsPlan(counts, logcounts, same, omitPos, shift, length) && length == |Trimmed(counts)|
    requires Sum(counts) == ANS_TAB_SIZE
    requires length <= |logcounts| == |same| && forall k | 0 <= k < length :: logcounts[k] < RLE_SYMBOL
    requires HoldsAt(s, pos, LogBitsFrom(logcounts, same, length, 0))
    requires HoldsAt(s, pos + |LogBitsFrom(logcounts, same, length, 0)|,
                     RawBitsFrom(counts, logcounts, same, omitPos, shift, length, 0))
    ensures var logs := LogsFrom(s, NoLogs(length, pos), 0);
            var all := TallyUpTo(s, logs.logcounts, logs.same, omitPos, shift, logs.pos, length);
            logs.omitPos == omitPos < length <= |counts| && all.total == ANS_TAB_SIZE - counts[omitPos] &&
            all.counts[omitPos := counts[omitPos]] == Trimmed(counts) &&
            all.pos == pos + |LogBitsFrom(logcounts, same, length, 0)|
                           + |RawBitsFrom(counts, logcounts, same, omitPos, shift, length, 0)|
  {
    hide HoldsAt, LogsFrom, TallyUpTo, LogBitsFrom, RawBitsFrom, LogsMatch, TallyMatches, AreTables, AreRunsOf, Sum,
         IsFree, Trimmed, IsRepresentable, LogCount, IsLong;
    LogsStart(logcounts, same, omitPos, length, pos);
    FreeAtStart(same);
    var n := LogsHeld(s, NoLogs(length, pos), counts, logcounts, same, omitPos, length, 0);
    var logs := LogsFrom(s, NoLogs(length, pos), 0);
    LogsGiveTables(logs, logcounts, same, omitPos, length, n);
    TallyHeld(s, logs.pos, counts, logcounts, same, omitPos, shift, length, length, logs.logcounts, logs.same);
    var all := TallyUpTo(s, logs.logcounts, logs.same, omitPos, shift, logs.pos, length);
    TallyGivesCounts(s, all, counts, logcounts, same, omitPos, shift, length,
                     logs.pos + |RawBitsFrom(counts, logcounts, same, omitPos, shift, length, 0)|);
  }

  /** The parts of what the reader parses. */
  lemma GeneralIs(s: seq<bool>, pos: nat, shift: nat, p1: nat, length: nat, p2: nat, omitPos: nat)
    requires ShiftAt(s, pos) == Num(shift, p1) && shift <= ANS_LOG_TAB_SIZE + 1
    requires length >= 3 && VarLenAt(s, p1) == Num(length - 3, p2)
    requires LogsFrom(s, NoLogs(length, p2), 0).omitPos == omitPos < length
    ensures var logs := LogsFrom(s, NoLogs(length, p2), 0);
            var all := TallyUpTo(s, logs.logcounts, logs.same, omitPos, shift, logs.pos, length);
            all.total < ANS_TAB_SIZE ==>
              GeneralAt(s, pos) == Some(Counted(all.counts[omitPos := ANS_TAB_SIZE - all.total], all.pos))
  {
    hide LogsFrom, TallyUpTo, ShiftAt, VarLenAt;
  }

  /** Reading back what is written for three or more symbols. */
  lemma GeneralHeld(s: seq<bool>, pos: nat, counts: seq<nat>, same: seq<nat>, omitPos: nat, shift: nat)
    requires CanWrite(counts, omitPos, shift) && AreRunsOf(counts, omitPos, same) && |Trimmed(counts)| <= 258
    requires IsOmitted(LogCountsOf(counts, omitPos), omitPos, |counts|)
    requires HoldsAt(s, pos, GeneralBits(counts, same, omitPos, shift))
    ensures GeneralAt(s, pos) ==
            Some(Counted(Trimmed(counts), pos + |GeneralBits(counts, same, omitPos, shift)|))
  {
    assert Sum(counts) == ANS_TAB_SIZE && omitPos < |counts| && counts[omitPos] > 0;
    hide HoldsAt, ShiftBits, VarLenBits, LogBitsFrom, RawBitsFrom, IsPlan, AreRunsOf, CanWrite, Sum, Trimmed,
         LogCountsOf, GeneralAt;
    IsPlanned(counts, same, omitPos, shift);
    ShiftFits(counts, omitPos, shift);
    PartsHeld(s, pos, counts, LogCountsOf(counts, omitPos), same, omitPos, shift, |Trimmed(counts)|,
              GeneralBits(counts, same, omitPos, shift));
  }

  lemma PartsHeld(s: seq<bool>, pos: nat, counts: seq<nat>, logcounts: seq<nat>, same: seq<nat>, omitPos: nat,
                  shift: nat, length: nat, bits: seq<bool>)
    requires IsPlan(counts, logcounts, same, omitPos, shift, length) && length == |Trimmed(counts)|
    requires 3 <= length <= 258 && shift <= ANS_LOG_TAB_SIZE + 1 && Sum(counts) == ANS_TAB_SIZE
    requires omitPos < |counts| && counts[omitPos] > 0 && HoldsAt(s, pos, bits)
    requires bits == ShiftBits(shift) + (VarLenBits(length - 3) + (LogBitsFrom(logcounts, same, length, 0)
               + RawBitsFrom(counts, logcounts, same, omitPos, shift, length, 0)))
    ensures GeneralAt(s, pos) == Some(Counted(Trimmed(counts), pos + |bits|))
  {
    hide HoldsAt, LogsFrom, TallyUpTo, ShiftAt, VarLenAt, ShiftBits, VarLenBits, LogBitsFrom, RawBitsFrom,
         AreRunsOf, Sum, Trimmed, GeneralAt, IsRepresentable, LogCount, IsLong;
    var a, b := ShiftBits(shift), VarLenBits(length - 3);
    FourHeld(s, pos, a, b, LogBitsFrom(logcounts, same, length, 0),
             RawBitsFrom(counts, logcounts, same, omitPos, shift, length, 0));
    ShiftHeld(s, pos, shift);
    VarLenHeld(s, pos + |a|, length - 3);
    LoopsHeld(s, pos + |a| + |b|, counts, logcounts, same, omitPos, shift, length);
    GeneralIs(s, pos, shift, pos + |a|, length, pos + |a| + |b|, omitPos);
  }

  lemma ShiftFits(counts: seq<nat>, omitPos: nat, shift: nat)
    requires CanWrite(counts, omitPos, shift)
    ensures shift <= ANS_LOG_TAB_SIZE + 1
  {
  }

  // ----- small and flat histograms -----

  /** The symbols that occur, if there are at most two. */
  ghost predicate AreSymbols(counts: seq<nat>, numSymbols: nat, symbols: (nat, nat)) {
    && (numSymbols == 0 ==> forall k | 0 <= k < |counts| :: counts[k] == 0)
    && (numSymbols == 1 ==> symbols.0 < |counts| && counts[symbols.0] == ANS_TAB_SIZE
                            && forall k | 0 <= k < |counts| && k != symbols.0 :: counts[k] == 0)
    && (numSymbols == 2 ==> symbols.0 < symbols.1 < |counts| && 0 < counts[symbols.0] && 0 < counts[symbols.1]
                            && counts[symbols.0] + counts[symbols.1] == ANS_TAB_SIZE
                            && forall k | 0 <= k < |counts| && k != symbols.0 && k != symbols.1 :: counts[k] == 0)
  }

  function SmallBits(counts: seq<nat>, numSymbols: nat, symbols: (nat, nat)): seq<bool> {
    if numSymbols < 2 then FromNat(0, 1) + VarLenBits(if numSymbols == 0 then 0 else symbols.0)
    else
      var count := if symbols.0 < |counts| then counts[symbols.0] else 0;
      FromNat(1, 1) + (VarLenBits(symbols.0) + (VarLenBits(symbols.1) + FromNat(count, ANS_LOG_TAB_SIZE)))
  }

  lemma {:induction false} TrimmedIs(counts: seq<nat>, n: nat)
    requires n <= |counts| && (n > 0 ==> counts[n - 1] > 0) && forall k | n <= k < |counts| :: counts[k] == 0
    ensures Trimmed(counts) == counts[..n]
    decreases |counts|
  {
    if n < |counts| {
      TrimmedIs(counts[..|counts| - 1], n);
      assert counts[..|counts| - 1][..n] == counts[..n];
    } else {
      assert counts[..n] == counts;
    }
  }

  /** Reading back what is written for at most two symbols. */
  lemma SmallHeld(s: seq<bool>, pos: nat, counts: seq<nat>, numSymbols: nat, symbols: (nat, nat))
    requires numSymbols <= 2 && AreSymbols(counts, numSymbols, symbols) && |counts| <= 256
    requires HoldsAt(s, pos, SmallBits(counts, numSymbols, symbols))
    ensures SimpleAt(s, pos) ==
            Some(Counted(Normalized(counts), pos + |SmallBits(counts, numSymbols, symbols)|))
  {
    OneAndZero();
    hide HoldsAt, NumberAt, VarLenAt, VarLenBits, FromNat, Pow2, Trimmed;
    if numSymbols < 2 {
      var symbol := if numSymbols == 0 then 0 else symbols.0;
      HoldsAtSplit(s, pos, FromNat(0, 1), VarLenBits(symbol));
      HeldNumber(s, pos, 0, 1);
      VarLenHeld(s, pos + 1, symbol);
      SingleIs(counts, numSymbols, symbols);
    } else {
      var a, b, c := VarLenBits(symbols.0), VarLenBits(symbols.1), FromNat(counts[symbols.0], ANS_LOG_TAB_SIZE);
      FourHeld(s, pos, FromNat(1, 1), a, b, c);
      HeldNumber(s, pos, 1, 1);
      VarLenHeld(s, pos + 1, symbols.0);
      VarLenHeld(s, pos + 1 + |a|, symbols.1);
      HeldNumber(s, pos + 1 + |a| + |b|, counts[symbols.0], ANS_LOG_TAB_SIZE);
      PairIs(counts, symbols);
    }
  }

  lemma OneAndZero()
    ensures 1 < Pow2(1) && Pow2(ANS_LOG_TAB_SIZE) == ANS_TAB_SIZE
  {
    Pow2Small();
  }

  lemma SingleIs(counts: seq<nat>, numSymbols: nat, symbols: (nat, nat))
    requires numSymbols <= 1 && AreSymbols(counts, numSymbols, symbols)
    ensures Normalized(counts) == Single(if numSymbols == 0 then 0 else symbols.0)
  {
    if numSymbols == 0 {
      TrimmedIs(counts, 0);
      assert Single(0) == [ANS_TAB_SIZE];
    } else {
      TrimmedIs(counts, symbols.0 + 1);
      assert counts[..symbols.0 + 1] == Single(symbols.0);
    }
  }

  lemma PairIs(counts: seq<nat>, symbols: (nat, nat))
    requires AreSymbols(counts, 2, symbols)
    ensures Normalized(counts) == Pair(symbols.0, symbols.1, counts[symbols.0])
  {
    TrimmedIs(counts, symbols.1 + 1);
    assert counts[..symbols.1 + 1] == Pair(symbols.0, symbols.1, counts[symbols.0]);
  }

  // ----- the writers -----

  /** Runs of equal counts; a run starts one position behind the end of the one before. */
  method ComputeRuns(counts: seq<nat>, omitPos: nat) returns (same: seq<nat>)
    ensures AreRunsOf(counts, omitPos, same)
  {
    same := Copies<nat>(0, |counts|);
    var last, i := 0, 1;
    while i < |counts|
      invariant |same| == |counts| && last <= i && i - last <= 255
      invariant forall k | last <= k < |counts| :: same[k] == 0
      invariant forall k | last <= k < i && k < |counts| :: counts[k] == counts[last]
      invariant last < i && i <= |counts| ==> !(last < omitPos < i) && (last == omitPos ==> i == last + 1)
      invariant forall l | 0 <= l < |same| && IsLong(same, l) :: l + same[l] < last && IsRunAt(counts, omitPos, same, l)
    {
      if counts[i] != counts[last] || i + 1 == |counts| || i - last >= 255 || i == omitPos || i == omitPos + 1 {
        ghost var before := same;
        same := same[last := i - last];
        RunsKept(counts, omitPos, before, same, last, i);
        last := i + 1;
      }
      i := i + 1;
    }
  }

  lemma RunsKept(counts: seq<nat>, omitPos: nat, before: seq<nat>, same: seq<nat>, last: nat, i: nat)
    requires |before| == |counts| && last <= i < |counts| && i - last <= 255 && same == before[last := i - last]
    requires forall k | last <= k < |counts| :: before[k] == 0
    requires forall k | last <= k < i :: counts[k] == counts[last]
    requires last < i ==> !(last < omitPos < i) && (last == omitPos ==> i == last + 1)
    requires forall l | 0 <= l < |before| && IsLong(before, l) ::
               l + before[l] < last && IsRunAt(counts, omitPos, before, l)
    ensures forall l | 0 <= l < |same| && IsLong(same, l) ::
              l + same[l] < i + 1 && IsRunAt(counts, omitPos, same, l)
  {
    forall l | 0 <= l < |same| && IsLong(same, l)
      ensures l + same[l] < i + 1 && IsRunAt(counts, omitPos, same, l)
    {
      if l != last {
        assert IsLong(before, l) && IsRunAt(counts, omitPos, before, l);
      }
    }
  }

  /** The log-counts, and the position behind the last count. */
  method ComputeLogCounts(counts: seq<nat>, omitPos: nat) returns (logcounts: seq<nat>, length: nat)
    requires omitPos < |counts| && counts[omitPos] > 0
    ensures logcounts == LogCountsOf(counts, omitPos) && length == |Trimmed(counts)|
  {
    length := 0;
    logcounts := Copies<nat>(0, |counts|);
    var omitLog := 0;
    for i := 0 to |counts|
      invariant |logcounts| == |counts| && omitLog == OmitLog(counts, omitPos, i)
      invariant forall k | 0 <= k < |counts| && k != omitPos :: logcounts[k] == if k < i then LogCount(counts[k]) else 0
      invariant length <= i && (length > 0 ==> counts[length - 1] > 0) && forall k | length <= k < i :: counts[k] == 0
    {
      hide LogCount;
      if i == omitPos {
        length := i + 1;
      } else if counts[i] > 0 {
        logcounts := logcounts[i := LogCount(counts[i])];
        length := i + 1;
        if i < omitPos {
          omitLog := Max(omitLog, logcounts[i] + 1);
        } else {
          omitLog := Max(omitLog, logcounts[i]);
        }
      } else {
        NoLog();
      }
    }
    logcounts := logcounts[omitPos := omitLog];
    TrimmedIs(counts, length);
  }

  lemma NoLog()
    ensures LogCount(0) == 0
  {
  }

  lemma Joined(start: seq<bool>, a: seq<bool>, b: seq<bool>)
    ensures start + (a + b) == start + a + b
  {
  }

  /** The log-counts with the static code, and the run lengths. */
  method WriteLogCounts(logcounts: seq<nat>, same: seq<nat>, length: nat, writer: BitWriter, ghost counts: seq<nat>,
                        ghost omitPos: nat)
    requires writer.Valid() && AreRunsOf(counts, omitPos, same) && length <= |logcounts| == |same|
    requires forall k | 0 <= k < length :: logcounts[k] < RLE_SYMBOL
    modifies writer
    ensures writer.Valid()
    ensures writer.Contents() == old(writer.Contents()) + LogBitsFrom(logcounts, same, length, 0)
  {
    hide BitWriter.Valid, BitWriter.Contents, LogBitsFrom, LogSymbolBits, VarLenBits, AreRunsOf;
    ghost var start := writer.Contents();
    var i := 0;
    while i < length
      invariant writer.Valid()
      invariant writer.Contents() + LogBitsFrom(logcounts, same, length, i)
             == start + LogBitsFrom(logcounts, same, length, 0)
      decreases length - i
    {
      RunBits(logcounts, same, length, i);
      ghost var before := writer.Contents();
      if i > 0 && same[i - 1] > 4 {
        RunLength(counts, omitPos, same, i);
        WriteLogSymbol(RLE_SYMBOL, writer);
        StoreVarLenUint8(same[i - 1] - 4 - 1, writer);
        Joined(before, LogSymbolBits(RLE_SYMBOL), VarLenBits(same[i - 1] - 5)
                                                  + LogBitsFrom(logcounts, same, length, i + same[i - 1] - 1));
        Joined(before + LogSymbolBits(RLE_SYMBOL), VarLenBits(same[i - 1] - 5),
               LogBitsFrom(logcounts, same, length, i + same[i - 1] - 1));
        i := i + same[i - 1] - 2;
      } else {
        WriteLogSymbol(logcounts[i], writer);
        Joined(before, LogSymbolBits(logcounts[i]), LogBitsFrom(logcounts, same, length, i + 1));
      }
      i := i + 1;
    }
    NoBits(logcounts, same, length, i);
  }

  lemma NoRawBits(counts: seq<nat>, logcounts: seq<nat>, same: seq<nat>, omitPos: nat, shift: nat, length: nat, i: nat)
    requires length <= |counts| == |logcounts| == |same| && i >= length
    ensures RawBitsFrom(counts, logcounts, same, omitPos, shift, length, i) == []
  {
  }

  /** The counts that neither repeat the one before nor are omitted. */
  method WriteRawCounts(counts: seq<nat>, logcounts: seq<nat>, same: seq<nat>, omitPos: nat, shift: nat, length: nat,
                        writer: BitWriter)
    requires writer.Valid() && IsPlan(counts, logcounts, same, omitPos, shift, length)
    modifies writer
    ensures writer.Valid()
    ensures writer.Contents() ==
            old(writer.Contents()) + RawBitsFrom(counts, logcounts, same, omitPos, shift, length, 0)
  {
    hide BitWriter.Valid, BitWriter.Contents, RawBitsFrom, CountBits, AreRunsOf, IsOmitted, IsRepresentable, LogCount;
    ghost var start := writer.Contents();
    var i := 0;
    while i < length
      invariant writer.Valid()
      invariant writer.Contents() + RawBitsFrom(counts, logcounts, same, omitPos, shift, length, i)
             == start + RawBitsFrom(counts, logcounts, same, omitPos, shift, length, 0)
      decreases length - i
    {
      RawNext(counts, logcounts, same, omitPos, shift, length, i);
      ghost var before, rest := writer.Contents(),
                                RawBitsFrom(counts, logcounts, same, omitPos, shift, length, i + 1);
      if i > 0 && same[i - 1] > 4 {
        i := i + same[i - 1] - 2;
      } else if i != omitPos {
        WriteCount(counts[i], logcounts[i], shift, writer);
        Joined(before, CountBits(counts[i], logcounts[i], shift), rest);
      } else {
        assert [] + rest == rest;
      }
      i := i + 1;
    }
    NoRawBits(counts, logcounts, same, omitPos, shift, length, i);
  }

  /** What is written: a mark for a small histogram, or for one that is neither small nor flat. */
  function HistogramBits(counts: seq<nat>, numSymbols: nat, symbols: (nat, nat), same: seq<nat>, omitPos: nat,
                         shift: nat): seq<bool>
    requires numSymbols > 2 ==>
               |same| == |counts| && forall k | 0 <= k < |counts| :: LogCountsOf(counts, omitPos)[k] < RLE_SYMBOL
  {
    if numSymbols <= 2 then FromNat(1, 1) + SmallBits(counts, numSymbols, symbols)
    else FromNat(0, 1) + (FromNat(0, 1) + GeneralBits(counts, same, omitPos, shift))
  }

  /** `EncodeCounts`, for counts that the alphabet of the decoder has room for. */
  method EncodeCounts(counts: seq<nat>, omitPos: nat, numSymbols: nat, shift: nat, symbols: (nat, nat),
                      writer: BitWriter)
    returns (ghost same: seq<nat>)
    requires writer.Valid()
    requires if numSymbols <= 2 then AreSymbols(counts, numSymbols, symbols) && |counts| <= 256
             else CanWrite(counts, omitPos, shift) && |Trimmed(counts)| <= 258
    modifies writer
    ensures writer.Valid()
    ensures numSymbols > 2 ==> AreRunsOf(counts, omitPos, same)
                               && IsOmitted(LogCountsOf(counts, omitPos), omitPos, |counts|)
    ensures writer.Contents() ==
            old(writer.Contents()) + HistogramBits(counts, numSymbols, symbols, same, omitPos, shift)
  {
    same := [];
    if numSymbols <= 2 {
      WriteSmall(counts, numSymbols, symbols, writer);
    } else {
      OmittedIs(counts, omitPos, shift);
      same := WriteGeneral(counts, omitPos, shift, writer);
    }
  }

  method WriteSmall(counts: seq<nat>, numSymbols: nat, symbols: (nat, nat), writer: BitWriter)
    requires writer.Valid() && numSymbols <= 2 && AreSymbols(counts, numSymbols, symbols) && |counts| <= 256
    modifies writer
    ensures writer.Valid()
    ensures writer.Contents() == old(writer.Contents()) + (FromNat(1, 1) + SmallBits(counts, numSymbols, symbols))
  {
    OneAndZero();
    hide BitWriter.Valid, BitWriter.Contents, FromNat, VarLenBits, Pow2;
    writer.Write(1, 1);
    if numSymbols == 0 {
      writer.Write(1, 0);
      StoreVarLenUint8(0, writer);
    } else {
      writer.Write(1, numSymbols - 1);
      StoreVarLenUint8(symbols.0, writer);
      if numSymbols == 2 {
        StoreVarLenUint8(symbols.1, writer);
        writer.Write(ANS_LOG_TAB_SIZE, counts[symbols.0]);
      }
    }
  }

  method WriteGeneral(counts: seq<nat>, omitPos: nat, shift: nat, writer: BitWriter) returns (ghost same: seq<nat>)
    requires writer.Valid() && CanWrite(counts, omitPos, shift) && |Trimmed(counts)| <= 258
    requires IsOmitted(LogCountsOf(counts, omitPos), omitPos, |counts|)
    modifies writer
    ensures writer.Valid() && AreRunsOf(counts, omitPos, same)
    ensures writer.Contents() ==
            old(writer.Contents()) + (FromNat(0, 1) + (FromNat(0, 1) + GeneralBits(counts, same, omitPos, shift)))
  {
    assert omitPos < |counts| && counts[omitPos] > 0;
    hide BitWriter.Valid, BitWriter.Contents, FromNat, VarLenBits, ShiftBits, LogBitsFrom, RawBitsFrom, CanWrite,
         IsPlan, LogCountsOf, AreRunsOf, Trimmed, IsOmitted, GeneralBits;
    ShiftFits(counts, omitPos, shift);
    var runs := ComputeRuns(counts, omitPos);
    var logcounts, length := ComputeLogCounts(counts, omitPos);
    IsPlanned(counts, runs, omitPos, shift);
    GeneralBitsAre(counts, runs, omitPos, shift);
    same := runs;
    WriteParts(counts, logcounts, runs, omitPos, shift, length, writer);
  }

  lemma GeneralBitsAre(counts: seq<nat>, same: seq<nat>, omitPos: nat, shift: nat)
    requires CanWrite(counts, omitPos, shift) && AreRunsOf(counts, omitPos, same) && |Trimmed(counts)| >= 3
    requires IsOmitted(LogCountsOf(counts, omitPos), omitPos, |counts|)
    ensures |same| == |counts| && |Trimmed(counts)| <= |counts|
    ensures var length, logcounts := |Trimmed(counts)|, LogCountsOf(counts, omitPos);
            GeneralBits(counts, same, omitPos, shift) ==
            ShiftBits(shift) + (VarLenBits(length - 3) + (LogBitsFrom(logcounts, same, length, 0)
              + RawBitsFrom(counts, logcounts, same, omitPos, shift, length, 0)))
  {
    hide VarLenBits, ShiftBits, LogBitsFrom, RawBitsFrom, CanWrite, LogCountsOf, Trimmed;
  }

  lemma PlanSizes(counts: seq<nat>, logcounts: seq<nat>, same: seq<nat>, omitPos: nat, shift: nat, length: nat)
    requires IsPlan(counts, logcounts, same, omitPos, shift, length)
    ensures length <= |counts| == |logcounts| == |same| && AreRunsOf(counts, omitPos, same)
    ensures forall k | 0 <= k < length :: logcounts[k] < RLE_SYMBOL
  {
    hide AreRunsOf, IsRepresentable, LogCount, IsLong;
  }

  method WriteParts(counts: seq<nat>, logcounts: seq<nat>, same: seq<nat>, omitPos: nat, shift: nat, length: nat,
                    writer: BitWriter)
    requires writer.Valid() && IsPlan(counts, logcounts, same, omitPos, shift, length)
    requires 3 <= length <= 258 && shift <= ANS_LOG_TAB_SIZE + 1
    requires length <= |counts| == |logcounts| == |same| && forall k | 0 <= k < length :: logcounts[k] < RLE_SYMBOL
    modifies writer
    ensures writer.Valid()
    ensures writer.Contents() == old(writer.Contents()) + (FromNat(0, 1) + (FromNat(0, 1) +
              (ShiftBits(shift) + (VarLenBits(length - 3) + (LogBitsFrom(logcounts, same, length, 0)
                + RawBitsFrom(counts, logcounts, same, omitPos, shift, length, 0))))))
  {
    hide BitWriter.Valid, BitWriter.Contents, FromNat, VarLenBits, ShiftBits, LogBitsFrom, RawBitsFrom, IsPlan, Pow2,
         AreRunsOf;
    OneAndZero();
    PlanSizes(counts, logcounts, same, omitPos, shift, length);
    ghost var start := writer.Contents();
    writer.Write(1, 0);
    writer.Write(1, 0);
    WriteShift(shift, writer);
    StoreVarLenUint8(length - 3, writer);
    WriteLogCounts(logcounts, same, length, writer, counts, omitPos);
    WriteRawCounts(counts, logcounts, same, omitPos, shift, length, writer);
    WrittenParts(start, FromNat(0, 1), ShiftBits(shift), VarLenBits(length - 3),
                 LogBitsFrom(logcounts, same, length, 0),
                 RawBitsFrom(counts, logcounts, same, omitPos, shift, length, 0));
  }

  lemma WrittenParts(start: seq<bool>, mark: seq<bool>, a: seq<bool>, b: seq<bool>, c: seq<bool>, d: seq<bool>)
    ensures start + mark + mark + a + b + c + d == start + (mark + (mark + (a + (b + (c + d)))))
  {
  }

  method EncodeFlatHistogram(alphabetSize: nat, writer: BitWriter)
    requires 0 < alphabetSize <= 256 && writer.Valid()
    modifies writer
    ensures writer.Valid()
    ensures writer.Contents() == old(writer.Contents()) + FlatBits(alphabetSize)
  {
    OneAndZero();
    hide BitWriter.Valid, BitWriter.Contents, FromNat, VarLenBits, Pow2;
    writer.Write(1, 0);
    writer.Write(1, 1);
    StoreVarLenUint8(alphabetSize - 1, writer);
  }

  function FlatBits(alphabetSize: nat): seq<bool>
    requires alphabetSize > 0
  {
    FromNat(0, 1) + (FromNat(1, 1) + VarLenBits(alphabetSize - 1))
  }

  // ----- reading back -----

  lemma MarkedSmall(s: seq<bool>, pos: nat, small: seq<bool>)
    requires HoldsAt(s, pos, FromNat(1, 1) + small)
    ensures HoldsAt(s, pos + 1, small) && HistogramAt(s, pos) == SimpleAt(s, pos + 1)
  {
    OneAndZero();
    hide HoldsAt, NumberAt, FromNat, SimpleAt, GeneralAt, Pow2;
    HoldsAtSplit(s, pos, FromNat(1, 1), small);
    HeldNumber(s, pos, 1, 1);
  }

  lemma MarkedGeneral(s: seq<bool>, pos: nat, general: seq<bool>)
    requires HoldsAt(s, pos, FromNat(0, 1) + (FromNat(0, 1) + general))
    ensures HoldsAt(s, pos + 2, general) && HistogramAt(s, pos) == GeneralAt(s, pos + 2)
  {
    OneAndZero();
    hide HoldsAt, NumberAt, FromNat, SimpleAt, GeneralAt, Pow2;
    HoldsAtSplit(s, pos, FromNat(0, 1), FromNat(0, 1) + general);
    HoldsAtSplit(s, pos + 1, FromNat(0, 1), general);
    HeldNumber(s, pos, 0, 1);
    HeldNumber(s, pos + 1, 0, 1);
  }

  lemma NormalizedIs(counts: seq<nat>, omitPos: nat, shift: nat)
    requires CanWrite(counts, omitPos, shift)
    ensures Normalized(counts) == Trimmed(counts)
  {
    LongEnough(counts, omitPos, shift);
    hide Trimmed;
  }

  /** In front of what is written for any counts, the reader gets these counts without the zeros at the end, and
      stops behind it; for no counts at all it gets a single symbol 0. */
  lemma CountsReadBack(s: seq<bool>, pos: nat, counts: seq<nat>, numSymbols: nat, symbols: (nat, nat), same: seq<nat>,
                       omitPos: nat, shift: nat)
    requires if numSymbols <= 2 then AreSymbols(counts, numSymbols, symbols) && |counts| <= 256
             else CanWrite(counts, omitPos, shift) && |Trimmed(counts)| <= 258
    requires numSymbols > 2 ==> AreRunsOf(counts, omitPos, same)
                                && IsOmitted(LogCountsOf(counts, omitPos), omitPos, |counts|)
    requires HoldsAt(s, pos, HistogramBits(counts, numSymbols, symbols, same, omitPos, shift))
    ensures HistogramAt(s, pos) ==
            Some(Counted(Normalized(counts),
                         pos + |HistogramBits(counts, numSymbols, symbols, same, omitPos, shift)|))
  {
    hide HoldsAt, SmallBits, GeneralBits, SimpleAt, GeneralAt, HistogramAt, Trimmed, Normalized, CanWrite, AreSymbols,
         LogCountsOf;
    if numSymbols <= 2 {
      MarkedSmall(s, pos, SmallBits(counts, numSymbols, symbols));
      SmallHeld(s, pos + 1, counts, numSymbols, symbols);
    } else {
      MarkedGeneral(s, pos, GeneralBits(counts, same, omitPos, shift));
      GeneralHeld(s, pos + 2, counts, same, omitPos, shift);
      NormalizedIs(counts, omitPos, shift);
    }
  }

  lemma FlatReadsBack(s: seq<bool>, pos: nat, alphabetSize: nat)
    requires 0 < alphabetSize <= 256 && HoldsAt(s, pos, FlatBits(alphabetSize))
    ensures HistogramAt(s, pos) ==
            Some(Counted(FlatCounts(alphabetSize, ANS_TAB_SIZE), pos + |FlatBits(alphabetSize)|))
  {
    OneAndZero();
    hide HoldsAt, NumberAt, FromNat, VarLenBits, VarLenAt, Pow2;
    HoldsAtSplit(s, pos, FromNat(0, 1), FromNat(1, 1) + VarLenBits(alphabetSize - 1));
    HoldsAtSplit(s, pos + 1, FromNat(1, 1), VarLenBits(alphabetSize - 1));
    HeldNumber(s, pos, 0, 1);
    HeldNumber(s, pos + 1, 1, 1);
    VarLenHeld(s, pos + 2, alphabetSize - 1);
  }
}
