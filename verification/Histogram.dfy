/** Reading a distribution from the stream (lib/jxl/dec_ans.cc:25-186, lib/jxl/ans_common.cc:15-25,
lib/jxl/ans_common.h:22-30).

Whatever bits it is given, `ReadHistogram` either fails or returns nonnegative counts that sum to
4096, which is all that `InitAliasTable` asks for.
 */
module Histogram {
  import opened Bits
  import opened BitReading
  import opened Sums
  import opened AliasTable
  import opened UintConfigs
  import opened Sequences

  // ----- flat histograms -----

  /** Counts of equal size, the first ones larger by one if the total is not a multiple. */
  function FlatCounts(length: nat, totalCount: nat): (counts: seq<nat>)
    requires length > 0
    ensures |counts| == length
  {
    seq(length, k => totalCount / length + if k < totalCount % length then 1 else 0)
  }

  /** The counts are positive, add up to the total, and differ by at most one, larger ones first. */
  method CreateFlatHistogram(length: nat, totalCount: nat) returns (result: seq<nat>)
    requires 0 < length <= totalCount
    ensures |result| == length && Sum(result) == totalCount && result == FlatCounts(length, totalCount)
    ensures forall i, j | 0 <= i <= j < length :: 0 < result[j] <= result[i] <= result[j] + 1
  {
    var count := totalCount / length;
    DivMod(totalCount, length);
    QuotientAtLeast(totalCount, length, 1);
    result := seq(length, _ => count);
    SumConstant(result, count);
    var remCounts := totalCount % length;
    assert Sum(result) == length * count;
    for i := 0 to remCounts
      invariant |result| == length && Sum(result) == length * count + i
      invariant forall k | 0 <= k < length :: result[k] == if k < i then count + 1 else count
    {
      SumUpdate(result, i, result[i] + 1);
      result := result[i := result[i] + 1];
    }
  }

  // ----- the small codes -----

  /** A number in the stream and where it ends. */
  datatype Num = Num(value: nat, end: nat)

  /** A number in [0, 255]: a bit for zero, the magnitude in three bits, and the bits below the highest one. */
  function VarLenAt(s: seq<bool>, pos: nat): Num {
    if NumberAt(s, pos, 1) == 0 then Num(0, pos + 1)
    else
      var nbits := NumberAt(s, pos + 1, 3);
      if nbits == 0 then Num(1, pos + 4) else Num(NumberAt(s, pos + 4, nbits) + Pow2(nbits), pos + 4 + nbits)
  }

  method DecodeVarLenUint8(input: BitReader) returns (n: nat)
    requires input.Valid()
    modifies input
    ensures input.Valid() && n < 256
    ensures Num(n, input.Position()) == VarLenAt(ToBits(input.data), old(input.Position()))
  {
    hide NumberAt, Buffered, ToBits;
    var more := input.ReadBits(1);
    if more == 0 {
      return 0;
    }
    NumberBound(ToBits(input.data), input.Position(), 3);
    var nbits := input.ReadBits(3);
    if nbits == 0 {
      return 1;
    }
    NumberBound(ToBits(input.data), input.Position(), nbits);
    Pow2Small();
    Pow2Monotone(nbits, 7);
    var low := input.ReadBits(nbits);
    return low + Pow2(nbits);
  }

  lemma NumberBound(s: seq<bool>, pos: nat, n: nat)
    ensures NumberAt(s, pos, n) < Pow2(n)
  {
    ToNatBound(Stream(s, pos, n));
  }

  /** The precision with which a count of magnitude `logcount` is stored. */
  function GetPopulationCountPrecision(logcount: nat, shift: nat): (bits: nat)
    requires logcount <= ANS_LOG_TAB_SIZE
    ensures bits <= logcount
  {
    var r := shift - (ANS_LOG_TAB_SIZE - logcount) / 2;
    var least := if logcount < r then logcount else r;
    if least < 0 then 0 else least
  }

  const RLE_SYMBOL: nat := ANS_LOG_TAB_SIZE + 1

  /** The 128-entry table of code lengths and log-counts, indexed by the next seven bits. */
  function HuffEntry(idx: nat): (e: (nat, nat))
    ensures 3 <= e.0 <= 7 && e.1 <= RLE_SYMBOL
  {
    if idx % 8 == 0 then (3, 10)
    else if idx % 8 == 2 then (3, 7)
    else if idx % 8 == 4 then (3, 6)
    else if idx % 8 == 5 then (3, 8)
    else if idx % 8 == 6 then (3, 9)
    else if idx % 16 == 3 then (4, 3)
    else if idx % 16 == 7 then (4, 5)
    else if idx % 16 == 9 then (4, 4)
    else if idx % 16 == 11 then (4, 1)
    else if idx % 16 == 15 then (4, 2)
    else if idx % 32 == 17 then (5, 0)
    else if idx % 64 == 33 then (6, 11)
    else if idx % 128 == 1 then (7, 12)
    else (7, 13)
  }

  // ----- runs of equal counts -----

  /** What `numsame` is when the second loop reaches position `i`. */
  function NumSame(same: seq<nat>, i: nat): nat
    requires i <= |same|
  {
    if i == 0 then 0
    else
      var n := if same[i - 1] > 0 then same[i - 1] - 1 else NumSame(same, i - 1);
      if n > 0 then n - 1 else 0
  }

  /** Position `i` takes a count of its own rather than repeating its predecessor. */
  ghost predicate StandsAlone(same: seq<nat>, i: nat) {
    i < |same| && same[i] == 0 && NumSame(same, i) == 0
  }

  /** Run lengths, shifted by one so that zero means no run, are at least four. */
  ghost predicate AreRuns(same: seq<nat>) {
    forall k | 0 <= k < |same| :: same[k] == 0 || same[k] >= 5
  }

  lemma {:induction false} NumSamePrefix(a: seq<nat>, b: seq<nat>, i: nat)
    requires i <= |a| && i <= |b| && a[..i] == b[..i]
    ensures NumSame(a, i) == NumSame(b, i)
  {
    if i > 0 {
      assert a[i - 1] == a[..i][i - 1] == b[..i][i - 1] == b[i - 1];
      assert a[..i - 1] == a[..i][..i - 1] == b[..i][..i - 1] == b[..i - 1];
      NumSamePrefix(a, b, i - 1);
    }
  }

  /** A run that starts at `i` has died out `rle + 4` positions later. */
  lemma {:induction false} RunDiesOut(same: seq<nat>, i: nat, rle: nat, t: nat)
    requires i < |same| && same[i] == rle + 5 && 1 <= t <= rle + 4 && i + t <= |same|
    requires forall k | i < k < |same| :: same[k] == 0
    ensures NumSame(same, i + t) == rle + 4 - t
    decreases t
  {
    if t > 1 {
      RunDiesOut(same, i, rle, t - 1);
    }
  }

  /** Where the first loop stands: no run reaches past `i`, and the position of the largest
      log-count so far stands alone. */
  ghost predicate RunsEndBefore(same: seq<nat>, i: nat, omitPos: int) {
    && (i <= |same| ==> NumSame(same, i) == 0)
    && (forall k | i <= k < |same| :: same[k] == 0)
    && -1 <= omitPos < i
    && (omitPos >= 0 ==> StandsAlone(same, omitPos))
  }

  lemma RunsStep(same: seq<nat>, i: nat, omitPos: int, rle: nat)
    requires i < |same| && RunsEndBefore(same, i, omitPos)
    ensures RunsEndBefore(same[i := rle + 5], i + rle + 4, omitPos)
  {
    var same': seq<nat> := same[i := rle + 5];
    if i + rle + 4 <= |same'| {
      RunDiesOut(same', i, rle, rle + 4);
    }
    if omitPos >= 0 {
      NumSamePrefix(same, same', omitPos);
    }
  }

  /** Log-counts, run lengths, the largest log-count and its first position, and how far the stream has been read. */
  datatype Logs = Logs(logcounts: seq<nat>, same: seq<nat>, omitLog: int, omitPos: int, pos: nat)

  /** One log-count or run, and the next position. */
  function LogStep(s: seq<bool>, st: Logs, i: nat): (r: (Logs, nat))
    requires i < |st.logcounts| == |st.same|
    ensures |r.0.logcounts| == |r.0.same| == |st.same| && i < r.1
  {
    var entry := HuffEntry(NumberAt(s, st.pos, 7));
    var logs, pos := st.logcounts[i := entry.1], st.pos + entry.0;
    if entry.1 == RLE_SYMBOL then
      var rle := VarLenAt(s, pos);
      (Logs(logs, st.same[i := rle.value + 5], st.omitLog, st.omitPos, rle.end), i + rle.value + 4)
    else if entry.1 > st.omitLog then (Logs(logs, st.same, entry.1, i, pos), i + 1)
    else (Logs(logs, st.same, st.omitLog, st.omitPos, pos), i + 1)
  }

  /** The log-counts and runs from position `i` on. */
  function LogsFrom(s: seq<bool>, st: Logs, i: nat): (r: Logs)
    requires |st.logcounts| == |st.same|
    ensures |r.logcounts| == |r.same| == |st.same|
    decreases |st.same| - i
  {
    if i >= |st.same| then st
    else
      var next := LogStep(s, st, i);
      LogsFrom(s, next.0, next.1)
  }

  function NoLogs(length: nat, pos: nat): (st: Logs)
    ensures |st.logcounts| == |st.same| == length
  {
    Logs(seq(length, _ => 0), seq(length, _ => 0), -1, -1, pos)
  }

  /** Recording a run at `i` does not change who stands alone before it, and nobody inside it does. */
  lemma OthersUnchanged(before: seq<nat>, same: seq<nat>, i: nat, rle: nat)
    requires i < |before| && same == before[i := rle + 5]
    requires forall k | i <= k < |before| :: before[k] == 0
    ensures forall k: nat | k < i && StandsAlone(same, k) :: StandsAlone(before, k)
    ensures forall k: nat | i <= k < i + rle + 4 :: !StandsAlone(same, k)
  {
    forall k: nat | k < i && StandsAlone(same, k) ensures StandsAlone(before, k) {
      NumSamePrefix(before, same, k);
    }
    forall k: nat | i <= k < i + rle + 4 ensures !StandsAlone(same, k) {
      if i < k < |same| {
        RunDiesOut(same, i, rle, k - i);
      }
    }
  }

  /** What holds of the log-counts and runs before position `i`. */
  ghost predicate LogsOk(st: Logs, i: nat) {
    && |st.logcounts| == |st.same| && RunsEndBefore(st.same, i, st.omitPos) && AreRuns(st.same)
    && st.omitPos < |st.same|
    && (forall k | 0 <= k < |st.same| :: st.logcounts[k] <= RLE_SYMBOL)
    && (forall k | i <= k < |st.same| :: st.logcounts[k] == 0)
    && (if st.omitPos >= 0 then st.omitLog == st.logcounts[st.omitPos] else st.omitLog == -1)
    && (forall k: nat | k < st.omitPos && StandsAlone(st.same, k) :: st.logcounts[k] < st.omitLog)
    && forall k: nat | k < i && StandsAlone(st.same, k) ::
         st.logcounts[k] <= st.omitLog && st.logcounts[k] < RLE_SYMBOL
  }

  lemma RunOk(st: Logs, i: nat, rle: nat, pos: nat)
    requires LogsOk(st, i) && i < |st.same|
    ensures LogsOk(Logs(st.logcounts[i := RLE_SYMBOL], st.same[i := rle + 5], st.omitLog, st.omitPos, pos), i + rle + 4)
  {
    RunsStep(st.same, i, st.omitPos, rle);
    OthersUnchanged(st.same, st.same[i := rle + 5], i, rle);
    hide NumSame;
  }

  lemma LogOk(st: Logs, i: nat, log: nat, pos: nat)
    requires LogsOk(st, i) && i < |st.same| && log < RLE_SYMBOL
    ensures log > st.omitLog ==> LogsOk(Logs(st.logcounts[i := log], st.same, log, i, pos), i + 1)
    ensures log <= st.omitLog ==> LogsOk(Logs(st.logcounts[i := log], st.same, st.omitLog, st.omitPos, pos), i + 1)
  {
    assert StandsAlone(st.same, i);
    assert NumSame(st.same, i + 1) == 0;
    hide NumSame;
  }

  lemma LogStepOk(s: seq<bool>, st: Logs, i: nat)
    requires LogsOk(st, i) && i < |st.same| == |st.logcounts|
    ensures LogsOk(LogStep(s, st, i).0, LogStep(s, st, i).1)
  {
    hide LogsOk, NumberAt, VarLenAt;
    var entry := HuffEntry(NumberAt(s, st.pos, 7));
    var pos := st.pos + entry.0;
    if entry.1 == RLE_SYMBOL {
      RunOk(st, i, VarLenAt(s, pos).value, VarLenAt(s, pos).end);
    } else {
      LogOk(st, i, entry.1, pos);
    }
  }

  lemma {:induction false} LogsFromOk(s: seq<bool>, st: Logs, i: nat) returns (n: nat)
    requires LogsOk(st, i) && |st.logcounts| == |st.same|
    ensures n >= |st.same| && LogsOk(LogsFrom(s, st, i), n)
    decreases |st.same| - i
  {
    hide LogsOk, LogStep;
    n := i;
    if i < |st.same| {
      LogStepOk(s, st, i);
      n := LogsFromOk(s, LogStep(s, st, i).0, LogStep(s, st, i).1);
    }
  }

  /** What the second loop is given. */
  ghost predicate LogsDone(logcounts: seq<nat>, same: seq<nat>, omitPos: int) {
    && |logcounts| == |same| && (forall k | 0 <= k < |same| :: logcounts[k] <= RLE_SYMBOL)
    && omitPos < |same| && (omitPos >= 0 ==> StandsAlone(same, omitPos))
    && AreRuns(same) && (forall k: nat | StandsAlone(same, k) :: logcounts[k] < RLE_SYMBOL)
    && forall k: nat | StandsAlone(same, k) && omitPos >= 0 ::
         if k < omitPos then logcounts[k] < logcounts[omitPos] else logcounts[k] <= logcounts[omitPos]
  }

  lemma LogsAreDone(s: seq<bool>, length: nat, pos: nat)
    ensures var r := LogsFrom(s, NoLogs(length, pos), 0); LogsDone(r.logcounts, r.same, r.omitPos)
  {
    var n := LogsFromOk(s, NoLogs(length, pos), 0);
    hide LogsFrom, NumSame;
  }

  lemma LogsNext(s: seq<bool>, st: Logs, i: nat)
    requires i < |st.logcounts| == |st.same|
    ensures LogsFrom(s, st, i) == LogsFrom(s, LogStep(s, st, i).0, LogStep(s, st, i).1)
  {
  }

  /** One round of the first loop. */
  method ReadLog(input: BitReader, logcounts0: seq<nat>, same0: seq<nat>, omitLog0: int, omitPos0: int, i0: nat)
    returns (logcounts: seq<nat>, same: seq<nat>, omitLog: int, omitPos: int, i: nat)
    requires input.Valid() && i0 < |logcounts0| == |same0|
    modifies input
    ensures input.Valid()
    ensures (Logs(logcounts, same, omitLog, omitPos, input.Position()), i) ==
            LogStep(ToBits(input.data), Logs(logcounts0, same0, omitLog0, omitPos0, old(input.Position())), i0)
  {
    hide NumberAt, Buffered, ToBits, HuffEntry, VarLenAt;
    same, omitLog, omitPos, i := same0, omitLog0, omitPos0, i0;
    input.Refill();
    var idx := input.PeekBits(7);
    input.Consume(HuffEntry(idx).0);
    logcounts := logcounts0[i := HuffEntry(idx).1];
    if logcounts[i] == RLE_SYMBOL {
      var rleLength := DecodeVarLenUint8(input);
      same := same[i := rleLength + 5];
      i := i + rleLength + 3;
    } else if logcounts[i] > omitLog {
      omitLog := logcounts[i];
      omitPos := i;
    }
    i := i + 1;
  }

  /** The first loop: log-counts, run lengths and the position of the omitted count. */
  method ReadLogCounts(input: BitReader, length: nat) returns (logcounts: seq<nat>, same: seq<nat>, omitPos: int)
    requires input.Valid()
    modifies input
    ensures input.Valid() && |logcounts| == length && LogsDone(logcounts, same, omitPos)
    ensures var logs := LogsFrom(ToBits(input.data), NoLogs(length, old(input.Position())), 0);
            (logcounts, same, omitPos, input.Position()) == (logs.logcounts, logs.same, logs.omitPos, logs.pos)
  {
    ghost var s, start := ToBits(input.data), NoLogs(length, input.Position());
    LogsAreDone(s, length, input.Position());
    hide NumberAt, Buffered, ToBits, LogsDone, LogStep;
    logcounts := seq(length, _ => 0);
    same := seq(length, _ => 0);
    var omitLog: int := -1;
    omitPos := -1;
    var i := 0;
    while i < length
      invariant input.Valid() && |logcounts| == |same| == length
      invariant LogsFrom(s, Logs(logcounts, same, omitLog, omitPos, input.Position()), i) == LogsFrom(s, start, 0)
    {
      LogsNext(s, Logs(logcounts, same, omitLog, omitPos, input.Position()), i);
      hide LogsFrom;
      logcounts, same, omitLog, omitPos, i := ReadLog(input, logcounts, same, omitLog, omitPos, i);
    }
  }

  // ----- the counts -----

  /** A count of magnitude `code` (0 for absent) whose raw bits leave the lowest ones clear. */
  ghost predicate HasMagnitude(count: nat, code: nat) {
    if code == 0 then count == 0 else Pow2(code - 1) <= count < Pow2(code)
  }

  /** What the counts are, position by position: the omitted one aside, each is either of its own
      magnitude or a repetition of its predecessor. */
  ghost predicate Explained(counts: seq<nat>, logcounts: seq<nat>, same: seq<nat>, omitPos: nat, i: nat) {
    |counts| == |logcounts| == |same| && i <= |counts| && omitPos < |counts| &&
    forall k: nat | k < i && k != omitPos :: ExplainedAt(counts, logcounts, same, omitPos, k)
  }

  ghost predicate ExplainedAt(counts: seq<nat>, logcounts: seq<nat>, same: seq<nat>, omitPos: nat, k: nat)
    requires k < |counts| == |logcounts| == |same|
  {
    if StandsAlone(same, k) then HasMagnitude(counts[k], logcounts[k])
    else counts[k] == Previous(counts, omitPos, k)
  }

  /** The count that a run repeats at `k`; the omitted one still counts as zero. */
  function Previous(counts: seq<nat>, omitPos: nat, k: nat): nat
    requires k < |counts|
  {
    if k == 0 || k - 1 == omitPos then 0 else counts[k - 1]
  }

  lemma MagnitudeOfParts(code: nat, bitcount: nat, raw: nat)
    requires code > 0 && bitcount <= code - 1 && raw < Pow2(bitcount)
    ensures HasMagnitude(Pow2(code - 1) + Shl(raw, code - 1 - bitcount), code)
  {
    ShlBelow(raw, bitcount, code - 1 - bitcount);
  }

  /** A count of its own: 1, or a power of two plus the raw bits the precision allows. */
  function CountAt(s: seq<bool>, pos: nat, code: nat, shift: nat): Num {
    if code <= 1 || code >= RLE_SYMBOL then Num(if code == 1 then 1 else 0, pos)
    else
      var bitcount := GetPopulationCountPrecision(code - 1, shift);
      Num(Pow2(code - 1) + Shl(NumberAt(s, pos, bitcount), code - 1 - bitcount), pos + bitcount)
  }

  method ReadCount(input: BitReader, code: nat, shift: nat) returns (count: nat)
    requires input.Valid() && code < RLE_SYMBOL
    modifies input
    ensures input.Valid() && HasMagnitude(count, code)
    ensures Num(count, input.Position()) == CountAt(ToBits(input.data), old(input.Position()), code, shift)
  {
    if code == 0 {
      return 0;
    } else if code == 1 {
      return 1;
    }
    hide NumberAt, Buffered, ToBits;
    var bitcount := GetPopulationCountPrecision(code - 1, shift);
    NumberBound(ToBits(input.data), input.Position(), bitcount);
    var raw := input.ReadBits(bitcount);
    MagnitudeOfParts(code, bitcount, raw);
    return Pow2(code - 1) + Shl(raw, code - 1 - bitcount);
  }

  /** The counts so far, their total, the count to repeat and how often, and how far the stream has been read. */
  datatype Tally = Tally(counts: seq<nat>, total: nat, prev: nat, numsame: nat, pos: nat)

  /** One count. */
  function TallyStep(s: seq<bool>, logcounts: seq<nat>, same: seq<nat>, omitPos: nat, shift: nat, st: Tally, i: nat)
    : (r: Tally)
    requires i < |st.counts| == |logcounts| == |same|
    ensures |r.counts| == |st.counts|
  {
    var numsame := if same[i] > 0 then same[i] - 1 else st.numsame;
    var prev := if same[i] == 0 then st.prev else if i > 0 then st.counts[i - 1] else 0;
    if numsame > 0 then Tally(st.counts[i := prev], st.total + prev, prev, numsame - 1, st.pos)
    else if i == omitPos then Tally(st.counts, st.total, prev, 0, st.pos)
    else
      var count := CountAt(s, st.pos, logcounts[i], shift);
      Tally(st.counts[i := count.value], st.total + count.value, prev, 0, count.end)
  }

  /** The counts up to position `i`. */
  function TallyUpTo(s: seq<bool>, logcounts: seq<nat>, same: seq<nat>, omitPos: nat, shift: nat, pos: nat, i: nat)
    : (r: Tally)
    requires i <= |logcounts| == |same|
    ensures |r.counts| == |same|
  {
    if i == 0 then Tally(seq(|same|, _ => 0), 0, 0, 0, pos)
    else TallyStep(s, logcounts, same, omitPos, shift, TallyUpTo(s, logcounts, same, omitPos, shift, pos, i - 1), i - 1)
  }

  /** The second loop: all counts but the omitted one, and their total. */
  method ReadCounts(input: BitReader, logcounts: seq<nat>, same: seq<nat>, omitPos: nat, shift: nat)
    returns (counts: seq<nat>, totalCount: nat)
    requires input.Valid() && |logcounts| == |same| && StandsAlone(same, omitPos)
    requires forall k: nat | StandsAlone(same, k) :: logcounts[k] < RLE_SYMBOL
    requires AreRuns(same)
    modifies input
    ensures input.Valid() && |counts| == |same| && counts[omitPos] == 0 && totalCount == Sum(counts)
    ensures Explained(counts, logcounts, same, omitPos, |counts|)
    ensures var all := TallyUpTo(ToBits(input.data), logcounts, same, omitPos, shift, old(input.Position()), |same|);
            (counts, totalCount, input.Position()) == (all.counts, all.total, all.pos)
  {
    counts := seq(|same|, _ => 0);
    SumConstant(counts, 0);
    totalCount := 0;
    var prev, numsame := 0, 0;
    ghost var s, start := ToBits(input.data), input.Position();
    for i := 0 to |same|
      invariant input.Valid() && |counts| == |same| && counts[omitPos] == 0
      invariant totalCount == Sum(counts) && numsame == NumSame(same, i)
      invariant forall k | i <= k < |counts| :: counts[k] == 0
      invariant numsame > 0 ==> i > 0 && i - 1 != omitPos && prev == counts[i - 1]
      invariant Explained(counts, logcounts, same, omitPos, i)
      invariant Tally(counts, totalCount, prev, numsame, input.Position())
             == TallyUpTo(s, logcounts, same, omitPos, shift, start, i)
    {
      hide NumberAt, Buffered, ToBits, HasMagnitude, Sum, CountAt, Explained;
      ghost var before := counts;
      if same[i] > 0 {
        numsame := same[i] - 1;
        prev := if i > 0 then counts[i - 1] else 0;
      }
      var count;
      if numsame > 0 {
        count := prev;
        numsame := numsame - 1;
      } else if i == omitPos {
        continue;
      } else {
        count := ReadCount(input, logcounts[i], shift);
      }
      SumUpdate(counts, i, count);
      counts := counts[i := count];
      totalCount := totalCount + count;
      ExplainedStep(before, counts, logcounts, same, omitPos, i);
    }
  }

  lemma ExplainedStep(before: seq<nat>, counts: seq<nat>, logcounts: seq<nat>, same: seq<nat>, omitPos: nat, i: nat)
    requires Explained(before, logcounts, same, omitPos, i) && i < |before|
    requires |counts| == |before| && counts == before[i := counts[i]] && i != omitPos
    requires ExplainedAt(counts, logcounts, same, omitPos, i)
    ensures Explained(counts, logcounts, same, omitPos, i + 1)
  {
    forall k: nat | k < i + 1 && k != omitPos ensures ExplainedAt(counts, logcounts, same, omitPos, k) {
      if k < i {
        assert ExplainedAt(before, logcounts, same, omitPos, k);
      }
    }
  }

  // ----- the whole histogram -----

  /** Counts and where they end in the stream. */
  datatype Counted = Counted(counts: seq<nat>, end: nat)

  function GeneralAt(s: seq<bool>, pos: nat): Option<Counted> {
    var shift := ShiftAt(s, pos);
    if shift.value > ANS_LOG_TAB_SIZE + 1 then None
    else
      var length := VarLenAt(s, shift.end);
      var logs := LogsFrom(s, NoLogs(length.value + 3, length.end), 0);
      if logs.omitPos < 0 || logs.omitPos >= |logs.same| then None
      else
        var all := TallyUpTo(s, logs.logcounts, logs.same, logs.omitPos, shift.value, logs.pos, |logs.same|);
        if all.total >= ANS_TAB_SIZE then None
        else Some(Counted(all.counts[logs.omitPos := ANS_TAB_SIZE - all.total], all.pos))
  }

  /** One symbol with all the weight, or the first of two with `count`. */
  function Single(symbol: nat): (counts: seq<nat>)
    ensures |counts| == symbol + 1
  {
    seq(symbol + 1, k => if k == symbol then ANS_TAB_SIZE else 0)
  }

  function Pair(symbol0: nat, symbol1: nat, count: nat): (counts: seq<nat>)
    requires count <= ANS_TAB_SIZE
    ensures |counts| == Max(symbol0, symbol1) + 1
  {
    seq(Max(symbol0, symbol1) + 1,
        k => if k == symbol0 then count else if k == symbol1 then ANS_TAB_SIZE - count else 0)
  }

  function SimpleAt(s: seq<bool>, pos: nat): Option<Counted> {
    var first := VarLenAt(s, pos + 1);
    if NumberAt(s, pos, 1) == 0 then Some(Counted(Single(first.value), first.end))
    else
      var second := VarLenAt(s, first.end);
      if first.value == second.value then None
      else
        CountBound(s, second.end);
        var count := NumberAt(s, second.end, ANS_LOG_TAB_SIZE);
        Some(Counted(Pair(first.value, second.value, count), second.end + ANS_LOG_TAB_SIZE))
  }

  lemma CountBound(s: seq<bool>, pos: nat)
    ensures NumberAt(s, pos, ANS_LOG_TAB_SIZE) < ANS_TAB_SIZE
  {
    NumberBound(s, pos, ANS_LOG_TAB_SIZE);
    Pow2Small();
  }

  /** The histogram at a position of the stream, if there is one. */
  function HistogramAt(s: seq<bool>, pos: nat): Option<Counted> {
    if NumberAt(s, pos, 1) == 1 then SimpleAt(s, pos + 1)
    else if NumberAt(s, pos + 1, 1) == 1 then
      var length := VarLenAt(s, pos + 2);
      Some(Counted(FlatCounts(length.value + 1, ANS_TAB_SIZE), length.end))
    else GeneralAt(s, pos + 2)
  }

  /** A reader behind what was parsed, if it was accepted. */
  ghost predicate Agrees(parsed: Option<Counted>, ok: bool, counts: seq<nat>, end: nat) {
    (ok <==> parsed.Some?) && (ok ==> parsed.value == Counted(counts, end))
  }

  /** The position of the omitted count is the first of the largest magnitude; what is left to 4096
      goes there. The source also compares the next log-count with 4097 to reject a run right after
      the omitted count; log-counts are at most 13, so that test never fires, and such a run repeats
      the zero that the omitted count still is (`Previous`). */
  method ReadGeneralHistogram(input: BitReader)
    returns (ok: bool, counts: seq<nat>, ghost logcounts: seq<nat>, ghost same: seq<nat>, ghost omitPos: nat)
    requires input.Valid()
    modifies input
    ensures input.Valid()
    ensures Agrees(GeneralAt(ToBits(input.data), old(input.Position())), ok, counts, input.Position())
    ensures ok ==> Sum(counts) == ANS_TAB_SIZE
    ensures ok ==> Explained(counts, logcounts, same, omitPos, |counts|) && counts[omitPos] > 0
    ensures ok ==> StandsAlone(same, omitPos) &&
                   forall k: nat | StandsAlone(same, k) ::
                     if k < omitPos then logcounts[k] < logcounts[omitPos] else logcounts[k] <= logcounts[omitPos]
  {
    hide NumberAt, Buffered, ToBits, LogsFrom, TallyUpTo, ShiftAt, VarLenAt, NumSame;
    counts, logcounts, same, omitPos := [], [], [], 0;
    var shiftOk, shift := ReadShift(input);
    if !shiftOk {
      return false, [], [], [], 0;
    }
    var length := DecodeVarLenUint8(input);
    length := length + 3;
    var logs, runs, pos := ReadLogCounts(input, length);
    if pos < 0 {
      return false, [], [], [], 0;
    }
    logcounts, same, omitPos := logs, runs, pos;
    var total;
    counts, total := ReadCounts(input, logs, runs, pos, shift);
    var last: int := ANS_TAB_SIZE - total;
    if last <= 0 {
      return false, [], [], [], 0;
    }
    ghost var before := counts;
    SumUpdate(counts, pos, last);
    counts := counts[pos := last];
    OmittedExplained(before, counts, logcounts, same, omitPos);
    ok := true;
  }

  lemma OmittedExplained(before: seq<nat>, counts: seq<nat>, logcounts: seq<nat>, same: seq<nat>, omitPos: nat)
    requires Explained(before, logcounts, same, omitPos, |before|)
    requires |counts| == |before| && counts == before[omitPos := counts[omitPos]]
    ensures Explained(counts, logcounts, same, omitPos, |counts|)
  {
    forall k: nat | k < |counts| && k != omitPos ensures ExplainedAt(counts, logcounts, same, omitPos, k) {
      assert ExplainedAt(before, logcounts, same, omitPos, k);
    }
  }

  /** The number of ones from the position on, up to three, and where the shift goes on. */
  function OnesAt(s: seq<bool>, pos: nat, log: nat): Num
    decreases 3 - log
  {
    if log >= 3 then Num(log, pos)
    else if NumberAt(s, pos, 1) == 0 then Num(log, pos + 1)
    else OnesAt(s, pos + 1, log + 1)
  }

  /** The number of bits in unary, then the bits below the highest one, of the shift plus one. */
  function ShiftAt(s: seq<bool>, pos: nat): Num {
    var log := OnesAt(s, pos, 0);
    ShiftParts(NumberAt(s, log.end, log.value), log)
  }

  function ShiftParts(low: nat, log: Num): Num {
    Pow2Positive(log.value);
    Num(low + Pow2(log.value) - 1, log.end + log.value)
  }

  lemma Pow2Positive(n: nat)
    ensures Pow2(n) > 0
  {
  }

  method ReadShift(input: BitReader) returns (ok: bool, shift: nat)
    requires input.Valid()
    modifies input
    ensures input.Valid() && (ok <==> shift <= ANS_LOG_TAB_SIZE + 1)
    ensures Num(shift, input.Position()) == ShiftAt(ToBits(input.data), old(input.Position()))
  {
    hide NumberAt, Buffered, ToBits;
    var log := 0;
    ghost var s, all := ToBits(input.data), OnesAt(ToBits(input.data), input.Position(), 0);
    while log < 3
      invariant input.Valid() && log <= 3 && OnesAt(s, input.Position(), log) == all
      invariant log == 3 ==> all == Num(3, input.Position())
    {
      var more := input.ReadBits(1);
      if more == 0 {
        break;
      }
      log := log + 1;
    }
    assert all == Num(log, input.Position());
    Pow2Positive(log);
    var low := input.ReadBits(log);
    shift := low + Pow2(log) - 1;
    ok := shift <= ANS_LOG_TAB_SIZE + 1;
  }

  /** One symbol with all the weight, or two that share it. */
  method ReadSimpleHistogram(input: BitReader)
    returns (ok: bool, counts: seq<nat>, symbol0: nat, symbol1: nat)
    requires input.Valid()
    modifies input
    ensures input.Valid()
    ensures Agrees(SimpleAt(ToBits(input.data), old(input.Position())), ok, counts, input.Position())
    ensures ok ==> Sum(counts) == ANS_TAB_SIZE
    ensures ok ==> symbol0 < |counts| <= 256 && symbol1 < |counts| &&
                   forall k | 0 <= k < |counts| && k != symbol0 && k != symbol1 :: counts[k] == 0
  {
    hide NumberAt, Buffered, ToBits, Sum, VarLenAt;
    var two := input.ReadBits(1);
    symbol0 := DecodeVarLenUint8(input);
    symbol1 := symbol0;
    if two == 0 {
      counts := seq(symbol0 + 1, _ => 0);
      SumConstant(counts, 0);
      SumUpdate(counts, symbol0, ANS_TAB_SIZE);
      counts := counts[symbol0 := ANS_TAB_SIZE];
      assert counts == Single(symbol0);
      ok := true;
      return;
    }
    symbol1 := DecodeVarLenUint8(input);
    var maxSymbol := if symbol0 > symbol1 then symbol0 else symbol1;
    if symbol0 == symbol1 {
      ok, counts := false, [];
      return;
    }
    CountBound(ToBits(input.data), input.Position());
    var count0 := input.ReadBits(ANS_LOG_TAB_SIZE);
    counts := seq(maxSymbol + 1, _ => 0);
    SumConstant(counts, 0);
    SumUpdate(counts, symbol0, count0);
    counts := counts[symbol0 := count0];
    SumUpdate(counts, symbol1, ANS_TAB_SIZE - count0);
    counts := counts[symbol1 := ANS_TAB_SIZE - count0];
    assert counts == Pair(symbol0, symbol1, count0);
    ok := true;
  }

  /** Every stream either holds no histogram, or one whose nonnegative counts sum to 4096; then the reader
      stands behind it. */
  method ReadHistogram(input: BitReader) returns (ok: bool, counts: seq<nat>)
    requires input.Valid()
    modifies input
    ensures input.Valid()
    ensures Agrees(HistogramAt(ToBits(input.data), old(input.Position())), ok, counts, input.Position())
    ensures ok ==> Sum(counts) == ANS_TAB_SIZE
  {
    hide NumberAt, Buffered, ToBits, GeneralAt, SimpleAt, VarLenAt;
    counts := [];
    var simpleCode := input.ReadBits(1);
    if simpleCode == 1 {
      var symbol0, symbol1;
      ok, counts, symbol0, symbol1 := ReadSimpleHistogram(input);
      return;
    }
    var isFlat := input.ReadBits(1);
    if isFlat == 1 {
      var alphabetSize := DecodeVarLenUint8(input);
      counts := CreateFlatHistogram(alphabetSize + 1, ANS_TAB_SIZE);
      return true, counts;
    }
    ghost var logcounts, same, omitPos;
    ok, counts, logcounts, same, omitPos := ReadGeneralHistogram(input);
  }

  /** Several histograms, one behind the other. */
  datatype Several = Several(all: seq<seq<nat>>, end: nat)

  function HistogramsAt(s: seq<bool>, pos: nat, n: nat): (r: Option<Several>)
    ensures r.Some? ==> |r.value.all| == n
  {
    if n == 0 then Some(Several([], pos))
    else
      match HistogramsAt(s, pos, n - 1)
      case None => None
      case Some(before) =>
        match HistogramAt(s, before.end)
        case None => None
        case Some(next) => Some(Several(before.all + [next.counts], next.end))
  }

  /** A failure is final. */
  lemma {:induction false} HistogramsFail(s: seq<bool>, pos: nat, m: nat, n: nat)
    requires m <= n
    ensures HistogramsAt(s, pos, m).None? ==> HistogramsAt(s, pos, n).None?
    ensures HistogramsAt(s, pos, n).Some? ==> HistogramsAt(s, pos, m).Some?
    ensures HistogramsAt(s, pos, n).Some? && HistogramsAt(s, pos, m).Some? ==>
              HistogramsAt(s, pos, m).value.all == HistogramsAt(s, pos, n).value.all[..m]
    decreases n
  {
    hide HistogramAt;
    if m < n {
      HistogramsFail(s, pos, m, n - 1);
    }
  }

  ghost predicate AreSmall(several: Option<Several>, limit: nat) {
    several.Some? && forall c | 0 <= c < |several.value.all| :: |several.value.all[c]| <= limit
  }

  /** One histogram more. */
  lemma HistogramsNext(s: seq<bool>, pos: nat, c: nat, n: nat, limit: nat)
    requires c < n && HistogramsAt(s, pos, c).Some?
    ensures var before := HistogramsAt(s, pos, c).value;
            var next := HistogramAt(s, before.end);
            if next.Some? && |next.value.counts| <= limit then
              HistogramsAt(s, pos, c + 1) == Some(Several(before.all + [next.value.counts], next.value.end))
            else !AreSmall(HistogramsAt(s, pos, n), limit)
  {
    HistogramsFail(s, pos, c + 1, n);
    hide HistogramAt;
    var before := HistogramsAt(s, pos, c).value;
    var next := HistogramAt(s, before.end);
    if next.Some? && |next.value.counts| > limit && HistogramsAt(s, pos, n).Some? {
      assert HistogramsAt(s, pos, n).value.all[c] == HistogramsAt(s, pos, n).value.all[..c + 1][c] == next.value.counts;
    }
  }
}
