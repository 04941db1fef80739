/** One group from pixels to bits (experimental/fast_lossless/fast_lossless.cc:513-536, 1254-1284, 1300-1325):
the counts that guarantee a codeword for everything that can occur, the code, and the channels.
 */
module SectionCoding {
  import opened Bits
  import opened BitReading
  import opened BitWriting
  import opened HybridUint
  import opened CanonicalCode
  import opened Alphabets
  import opened Huffman
  import opened ChunkCoding
  import opened Prediction
  import opened PlaneCoding
  import opened RowShortcut
  import opened ImageArea
  import opened ImagePixels
  import opened PrefixCoding
  import opened PrefixHeader
  import opened PrefixHeaderWriting
  import UintConfigs
  import FrameAssembly
  import opened Sequences

  /** The first NUM_RAW of the sixteen entries; the last one is not used. */
  const BASE_RAW_COUNTS: seq<nat> := [3843, 852, 1270, 1214, 1014, 727, 481, 300, 159, 51, 5, 1, 1, 1, 1]
  const BASE_LZ77_COUNTS: seq<nat> := [18, 12, 9, 11, 15, 2, 2, 1, 1, 1, 1, 2, 300, 0, 0, 0, 0]

  const MAX_BIT_DEPTH: nat := 12

  /** The bits that a residual may have: one more than the samples, and another one with colour. */
  function ResidualBits(bitDepth: nat, n: nat): nat {
    bitDepth + if n > 2 then 2 else 1
  }

  function BaseRawCount(bitDepth: nat, n: nat, i: nat): nat
    requires i < NUM_RAW
  {
    if i <= ResidualBits(bitDepth, n) then BASE_RAW_COUNTS[i] else 0
  }

  /** The counts that the code is built from: every symbol that residuals of this bit depth can need counts,
      and any other one only if it was sampled. */
  method RawCounts(sampled: seq<nat>, bitDepth: nat, n: nat) returns (counts: seq<nat>)
    requires |sampled| == NUM_RAW && bitDepth <= MAX_BIT_DEPTH
    ensures |counts| == NUM_RAW
    ensures forall i | 0 <= i < NUM_RAW :: counts[i] > 0 <==> i <= ResidualBits(bitDepth, n) || sampled[i] > 0
    ensures forall i | 0 <= i < NUM_RAW :: counts[i] == sampled[i] * 256 + BaseRawCount(bitDepth, n, i)
  {
    counts := seq(NUM_RAW, i requires 0 <= i < NUM_RAW => sampled[i] * 256 + BaseRawCount(bitDepth, n, i));
  }

  method Lz77Counts(sampled: seq<nat>) returns (counts: seq<nat>)
    requires |sampled| == NUM_LZ77
    ensures |counts| == NUM_LZ77
    ensures forall i | 0 <= i < NUM_LZ77 :: counts[i] > 0 <==> i <= 12 || sampled[i] > 0
    ensures forall i | 0 <= i < NUM_LZ77 :: counts[i] == sampled[i] * 256 + BASE_LZ77_COUNTS[i]
  {
    counts := seq(NUM_LZ77, i requires 0 <= i < NUM_LZ77 => sampled[i] * 256 + BASE_LZ77_COUNTS[i]);
  }

  // ----- everything has a codeword -----

  /** The codewords that are guaranteed. */
  ghost predicate HasGuaranteed(code: PrefixTables, bits: nat) {
    code.Valid() && bits < NUM_RAW && (forall i | 0 <= i <= bits :: code.rawNbits[i] > 0) &&
    forall i | 0 <= i <= 12 :: code.lz77Nbits[i] > 0
  }

  lemma TokenBelow(value: nat, k: nat)
    requires value < Pow2(k)
    ensures EncodeHybridUint000(value).token <= k
  {
    if value > 0 && FloorLog2(value) >= k {
      Pow2Monotone(k, FloorLog2(value));
    }
  }

  lemma RawCovered(code: PrefixTables, bits: nat, value: nat)
    requires HasGuaranteed(code, bits) && value < Pow2(bits)
    ensures code.HasRaw(value)
  {
    TokenBelow(value, bits);
    Pow2Monotone(bits, 14);
    Pow2Small();
    hide EncodeHybridUint000, Pow2, AreCodewords, IsPrefixLengths;
  }

  lemma RunTokenBelow(count: nat)
    requires 16 <= count <= 65536
    ensures EncodeHybridUint404Mul16(count - 16).token <= 12
  {
    var value: nat := count - 16;
    if value >= 16 {
      LengthLog2(value);
      assert Pow2(16) == 65536 by { Pow2Small(); }
      hide IsLog404;
      if FloorLog2(value) >= 16 {
        Pow2Monotone(16, FloorLog2(value));
      }
    }
  }

  lemma RunCoveredBy(code: PrefixTables, bits: nat, count: nat)
    requires HasGuaranteed(code, bits) && count % 16 == 0 && count <= 65536
    ensures |code.lz77Nbits| == NUM_LZ77 && code.HasRun(count)
  {
    TableSizes(code);
    hide EncodeHybridUint404Mul16, PrefixTables.Valid;
    if count > 0 {
      RunTokenBelow(count);
    }
  }

  /** Every run of a group, up to all its samples, has a codeword. */
  lemma RunsCovered(code: PrefixTables, bits: nat)
    requires HasGuaranteed(code, bits)
    ensures CoversRuns(code)
  {
    TableSizes(code);
    hide PrefixTables.Valid, PrefixTables.HasRun;
    forall count: nat | count % 16 == 0 && count <= MAX_SIDE * MAX_SIDE ensures code.HasRun(count) {
      RunCoveredBy(code, bits, count);
    }
  }

  // ----- residuals of samples in a range -----

  ghost predicate InRange(row: Row, lo: int, hi: int) {
    forall x | 0 <= x < |row| :: lo <= row[x] < hi
  }

  lemma ResidualBelow(above: Row, row: Row, w: nat, x: nat, lo: int, hi: int)
    requires IsAbove(above, w) && IsRow(row, w) && x < w && lo <= 0 < hi && InRange(above, lo, hi) &&
             InRange(row, lo, hi)
    ensures RowResiduals(above, row, w)[x] < 2 * (hi - lo)
  {
    ResidualIs(above, row, x, w);
    MedianBetween(Left(above, row[..x]), Top(above, row[..x]), TopLeft(above, row[..x]));
    GuessInRange(above, row[..x], w);
    UnpackPacked(row[x] - Guess(above, row[..x]));
    hide ClampedGradient, PackSigned, UnpackSigned;
  }

  lemma PadInRange(row: Row, xs: nat, lo: int, hi: int)
    requires 0 < |row| <= xs && InRange(row, lo, hi)
    ensures InRange(PadRow(row, xs), lo, hi)
  {
    var r := PadRow(row, xs);
    forall x | 0 <= x < xs ensures lo <= r[x] < hi {
      assert r[x] == if x < |row| then r[..|row|][x] else row[|row| - 1];
    }
  }

  /** A padded row and the one above it stay in the range. */
  lemma RowsInRange(rows: seq<Row>, oxs: nat, xs: nat, y: nat, lo: int, hi: int)
    requires oxs <= xs && IsPlane(rows, oxs) && y < |rows| && forall k | 0 <= k < |rows| :: InRange(rows[k], lo, hi)
    ensures |Pad(rows, oxs, xs)| == |rows| && InRange(Pad(rows, oxs, xs)[y], lo, hi)
    ensures InRange(PlaneCoding.Above(Pad(rows, oxs, xs)[..y]), lo, hi)
  {
    assert IsRow(rows[y], oxs) && (y > 0 ==> IsRow(rows[y - 1], oxs));
    hide PadRow, InRange;
    PadInRange(rows[y], xs, lo, hi);
    if y > 0 {
      PadInRange(rows[y - 1], xs, lo, hi);
      assert PlaneCoding.Above(Pad(rows, oxs, xs)[..y]) == PadRow(rows[y - 1], xs);
    } else {
      assert InRange([], lo, hi) by { NothingInRange(lo, hi); }
    }
  }

  lemma NothingInRange(lo: int, hi: int)
    ensures InRange([], lo, hi)
  {
  }

  lemma PlaneCovered(code: PrefixTables, bits: nat, rows: seq<Row>, oxs: nat, xs: nat, lo: int, hi: int)
    requires HasGuaranteed(code, bits) && oxs <= xs && IsPlane(rows, oxs) && lo <= 0 < hi && 2 * (hi - lo) <= Pow2(bits)
    requires forall y | 0 <= y < |rows| :: InRange(rows[y], lo, hi)
    ensures CoversPlane(code, rows, oxs, xs)
  {
    PadIsPlane(rows, oxs, xs);
    var padded := Pad(rows, oxs, xs);
    hide Pad, PrefixTables.Valid, PrefixTables.HasRaw, RowResiduals, IsRow, InRange, Pow2;
    forall y: nat | y < |rows| ensures Covers(code, PlaneRowResiduals(padded, y, xs)) {
      RowCovered(code, bits, rows, oxs, xs, y, lo, hi);
    }
  }

  lemma RowCovered(code: PrefixTables, bits: nat, rows: seq<Row>, oxs: nat, xs: nat, y: nat, lo: int, hi: int)
    requires HasGuaranteed(code, bits) && oxs <= xs && IsPlane(rows, oxs) && lo <= 0 < hi && 2 * (hi - lo) <= Pow2(bits)
    requires y < |rows| && forall k | 0 <= k < |rows| :: InRange(rows[k], lo, hi)
    requires IsPlane(Pad(rows, oxs, xs), xs)
    ensures Covers(code, PlaneRowResiduals(Pad(rows, oxs, xs), y, xs))
  {
    hide PrefixTables.Valid, PrefixTables.HasRaw, RowResiduals, Pow2, HasGuaranteed, Pad, InRange;
    Guaranteed(code, bits);
    var padded := Pad(rows, oxs, xs);
    RowsInRange(rows, oxs, xs, y, lo, hi);
    PlaneRowIs(padded, xs, y);
    var above, row := PlaneCoding.Above(padded[..y]), padded[y];
    forall x: nat | x < xs ensures code.HasRaw(RowResiduals(above, row, xs)[x]) {
      ResidualBelow(above, row, xs, x, lo, hi);
      RawCovered(code, bits, RowResiduals(above, row, xs)[x]);
    }
  }

  lemma Guaranteed(code: PrefixTables, bits: nat)
    requires HasGuaranteed(code, bits)
    ensures code.Valid() && |code.rawNbits| == NUM_RAW
  {
    hide AreCodewords, IsPrefixLengths;
  }

  /** The guaranteed codewords suffice for every image of this bit depth. */
  lemma ImageCovered(code: PrefixTables, image: Image, n: nat, oxs: nat, bitDepth: nat)
    requires bitDepth <= MAX_BIT_DEPTH && IsImage(image, n, oxs, Pow2(bitDepth))
    requires HasGuaranteed(code, ResidualBits(bitDepth, n))
    ensures code.Valid() && CoversImage(code, image, n, oxs, Pow2(bitDepth))
  {
    hide PrefixTables.Valid, CoversPlane, Channel, ToChannels, RoundedUp, Pow2;
    var limit := Pow2(bitDepth);
    var bits := ResidualBits(bitDepth, n);
    forall c: nat | c < n
      ensures (ChannelIsPlane(image, n, oxs, limit, c); CoversPlane(code, Channel(image, n, oxs, limit, c), oxs,
              RoundedUp(oxs)))
    {
      ChannelIsPlane(image, n, oxs, limit, c);
      ChannelInRange(image, n, oxs, limit, c);
      RangeFits(bitDepth, n);
      PlaneCovered(code, bits, Channel(image, n, oxs, limit, c), oxs, RoundedUp(oxs), Lowest(n, limit), limit);
    }
  }

  function Lowest(n: nat, limit: int): int {
    if n > 2 then 1 - limit else 0
  }

  lemma RangeFits(bitDepth: nat, n: nat)
    ensures Lowest(n, Pow2(bitDepth)) <= 0
    ensures 2 * (Pow2(bitDepth) - Lowest(n, Pow2(bitDepth))) <= Pow2(ResidualBits(bitDepth, n))
  {
    assert Pow2(bitDepth + 1) == 2 * Pow2(bitDepth) && Pow2(bitDepth + 2) == 2 * Pow2(bitDepth + 1);
  }

  lemma ChannelInRange(image: Image, n: nat, oxs: nat, limit: int, c: nat)
    requires IsImage(image, n, oxs, limit) && c < n
    ensures forall y | 0 <= y < |image| :: InRange(Channel(image, n, oxs, limit, c)[y], Lowest(n, limit), limit)
  {
    hide ToChannels;
    var rows := Channel(image, n, oxs, limit, c);
    forall y: nat, x: nat | y < |rows| && x < oxs ensures Lowest(n, limit) <= rows[y][x] < limit {
      assert IsSamples(image[y][x], n, limit);
      ChannelRange(image[y][x], n, limit, c);
    }
  }

  /** A row whose second pixel is as far from the first one as the samples allow: with colour, in the second channel. */
  function Extreme(n: nat, limit: int): Image
    requires 0 < n <= 4
  {
    var top := limit - 1;
    if n == 1 then [[[0], [top]]]
    else if n == 2 then [[[0, 0], [top, top]]]
    else if n == 3 then [[[0, 0, top], [top, 0, 0]]]
    else [[[0, 0, top, 1], [top, 0, 0, 1]]]
  }

  /** The largest guaranteed symbol is needed: a residual of this image has that token. */
  lemma TopSymbolNeeded(bitDepth: nat, n: nat)
    requires 0 < bitDepth <= MAX_BIT_DEPTH && 0 < n <= 4
    ensures var limit, c := Pow2(bitDepth), if n > 2 then 1 else 0;
            IsImage(Extreme(n, limit), n, 2, limit) && IsRow(Channel(Extreme(n, limit), n, 2, limit, c)[0], 2) &&
            EncodeHybridUint000(RowResiduals([], Channel(Extreme(n, limit), n, 2, limit, c)[0], 2)[1]).token ==
            ResidualBits(bitDepth, n)
  {
    hide *;
    DepthFits(bitDepth);
    ExtremeRow(n, Pow2(bitDepth));
    TopToken(bitDepth, n);
  }

  lemma DepthFits(bitDepth: nat)
    requires 0 < bitDepth <= MAX_BIT_DEPTH
    ensures 1 < Pow2(bitDepth) <= CHANNEL_LIMIT
  {
    Pow2Monotone(bitDepth, MAX_BIT_DEPTH);
    Pow2Monotone(0, bitDepth);
    Pow2Small();
  }

  lemma ExtremeRow(n: nat, limit: int)
    requires 0 < n <= 4 && 1 < limit <= CHANNEL_LIMIT
    ensures IsImage(Extreme(n, limit), n, 2, limit)
    ensures var c := if n > 2 then 1 else 0;
            IsRow(Channel(Extreme(n, limit), n, 2, limit, c)[0], 2) &&
            RowResiduals([], Channel(Extreme(n, limit), n, 2, limit, c)[0], 2)[1] ==
            2 * if n > 2 then 2 * (limit - 1) else limit - 1
  {
    ExtremeChannel(n, limit);
    ChannelIsPlane(Extreme(n, limit), n, 2, limit, if n > 2 then 1 else 0);
    hide IsImage, Channel, Extreme, Guess, IsRow;
    var row := Channel(Extreme(n, limit), n, 2, limit, if n > 2 then 1 else 0)[0];
    ExtremeResidual(row, if n > 2 then 2 * (limit - 1) else limit - 1);
  }

  lemma ExtremeIsImage(n: nat, limit: int)
    requires 0 < n <= 4 && 1 < limit <= CHANNEL_LIMIT
    ensures IsImage(Extreme(n, limit), n, 2, limit)
  {
  }

  lemma ExtremePixels(n: nat, limit: int)
    requires 0 < n <= 4 && 1 < limit <= CHANNEL_LIMIT
    ensures var p, c := Extreme(n, limit)[0], if n > 2 then 1 else 0;
            ChannelOf(p[0], c) == (if n > 2 then 1 - limit else 0) && ChannelOf(p[1], c) == limit - 1
  {
  }

  lemma ExtremeChannel(n: nat, limit: int)
    requires 0 < n <= 4 && 1 < limit <= CHANNEL_LIMIT
    ensures IsImage(Extreme(n, limit), n, 2, limit)
    ensures var row := Channel(Extreme(n, limit), n, 2, limit, if n > 2 then 1 else 0)[0];
            |row| == 2 && row[0] == (if n > 2 then 1 - limit else 0) && row[1] == limit - 1
  {
    ExtremeIsImage(n, limit);
    ExtremePixels(n, limit);
    hide IsImage, ChannelOf;
  }

  lemma ExtremeResidual(row: Row, d: int)
    requires IsRow(row, 2) && row[1] - row[0] == d >= 0
    ensures RowResiduals([], row, 2)[1] == 2 * d
  {
    ResidualIs([], row, 1, 2);
    assert row[..1][0] == row[0];
    assert Guess([], row[..1]) == row[0];
  }

  lemma TopToken(bitDepth: nat, n: nat)
    requires 0 < bitDepth
    ensures var top := Pow2(bitDepth) - 1;
            EncodeHybridUint000(2 * if n > 2 then 2 * top else top).token == ResidualBits(bitDepth, n)
  {
    var bits := ResidualBits(bitDepth, n);
    var value := 2 * if n > 2 then 2 * (Pow2(bitDepth) - 1) else Pow2(bitDepth) - 1;
    assert Pow2(bitDepth) >= 2 && Pow2(bitDepth + 1) == 2 * Pow2(bitDepth);
    assert Pow2(bitDepth + 2) == 2 * Pow2(bitDepth + 1);
    assert Pow2(bits - 1) <= value < Pow2(bits);
    if FloorLog2(value) < bits - 1 {
      Pow2Monotone(FloorLog2(value) + 1, bits - 1);
    }
    TokenBelow(value, bits);
  }

  // ----- the group -----

  lemma Lz77Used(counts: seq<nat>)
    requires |counts| == NUM_LZ77 && counts[0] > 0 && counts[1] > 0
    ensures Used(counts, NUM_LZ77) >= 2
  {
    UsedMonotone(counts, 0, 1);
    UsedMonotone(counts, 1, NUM_LZ77);
  }

  /** The counts of `RawCounts` have a gap exactly if some symbol that residuals cannot need was not sampled
      while a larger one was. */
  lemma GaplessIff(raw: seq<nat>, lz77: seq<nat>, sampled: seq<nat>, bits: nat)
    requires |raw| == |sampled| == NUM_RAW && |lz77| == NUM_LZ77 && lz77[0] > 0
    requires forall i | 0 <= i < NUM_RAW :: raw[i] > 0 <==> i <= bits || sampled[i] > 0
    ensures Level1Used(raw, lz77) >= 2
    ensures IsGapless(raw, lz77) <==> forall i, j | bits < i < j < NUM_RAW && sampled[j] > 0 :: sampled[i] > 0
  {
    UsedMonotone(raw, 0, NUM_RAW);
    hide Used;
    var last := RawUsed(raw);
    if IsGapless(raw, lz77) {
      forall i, j | bits < i < j < NUM_RAW && sampled[j] > 0 ensures sampled[i] > 0 {
        assert raw[j] > 0 && j < last && raw[i] > 0;
      }
    }
    if forall i, j | bits < i < j < NUM_RAW && sampled[j] > 0 :: sampled[i] > 0 {
      forall i | 0 <= i < last ensures raw[i] > 0 {
        assert raw[last - 1] > 0;
      }
    }
  }

  /** A complete code with everything that is guaranteed. A raw symbol has a codeword exactly if residuals of
      this bit depth can need it or it was sampled; the lengths that `ComputeCanonicalCode` is given are all
      positive, as it asserts, exactly if sampling left no gap above the guaranteed symbols. The lengths are the
      shortest for the counts, level by level. */
  method ChooseCode(sampledRaw: seq<nat>, sampledLz77: seq<nat>, bitDepth: nat, n: nat)
    returns (code: PrefixTables, ghost raw: seq<nat>, ghost lz77: seq<nat>)
    requires |sampledRaw| == NUM_RAW && |sampledLz77| == NUM_LZ77 && bitDepth <= MAX_BIT_DEPTH
    ensures HasGuaranteed(code, ResidualBits(bitDepth, n))
    ensures Taken(code.rawNbits + code.lz77Nbits, MAX_BITS) == Pow2(MAX_BITS)
    ensures |code.rawNbits| == NUM_RAW && forall i | 0 <= i < NUM_RAW ::
              code.rawNbits[i] > 0 <==> i <= ResidualBits(bitDepth, n) || sampledRaw[i] > 0
    ensures (forall i | 0 <= i < RawUsed(code.rawNbits) :: code.rawNbits[i] > 0) <==>
            forall i, j | ResidualBits(bitDepth, n) < i < j < NUM_RAW && sampledRaw[j] > 0 :: sampledRaw[i] > 0
    ensures |raw| == NUM_RAW && |lz77| == NUM_LZ77
    ensures forall i | 0 <= i < NUM_RAW :: raw[i] == sampledRaw[i] * 256 + BaseRawCount(bitDepth, n, i)
    ensures forall i | 0 <= i < NUM_LZ77 :: lz77[i] == sampledLz77[i] * 256 + BASE_LZ77_COUNTS[i]
    ensures exists base: nat, level2: seq<nat> :: IsSplit(raw, lz77, code, base, level2)
  {
    hide PrefixTables.Valid, Used, Taken, Pow2, Level1Used, RawUsed, IsGapless, IsSplit, BaseRawCount, HasGuaranteed,
         ResidualBits;
    var rawCounts := RawCounts(sampledRaw, bitDepth, n);
    var lz77Counts := Lz77Counts(sampledLz77);
    raw, lz77 := rawCounts, lz77Counts;
    BitsFit(bitDepth, n);
    assert raw[0] > 0;
    assert forall i | 0 <= i <= 12 :: lz77[i] > 0;
    Lz77Used(lz77);
    GaplessIff(raw, lz77, sampledRaw, ResidualBits(bitDepth, n));
    code := ConstructPrefixCode(rawCounts, lz77Counts);
    TableSizes(code);
    RawUsedIs(code.rawNbits, RawUsed(raw));
    assert HasGuaranteed(code, ResidualBits(bitDepth, n)) by { GuaranteedIs(code, ResidualBits(bitDepth, n)); }
  }

  lemma BitsFit(bitDepth: nat, n: nat)
    requires bitDepth <= MAX_BIT_DEPTH
    ensures ResidualBits(bitDepth, n) < NUM_RAW
  {
  }

  lemma GuaranteedIs(code: PrefixTables, bits: nat)
    requires code.Valid() && bits < NUM_RAW && |code.rawNbits| == NUM_RAW && |code.lz77Nbits| == NUM_LZ77
    requires (forall i | 0 <= i <= bits :: code.rawNbits[i] > 0) && forall i | 0 <= i <= 12 :: code.lz77Nbits[i] > 0
    ensures HasGuaranteed(code, bits)
  {
    hide PrefixTables.Valid;
  }

  lemma TableSizes(code: PrefixTables)
    requires code.Valid()
    ensures |code.rawNbits| == NUM_RAW && |code.lz77Nbits| == NUM_LZ77
  {
    hide AreCodewords, IsPrefixLengths;
  }

  lemma HasLz77(code: PrefixTables, bits: nat)
    requires HasGuaranteed(code, bits)
    ensures code.Valid() && exists k :: 0 <= k < |code.lz77Nbits| && code.lz77Nbits[k] > 0
  {
    TableSizes(code);
    hide PrefixTables.Valid;
    assert code.lz77Nbits[0] > 0;
  }

  /** What follows the code in a single-group image: the global modular header and its transform. */
  function OptionBits(n: nat): seq<bool> {
    FromNat(1, 1) + FromNat(1, 1) +
    if n > 2 then FromNat(1, 2) + FromNat(0, 2) + FromNat(0, 5) + FromNat(0, 2) else FromNat(0, 2)
  }

  method WriteOptions(n: nat, output: BitWriter)
    requires output.Valid()
    modifies output
    ensures output.Valid() && output.Contents() == old(output.Contents()) + OptionBits(n)
  {
    hide BitWriter.Valid, BitWriter.Contents, FromNat, Pow2;
    SmallPowers();
    output.Write(1, 1);
    output.Write(1, 1);
    if n > 2 {
      output.Write(2, 1);
      output.Write(2, 0);
      output.Write(5, 0);
      output.Write(2, 0);
    } else {
      output.Write(2, 0);
    }
  }

  method WriteCodeTo(code: PrefixTables, n: nat, outputs: seq<BitWriter>, ghost before: seq<seq<bool>>)
    returns (ghost header: seq<bool>)
    requires code.Valid() && Taken(code.rawNbits + code.lz77Nbits, MAX_BITS) == Pow2(MAX_BITS)
    requires exists k :: 0 <= k < |code.lz77Nbits| && code.lz77Nbits[k] > 0
    requires AreDistinct(outputs) && Hold(outputs, before)
    modifies outputs
    ensures IsHeaderOf(header, code.Lens()) && |before| == 4
    ensures Hold(outputs, WithFirst(before, header + OptionBits(n)))
  {
    hide BitWriter.Valid, BitWriter.Contents, PrefixTables.Valid, IsHeaderOf, Taken, Pow2, OptionBits,
         IsShortHeader;
    header := WriteTo(code, outputs[0]);
    WriteOptions(n, outputs[0]);
    assert before[0] + header + OptionBits(n) == before[0] + (header + OptionBits(n));
  }

  /** What has been written for a group: the code and the options in the first writer, and every channel
      in its own one. */
  ghost predicate IsGroup(code: PrefixTables, header: seq<bool>, before: seq<seq<bool>>, contents: seq<seq<bool>>,
                          bits: seq<seq<bool>>, image: Image, n: nat, oxs: nat, bitDepth: nat)
    requires code.Valid() && IsImage(image, n, oxs, Pow2(bitDepth))
  {
    && IsHeaderOf(header, code.Lens()) && |before| == 4 && |bits| == n
    && Appended(WithFirst(before, header + OptionBits(n)), bits, contents)
    && AreChannelBits(code.Lens(), bits, image, n, oxs, Pow2(bitDepth), bitDepth <= 8)
  }

  lemma NoGroupHeader(contents: seq<seq<bool>>)
    requires |contents| == 4
    ensures WithFirst(contents, GroupHeaderBits(true)) == contents
  {
    assert contents[0] + [] == contents[0];
  }

  /** A single-group image: for any sampled counts everything has a codeword, and the code is complete. */
  method EncodeGroup(image: Image, n: nat, oxs: nat, bitDepth: nat, sampledRaw: seq<nat>, sampledLz77: seq<nat>,
                     outputs: seq<BitWriter>, ghost before: seq<seq<bool>>)
    returns (code: PrefixTables, ghost header: seq<bool>, ghost contents: seq<seq<bool>>, ghost bits: seq<seq<bool>>)
    requires bitDepth <= MAX_BIT_DEPTH && IsImage(image, n, oxs, Pow2(bitDepth)) && oxs <= MAX_SIDE &&
             |image| <= MAX_SIDE
    requires |sampledRaw| == NUM_RAW && |sampledLz77| == NUM_LZ77
    requires AreDistinct(outputs) && Hold(outputs, before)
    modifies outputs
    ensures Hold(outputs, contents) && code.Valid()
    ensures IsGroup(code, header, before, contents, bits, image, n, oxs, bitDepth)
  {
    hide PrefixTables.Valid, Taken, Pow2, HasGuaranteed, Hold, IsHeaderOf, Appended, AreChannelBits, CoversImage,
         CoversRuns,
         IsImage, AreDistinct, BitWriter.Valid, BitWriter.Contents, WithFirst, GroupHeaderBits, OptionBits,
         PrefixTables.Lens;
    DepthLimit(image, n, oxs, bitDepth);
    ghost var rawCounts, lz77Counts;
    code, rawCounts, lz77Counts := ChooseCode(sampledRaw, sampledLz77, bitDepth, n);
    HasLz77(code, ResidualBits(bitDepth, n));
    header := WriteCodeTo(code, n, outputs, before);
    ghost var middle := WithFirst(before, header + OptionBits(n));
    NoGroupHeader(middle);
    RunsCovered(code, ResidualBits(bitDepth, n));
    ImageCovered(code, image, n, oxs, bitDepth);
    contents, bits := WriteACSection(image, n, oxs, Pow2(bitDepth), bitDepth <= 8, true, code, outputs, middle);
  }

  lemma DepthLimit(image: Image, n: nat, oxs: nat, bitDepth: nat)
    requires IsImage(image, n, oxs, Pow2(bitDepth))
    ensures 0 < n <= 4 && (bitDepth <= 8 ==> Pow2(bitDepth) <= 256)
  {
    if bitDepth <= 8 {
      Pow2Monotone(bitDepth, 8);
      Pow2Small();
    }
  }

  // ----- one bit string -----

  lemma {:induction false} SplicedBits(start: seq<seq<bool>>, bits: seq<seq<bool>>, contents: seq<seq<bool>>, k: nat)
    requires Appended(start, bits, contents) && 0 < k <= |bits| && forall j | 0 < j < k :: start[j] == []
    ensures FrameAssembly.Flatten(contents[..k]) == start[0] + FrameAssembly.Flatten(bits[..k])
    decreases k
  {
    assert contents[..k] == contents[..k - 1] + [contents[k - 1]] && bits[..k] == bits[..k - 1] + [bits[k - 1]];
    FrameAssembly.FlattenAppend(contents[..k - 1], contents[k - 1]);
    FrameAssembly.FlattenAppend(bits[..k - 1], bits[k - 1]);
    if k == 1 {
      assert FrameAssembly.Flatten(contents[..0]) == [] == FrameAssembly.Flatten(bits[..0]);
    } else {
      SplicedBits(start, bits, contents, k - 1);
    }
  }

  lemma HeldInOrder(stream: seq<bool>, pos: nat, whole: seq<bool>, a: seq<bool>, b: seq<bool>, c: seq<bool>,
                    d: seq<bool>)
    requires HoldsAt(stream, pos, whole) && whole == a + (b + c) + d
    ensures HoldsAt(stream, pos + |a|, b) && HoldsAt(stream, pos + |a| + |b| + |c|, d)
    ensures |whole| == |a| + |b| + |c| + |d|
  {
    hide HoldsAt;
    assert whole == a + (b + (c + d));
    HoldsAtSplit(stream, pos, a, b + (c + d));
    HoldsAtSplit(stream, pos + |a|, b, c + d);
    HoldsAtSplit(stream, pos + |a| + |b|, c, d);
  }

  /** The round trip of a single-group image, wherever its spliced writers end up: the decoder finds the
      code lengths behind what was in the first writer; behind the options, one reader with these lengths
      reads all channels; and the visible pixels are recovered, but for colours under alpha 0, if and only
      if there is no colour or the shortcut is safe in both chroma channels. */
  lemma GroupReadsBack(code: PrefixTables, header: seq<bool>, before: seq<seq<bool>>, contents: seq<seq<bool>>,
                       bits: seq<seq<bool>>, image: Image, n: nat, oxs: nat, bitDepth: nat, stream: seq<bool>, pos: nat,
                       multiplier: nat)
    requires code.Valid() && IsImage(image, n, oxs, Pow2(bitDepth)) && multiplier > 0
    requires IsGroup(code, header, before, contents, bits, image, n, oxs, bitDepth)
    requires |contents| == 4 && n <= 4 && |before| == 4 && forall j | 0 < j < n :: before[j] == []
    requires HoldsAt(stream, pos, FrameAssembly.Flatten(contents[..n]))
    ensures var end := pos + |before[0]| + |header|;
            ReadComplexCode(stream, pos + |before[0]|, ALPHABET_SIZE) == UintConfigs.Some(Header(code.Lens(), end)) &&
            var r := Reader(end + |OptionBits(n)|, [], 0, 0);
            var g := ReadChannels(code.Lens(), stream, multiplier, r, n, RoundedUp(oxs), |image|);
            g.reader.pos == pos + |FrameAssembly.Flatten(contents[..n])| && g.reader.count == 0 &&
            (Recovers(g.planes, image, n, oxs) <==>
             n < 3 || (ShortcutIsSafe(image, n, oxs, Pow2(bitDepth), bitDepth <= 8, 1)
                       && ShortcutIsSafe(image, n, oxs, Pow2(bitDepth), bitDepth <= 8, 2)))
  {
    hide PrefixTables.Valid, PrefixTables.Lens, Pow2, IsImage, IsHeaderOf, AreChannelBits, ShortcutIsSafe, Recovers,
         ReadComplexCode, RoundedUp, ReadChannels, IsGroup, OptionBits, HoldsAt, FrameAssembly.Flatten;
    DepthLimit(image, n, oxs, bitDepth);
    GroupParts(code, header, before, contents, bits, image, n, oxs, bitDepth);
    HeldInOrder(stream, pos, FrameAssembly.Flatten(contents[..n]), before[0], header, OptionBits(n),
                FrameAssembly.Flatten(bits));
    TableSizes(code);
    HeaderRead(header, code.Lens(), stream, pos + |before[0]|);
    var r := Reader(pos + |before[0]| + |header| + |OptionBits(n)|, [], 0, 0);
    SectionReadsBack(code.Lens(), bits, image, n, oxs, Pow2(bitDepth), bitDepth <= 8, stream, multiplier, r);
  }

  lemma GroupParts(code: PrefixTables, header: seq<bool>, before: seq<seq<bool>>, contents: seq<seq<bool>>,
                   bits: seq<seq<bool>>, image: Image, n: nat, oxs: nat, bitDepth: nat)
    requires code.Valid() && IsImage(image, n, oxs, Pow2(bitDepth))
    requires IsGroup(code, header, before, contents, bits, image, n, oxs, bitDepth)
    requires |contents| == 4 && n <= 4 && |before| == 4 && forall j | 0 < j < n :: before[j] == []
    ensures IsHeaderOf(header, code.Lens()) && |bits| == n
    ensures AreChannelBits(code.Lens(), bits, image, n, oxs, Pow2(bitDepth), bitDepth <= 8)
    ensures FrameAssembly.Flatten(contents[..n]) == before[0] + (header + OptionBits(n)) + FrameAssembly.Flatten(bits)
  {
    hide IsHeaderOf, AreChannelBits, IsImage, PrefixTables.Valid, PrefixTables.Lens, Pow2, OptionBits,
         FrameAssembly.Flatten;
    DepthLimit(image, n, oxs, bitDepth);
    SplicedBits(WithFirst(before, header + OptionBits(n)), bits, contents, n);
    assert bits[..n] == bits;
  }

  lemma HeaderRead(header: seq<bool>, lens: seq<nat>, stream: seq<bool>, pos: nat)
    requires IsHeaderOf(header, lens) && HoldsAt(stream, pos, header)
    ensures ReadComplexCode(stream, pos, ALPHABET_SIZE) == UintConfigs.Some(Header(lens, pos + |header|))
  {
    hide ReadComplexCode, HoldsAt;
  }

  /** The same for a section of an image with several groups, whose code is elsewhere. */
  lemma AcSectionReadsBack(lens: seq<nat>, before: seq<seq<bool>>, contents: seq<seq<bool>>, bits: seq<seq<bool>>,
                           image: Image, n: nat, oxs: nat, bitDepth: nat, stream: seq<bool>, pos: nat, multiplier: nat)
    requires IsImage(image, n, oxs, Pow2(bitDepth)) && multiplier > 0 && |bits| == n <= 4 && |before| == |contents| == 4
    requires Appended(WithFirst(before, GroupHeaderBits(false)), bits, contents)
    requires AreChannelBits(lens, bits, image, n, oxs, Pow2(bitDepth), bitDepth <= 8)
    requires forall j | 0 < j < n :: before[j] == []
    requires HoldsAt(stream, pos, FrameAssembly.Flatten(contents[..n]))
    ensures var r := Reader(pos + |before[0]| + |GroupHeaderBits(false)|, [], 0, 0);
            var g := ReadChannels(lens, stream, multiplier, r, n, RoundedUp(oxs), |image|);
            g.reader.pos == pos + |FrameAssembly.Flatten(contents[..n])| && g.reader.count == 0 &&
            (Recovers(g.planes, image, n, oxs) <==>
             n < 3 || (ShortcutIsSafe(image, n, oxs, Pow2(bitDepth), bitDepth <= 8, 1)
                       && ShortcutIsSafe(image, n, oxs, Pow2(bitDepth), bitDepth <= 8, 2)))
  {
    hide Pow2, IsImage, AreChannelBits, ShortcutIsSafe, Recovers, RoundedUp, ReadChannels, GroupHeaderBits, HoldsAt,
         FrameAssembly.Flatten;
    DepthLimit(image, n, oxs, bitDepth);
    var header := GroupHeaderBits(false);
    SplicedBits(WithFirst(before, header), bits, contents, n);
    assert bits[..n] == bits && header + [] == header;
    HeldInOrder(stream, pos, FrameAssembly.Flatten(contents[..n]), before[0], header, [], FrameAssembly.Flatten(bits));
    var r := Reader(pos + |before[0]| + |header|, [], 0, 0);
    SectionReadsBack(lens, bits, image, n, oxs, Pow2(bitDepth), bitDepth <= 8, stream, multiplier, r);
  }

  /** The writers of a single-group image are spliced into the frame at a byte boundary. The round trip is
      that of `GroupReadsBack` for any stream that starts with what `frame` then holds. */
  method EncodeAndSplice(image: Image, n: nat, oxs: nat, bitDepth: nat, sampledRaw: seq<nat>, sampledLz77: seq<nat>,
                         outputs: seq<BitWriter>, frame: BitWriter, ghost before: seq<seq<bool>>)
    returns (code: PrefixTables, ghost header: seq<bool>, ghost contents: seq<seq<bool>>, ghost bits: seq<seq<bool>>)
    requires bitDepth <= MAX_BIT_DEPTH && IsImage(image, n, oxs, Pow2(bitDepth)) && oxs <= MAX_SIDE &&
             |image| <= MAX_SIDE
    requires |sampledRaw| == NUM_RAW && |sampledLz77| == NUM_LZ77
    requires AreDistinct(outputs) && Hold(outputs, before) && frame !in outputs && frame.Valid()
    requires |frame.Contents()| % 8 == 0
    modifies outputs, frame
    ensures code.Valid() && IsGroup(code, header, before, contents, bits, image, n, oxs, bitDepth)
    ensures frame.Valid() && |contents| == 4 && n <= 4
    ensures forall rest: seq<bool> ::
              HoldsAt(frame.Contents() + rest, |old(frame.Contents())|, FrameAssembly.Flatten(contents[..n]))
  {
    hide PrefixTables.Valid, Pow2, IsGroup, IsImage, BitWriter.Valid, BitWriter.Contents, FrameAssembly.Padded,
         FrameAssembly.Flatten, HoldsAt;
    DepthLimit(image, n, oxs, bitDepth);
    code, header, contents, bits := EncodeGroup(image, n, oxs, bitDepth, sampledRaw, sampledLz77, outputs, before);
    FrameAssembly.AppendGroup(frame, outputs[..n], contents[..n]);
    PaddedHolds(old(frame.Contents()), FrameAssembly.Flatten(contents[..n]));
  }

  lemma PaddedHolds(start: seq<bool>, b: seq<bool>)
    ensures forall rest: seq<bool> :: HoldsAt(start + FrameAssembly.Padded(b) + rest, |start|, b)
  {
    forall rest: seq<bool> ensures HoldsAt(start + FrameAssembly.Padded(b) + rest, |start|, b) {
      var s := start + FrameAssembly.Padded(b) + rest;
      assert s == start + b + (Zeros(Padding(|b|)) + rest);
      assert s[|start|..|start| + |b|] == b;
    }
  }
}
