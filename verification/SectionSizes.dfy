/** How many bits the decoder can consume, and so how large sections can be: far below the limit of the table
of contents (lib/jxl/toc.h:21-24).
 */
module SectionSizes {
  import opened Bits
  import opened BitReading
  import opened CanonicalCode
  import opened Alphabets
  import opened Huffman
  import opened ChunkCoding
  import opened HybridUint
  import opened PrefixCoding
  import opened Prediction
  import opened PlaneCoding
  import opened RowShortcut
  import opened ImageArea
  import opened ImagePixels
  import opened PrefixHeader
  import opened PrefixHeaderWriting
  import UintConfigs
  import FrameAssembly
  import opened Sequences

  // ----- channels -----

  /** A codeword of at most 15 bits and at most 31 raw bits. */
  const VALUE_BITS: nat := 46

  lemma ValueBits(lens: seq<nat>, stream: seq<bool>, multiplier: nat, r: Reader)
    requires IsPrefixLengths(lens) && r.Valid() && multiplier > 0
    ensures ReadValue(lens, stream, multiplier, r).pos <= r.pos + VALUE_BITS
  {
    hide ReadPrefixSymbol, RawBits, Decode, NumberAt, CopyDistance, CopyCount, Taken, Pow2;
  }

  lemma {:induction false} ValuesBits(lens: seq<nat>, stream: seq<bool>, multiplier: nat, r: Reader, n: nat)
    requires IsPrefixLengths(lens) && r.Valid() && multiplier > 0
    ensures ReadValues(lens, stream, multiplier, r, n).pos <= r.pos + VALUE_BITS * n
  {
    hide ReadValue, IsPrefixLengths;
    if n > 0 {
      ValuesBits(lens, stream, multiplier, r, n - 1);
      ValueBits(lens, stream, multiplier, ReadValues(lens, stream, multiplier, r, n - 1));
    }
  }

  lemma ChannelSize(lens: seq<nat>, bits: seq<bool>, rows: seq<Row>, oxs: nat, xs: nat, byteDepth1: bool)
    requires IsPrefixLengths(lens) && IsChannelBits(lens, bits, rows, oxs, xs, byteDepth1)
    ensures |bits| <= VALUE_BITS * (|rows| * xs)
  {
    hide IsPrefixLengths, ReadValues, DecodePlane, SplitRows, SkipsAreRepeats, Crop;
    var r := Reader(0, [], 0, 0);
    assert HoldsAt(bits, r.pos, bits);
    var p := ReadChannel(lens, bits, 1, r, xs, |rows|);
    assert p.reader.pos == |bits|;
    ValuesBits(lens, bits, 1, r, |rows| * xs);
  }

  /** Samples of a full group. */
  const GROUP_SAMPLES: nat := MAX_SIDE * MAX_SIDE

  lemma {:induction false} ChannelsSize(lens: seq<nat>, bits: seq<seq<bool>>, image: Image, n: nat, oxs: nat,
                                        limit: int, byteDepth1: bool)
    requires IsPrefixLengths(lens) && IsImage(image, n, oxs, limit) && oxs <= MAX_SIDE && |image| <= MAX_SIDE
    requires AreChannelBits(lens, bits, image, n, oxs, limit, byteDepth1)
    ensures |FrameAssembly.Flatten(bits)| <= VALUE_BITS * GROUP_SAMPLES * |bits|
    decreases |bits|
  {
    hide IsPrefixLengths, IsImage, IsChannelBits, Channel, RoundedUp;
    if bits != [] {
      var k := |bits| - 1;
      assert bits == bits[..k] + [bits[k]];
      FrameAssembly.FlattenAppend(bits[..k], bits[k]);
      ChannelsSize(lens, bits[..k], image, n, oxs, limit, byteDepth1);
      assert AreBitsOf(lens, bits[k], image, n, oxs, limit, byteDepth1, k);
      ChannelSize(lens, bits[k], Channel(image, n, oxs, limit, k), oxs, RoundedUp(oxs), byteDepth1);
      MulUpTo(|image|, MAX_SIDE, RoundedUp(oxs), MAX_SIDE);
    }
  }

  // ----- the code -----

  ghost predicate AtMost5(lens: seq<nat>) {
    forall k | 0 <= k < |lens| :: lens[k] <= 5
  }

  lemma ClCodeBits(stream: seq<bool>, st: ClState, i: nat)
    requires i <= CODE_LENGTH_CODES && |st.lens| == CODE_LENGTH_CODES && AtMost5(st.lens)
    ensures var r := ReadClLens(stream, st, i);
            AtMost5(r.lens) && r.pos <= st.pos + 4 * (CODE_LENGTH_CODES - i)
    decreases CODE_LENGTH_CODES - i
  {
    hide Peek4, SymbolShare, OrderAt;
    if i < CODE_LENGTH_CODES && st.space > 0 {
      ClCodeBits(stream, ClNext(stream, st, i), i + 1);
    }
  }

  /** Every step takes at most eight bits and gives at least one length. */
  lemma {:induction false} LensBits(cl: seq<nat>, stream: seq<bool>, st: LenState, num: nat)
    requires AtMost5(cl) && st.Valid()
    ensures var r := ReadLens(cl, stream, st, num);
            r.Some? ==> r.value.pos + 8 * |st.lens| <= st.pos + 8 * |r.value.lens|
    decreases num - |st.lens|
  {
    hide NumberAt, Used, LastUsed, ReadPrefixSymbol, AfterRepeat, SymbolShare, NextClSymbol;
    SymbolBits(cl, stream, st.pos);
    if |st.lens| < num && st.space > 0 {
      var next := NextClSymbol(cl, stream, st.pos);
      var symbol, pos := next.0, st.pos + next.1;
      if symbol < 16 {
        LensBits(cl, stream, AfterLen(st, symbol, pos), num);
      } else if symbol < CODE_LENGTH_CODES {
        var extra := NumberAt(stream, pos, symbol - 14);
        var after := AfterRepeat(st, symbol, extra, pos + symbol - 14);
        assert after.pos == pos + symbol - 14 by { RepeatPosition(st, symbol, extra, pos + symbol - 14); }
        if |after.lens| <= num {
          LensBits(cl, stream, after, num);
        }
      }
    }
  }

  lemma RepeatPosition(st: LenState, symbol: nat, extra: nat, pos: nat)
    requires st.Valid() && symbol in {16, 17}
    ensures AfterRepeat(st, symbol, extra, pos).pos == pos
  {
  }

  lemma SymbolBits(cl: seq<nat>, stream: seq<bool>, pos: nat)
    requires AtMost5(cl)
    ensures NextClSymbol(cl, stream, pos).1 <= 5
  {
    hide Used, LastUsed, ReadPrefixSymbol;
  }

  const HEADER_BITS: nat := 2 + 4 * CODE_LENGTH_CODES + 8 * ALPHABET_SIZE

  lemma CodeBits(stream: seq<bool>, pos: nat)
    ensures var h := ReadComplexCode(stream, pos, ALPHABET_SIZE); h.Some? ==> h.value.pos <= pos + HEADER_BITS
  {
    hide NumberAt, Used, ReadLens, ReadClLens;
    var skip := NumberAt(stream, pos, 2);
    if skip != 1 && skip <= 3 {
      var start := ClState(Copies<nat>(0, CODE_LENGTH_CODES), 32, pos + 2);
      ClCodeBits(stream, start, skip);
      var cl := ReadClLens(stream, start, skip);
      LensBits(cl.lens, stream, LenState([], 8, 0, 0, FULL_SPACE, cl.pos), ALPHABET_SIZE);
    }
  }

  lemma HeaderSize(header: seq<bool>, lens: seq<nat>)
    requires IsHeaderOf(header, lens)
    ensures |header| <= HEADER_BITS
  {
    hide ReadComplexCode;
    assert HoldsAt(header, 0, header);
    CodeBits(header, 0);
  }
}
