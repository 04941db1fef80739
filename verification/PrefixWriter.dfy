/** `PrefixCode::WriteTo` (experimental/fast_lossless/fast_lossless.cc:193-259), read back by the reader of
complex prefix codes.
 */
module PrefixHeaderWriting {
  import opened Bits
  import opened BitReading
  import opened BitWriting
  import opened CanonicalCode
  import opened Alphabets
  import opened Huffman
  import opened ChunkCoding
  import opened PrefixCoding
  import opened PrefixHeader
  import opened UintConfigs
  import opened Sequences

  const GAP: nat := LZ77_OFFSET - NUM_RAW
  const ALPHABET_SIZE: nat := 512

  // ----- what is written -----

  function LensBits(cl: seq<nat>, lens: seq<nat>): seq<bool>
    requires |cl| == CODE_LENGTH_CODES && forall k | 0 <= k < |lens| :: lens[k] < 16
  {
    if lens == [] then [] else LensBits(cl, lens[..|lens| - 1]) + Codeword(cl, lens[|lens| - 1])
  }

  /** The zeros between the raw and the LZ77 symbols: 5, 27, 209. */
  function GapBits(cl: seq<nat>): seq<bool>
    requires |cl| == CODE_LENGTH_CODES
  {
    ZeroBits(cl, 2) + ZeroBits(cl, 0) + ZeroBits(cl, 6)
  }

  /** The zeros between two LZ77 symbols: 3, 15. */
  function ShortGapBits(cl: seq<nat>): seq<bool>
    requires |cl| == CODE_LENGTH_CODES
  {
    ZeroBits(cl, 0) + ZeroBits(cl, 4)
  }

  function SpacedBits(cl: seq<nat>, lens: seq<nat>): seq<bool>
    requires |cl| == CODE_LENGTH_CODES && forall k | 0 <= k < |lens| :: lens[k] < 16
  {
    if lens == [] then []
    else SpacedBits(cl, lens[..|lens| - 1]) + (Codeword(cl, lens[|lens| - 1]) + ShortGapBits(cl))
  }

  /** Every length has a codeword. */
  ghost predicate HasLengths(cl: seq<nat>, lens: seq<nat>) {
    |cl| == CODE_LENGTH_CODES && forall k | 0 <= k < |lens| :: lens[k] < 16 && cl[lens[k]] > 0
  }

  function BodyBits(cl: seq<nat>, raw: seq<nat>, spaced: seq<nat>, last: nat): seq<bool>
    requires |cl| == CODE_LENGTH_CODES && last < 16
    requires (forall k | 0 <= k < |raw| :: raw[k] < 16) && forall k | 0 <= k < |spaced| :: spaced[k] < 16
  {
    LensBits(cl, raw) + (GapBits(cl) + (SpacedBits(cl, spaced) + Codeword(cl, last)))
  }

  // ----- reading it -----

  lemma {:induction false} ReadRaw(cl: seq<nat>, stream: seq<bool>, st: LenState, full: seq<nat>, raw: seq<nat>,
                                   num: nat,
                                   rest: seq<bool>) returns (next: LenState)
    requires IsClCode(cl) && IsWhole(full, num) && HasRead(st, full, 0) && st.repeat == 0
    requires |raw| < |full| && full[..|raw|] == raw && HasLengths(cl, raw)
    requires HoldsAt(stream, st.pos, LensBits(cl, raw) + rest)
    ensures HasRead(next, full, |raw|) && next.repeat == 0 && HoldsAt(stream, next.pos, rest)
    ensures next.pos == st.pos + |LensBits(cl, raw)|
    ensures next.Valid() && st.Valid() && ReadLens(cl, stream, st, num) == ReadLens(cl, stream, next, num)
    decreases |raw|
  {
    hide Codeword, HoldsAt, IsClCode, IsWhole, HasRead, ReadLens;
    if raw == [] {
      assert LensBits(cl, raw) + rest == rest;
      AtIsValid(st, full, 0);
      next := st;
    } else {
      var last := |raw| - 1;
      assert full[last] == raw[last] && full[..last] == raw[..last];
      assert LensBits(cl, raw) + rest == LensBits(cl, raw[..last]) + (Codeword(cl, raw[last]) + rest);
      var mid := ReadRaw(cl, stream, st, full, raw[..last], num, Codeword(cl, raw[last]) + rest);
      next := LenStep(cl, stream, mid, full, last, num, rest);
    }
  }

  lemma AtIsValid(st: LenState, full: seq<nat>, i: nat)
    requires HasRead(st, full, i)
    ensures st.Valid()
  {
  }

  /** The three runs before the LZ77 symbols. */
  lemma ReadGap(cl: seq<nat>, stream: seq<bool>, st: LenState, full: seq<nat>, num: nat, rest: seq<bool>)
    returns (next: LenState)
    requires IsClCode(cl) && IsWhole(full, num) && HasRead(st, full, NUM_RAW) && st.repeat == 0
    requires |full| > LZ77_OFFSET && ZerosFrom(full, NUM_RAW, LZ77_OFFSET) && |cl| == CODE_LENGTH_CODES
    requires HoldsAt(stream, st.pos, GapBits(cl) + rest)
    ensures HasRead(next, full, LZ77_OFFSET) && HoldsAt(stream, next.pos, rest)
    ensures next.pos == st.pos + |GapBits(cl)|
    ensures next.Valid() && st.Valid() && ReadLens(cl, stream, st, num) == ReadLens(cl, stream, next, num)
  {
    hide ZeroBits, HoldsAt, IsClCode, IsWhole, HasRead, ReadLens, Extended;
    ExtendedRuns();
    var a, b, c := ZeroBits(cl, 2), ZeroBits(cl, 0), ZeroBits(cl, 6);
    Associate(a, b, c, rest);
    var first := ZeroStep(cl, stream, st, full, NUM_RAW, NUM_RAW + 5, 2, num, b + (c + rest));
    var second := ZeroStep(cl, stream, first, full, NUM_RAW + 5, NUM_RAW + 27, 0, num, c + rest);
    next := ZeroStep(cl, stream, second, full, NUM_RAW + 27, LZ77_OFFSET, 6, num, rest);
  }

  /** `lens` are at every sixteenth place from LZ77_OFFSET on, with zeros in between. */
  ghost predicate AreSpaced(full: seq<nat>, lens: seq<nat>) {
    |full| > LZ77_OFFSET + 16 * |lens| && forall k: nat | k < |lens| ::
      full[LZ77_OFFSET + 16 * k] == lens[k] && ZerosFrom(full, LZ77_OFFSET + 16 * k + 1, LZ77_OFFSET + 16 * k + 16)
  }

  lemma SpacedPrefix(full: seq<nat>, lens: seq<nat>)
    requires AreSpaced(full, lens) && lens != []
    ensures var k := |lens| - 1;
            AreSpaced(full, lens[..k]) && full[LZ77_OFFSET + 16 * k] == lens[k] &&
            ZerosFrom(full, LZ77_OFFSET + 16 * k + 1, LZ77_OFFSET + 16 * k + 16)
  {
  }

  /** A length and the two runs after it. */
  lemma ReadSpacedOne(cl: seq<nat>, stream: seq<bool>, st: LenState, full: seq<nat>, i: nat, n: nat, num: nat,
                      rest: seq<bool>) returns (next: LenState)
    requires IsClCode(cl) && IsWhole(full, num) && HasRead(st, full, i) && |cl| == CODE_LENGTH_CODES
    requires i + 16 < |full| && n == full[i] < 16 && cl[n] > 0 && ZerosFrom(full, i + 1, i + 16)
    requires HoldsAt(stream, st.pos, Codeword(cl, n) + ShortGapBits(cl) + rest)
    ensures HasRead(next, full, i + 16) && HoldsAt(stream, next.pos, rest)
    ensures next.pos == st.pos + |Codeword(cl, n) + ShortGapBits(cl)|
    ensures next.Valid() && st.Valid() && ReadLens(cl, stream, st, num) == ReadLens(cl, stream, next, num)
  {
    hide Codeword, ZeroBits, HoldsAt, IsClCode, IsWhole, HasRead, ReadLens, Extended;
    ExtendedRuns();
    var a, b, c := Codeword(cl, n), ZeroBits(cl, 0), ZeroBits(cl, 4);
    assert a + ShortGapBits(cl) + rest == a + (b + (c + rest));
    var first := LenStep(cl, stream, st, full, i, num, b + (c + rest));
    var second := ZeroStep(cl, stream, first, full, i + 1, i + 4, 0, num, c + rest);
    next := ZeroStep(cl, stream, second, full, i + 4, i + 16, 4, num, rest);
  }

  lemma {:induction false} ReadSpaced(cl: seq<nat>, stream: seq<bool>, st: LenState, full: seq<nat>, lens: seq<nat>,
                                      num: nat, rest: seq<bool>) returns (next: LenState)
    requires IsClCode(cl) && IsWhole(full, num) && HasRead(st, full, LZ77_OFFSET)
    requires AreSpaced(full, lens) && HasLengths(cl, lens)
    requires HoldsAt(stream, st.pos, SpacedBits(cl, lens) + rest)
    ensures HasRead(next, full, LZ77_OFFSET + 16 * |lens|) && HoldsAt(stream, next.pos, rest)
    ensures next.pos == st.pos + |SpacedBits(cl, lens)|
    ensures next.Valid() && st.Valid() && ReadLens(cl, stream, st, num) == ReadLens(cl, stream, next, num)
    decreases |lens|
  {
    hide Codeword, HoldsAt, IsClCode, IsWhole, HasRead, ReadLens, ShortGapBits;
    if lens == [] {
      assert SpacedBits(cl, lens) + rest == rest;
      AtIsValid(st, full, LZ77_OFFSET);
      next := st;
    } else {
      var last := |lens| - 1;
      var one := Codeword(cl, lens[last]) + ShortGapBits(cl);
      SpacedPrefix(full, lens);
      hide AreSpaced;
      assert SpacedBits(cl, lens) + rest == SpacedBits(cl, lens[..last]) + (one + rest);
      var mid := ReadSpaced(cl, stream, st, full, lens[..last], num, one + rest);
      next := ReadSpacedOne(cl, stream, mid, full, LZ77_OFFSET + 16 * last, lens[last], num, rest);
    }
  }

  // ----- all lengths -----

  /** The lengths up to the last LZ77 symbol that is used. */
  function FullLens(raw: seq<nat>, spaced: seq<nat>, last: nat): (r: seq<nat>)
    ensures |r| == |raw| + GAP + 16 * |spaced| + 1
  {
    raw + Copies<nat>(0, GAP) + Spread(spaced) + [last]
  }

  lemma {:induction false} SpreadZeros(lens: seq<nat>, i: nat)
    requires i < |lens|
    ensures ZerosFrom(Spread(lens), 16 * i + 1, 16 * i + 16)
  {
    var last := |lens| - 1;
    if i < last {
      SpreadZeros(lens[..last], i);
    }
  }

  lemma FullParts(raw: seq<nat>, spaced: seq<nat>, last: nat)
    requires |raw| == NUM_RAW
    ensures var full := FullLens(raw, spaced, last);
            full[..NUM_RAW] == raw && ZerosFrom(full, NUM_RAW, LZ77_OFFSET) && AreSpaced(full, spaced) &&
            full[|full| - 1] == last == full[LZ77_OFFSET + 16 * |spaced|]
  {
    var full := FullLens(raw, spaced, last);
    forall k: nat | k < |spaced|
      ensures full[LZ77_OFFSET + 16 * k] == spaced[k]
      ensures ZerosFrom(full, LZ77_OFFSET + 16 * k + 1, LZ77_OFFSET + 16 * k + 16)
    {
      SpreadAt(spaced, k);
      SpreadZeros(spaced, k);
      assert full[LZ77_OFFSET..LZ77_OFFSET + 16 * |spaced|] == Spread(spaced);
    }
  }

  /** The reader of code lengths, on everything that is written for them. */
  lemma ReadBody(cl: seq<nat>, stream: seq<bool>, st: LenState, raw: seq<nat>, spaced: seq<nat>, last: nat, num: nat)
    returns (next: LenState)
    requires |raw| == NUM_RAW && last < 16 && HasLengths(cl, raw) && HasLengths(cl, spaced) && HasLengths(cl, [last])
    requires IsClCode(cl) && IsWhole(FullLens(raw, spaced, last), num)
    requires st == LenState([], st.prev, 0, 0, FULL_SPACE, st.pos)
    requires HoldsAt(stream, st.pos, BodyBits(cl, raw, spaced, last))
    ensures st.Valid() && next.Valid() && ReadLens(cl, stream, st, num) == Some(next)
    ensures next.lens == FullLens(raw, spaced, last) && next.space == 0
    ensures next.pos == st.pos + |BodyBits(cl, raw, spaced, last)|
  {
    hide Codeword, LensBits, GapBits, SpacedBits, HoldsAt, IsClCode, IsWhole, ReadLens, FullLens, AreSpaced;
    var full := FullLens(raw, spaced, last);
    FullParts(raw, spaced, last);
    StartAt(st, full);
    assert cl[[last][0]] > 0;
    hide HasRead;
    var tail := SpacedBits(cl, spaced) + Codeword(cl, last);
    var a := ReadRaw(cl, stream, st, full, raw, num, GapBits(cl) + tail);
    var b := ReadGap(cl, stream, a, full, num, tail);
    var c := ReadSpaced(cl, stream, b, full, spaced, num, Codeword(cl, last));
    assert Codeword(cl, last) + [] == Codeword(cl, last);
    next := LenStep(cl, stream, c, full, |full| - 1, num, []);
    AtEnd(cl, stream, next, full, num);
  }

  lemma StartAt(st: LenState, full: seq<nat>)
    requires st == LenState([], st.prev, 0, 0, FULL_SPACE, st.pos)
    ensures HasRead(st, full, 0)
  {
    assert full[..0] == [];
  }

  lemma AtEnd(cl: seq<nat>, stream: seq<bool>, st: LenState, full: seq<nat>, num: nat)
    requires IsWhole(full, num) && HasRead(st, full, |full|)
    ensures st.Valid() && ReadLens(cl, stream, st, num) == Some(st) && st.lens == full && st.space == 0
  {
    SpaceAt(st, full, |full|, num);
    assert full[..|full|] == full;
  }

  // ----- the whole alphabet -----

  lemma {:induction false} SpreadTail(lens: seq<nat>, n: nat)
    requires 0 < n <= |lens| && forall k | n <= k < |lens| :: lens[k] == 0
    ensures Spread(lens) == Spread(lens[..n - 1]) + [lens[n - 1]] + Copies<nat>(0, 15 + 16 * (|lens| - n))
    decreases |lens|
  {
    var last := |lens| - 1;
    if n <= last {
      SpreadTail(lens[..last], n);
      assert lens[..last][..n - 1] == lens[..n - 1];
      assert Copies<nat>(0, 15 + 16 * (last - n)) + ([0] + Copies<nat>(0, 15)) ==
             Copies<nat>(0, 15 + 16 * (|lens| - n));
    }
  }

  /** `n` is the number of LZ77 symbols up to the last one that is used. */
  ghost predicate LastUsedAt(lz77: seq<nat>, n: nat) {
    0 < n <= |lz77| && lz77[n - 1] > 0 && forall k | n <= k < |lz77| :: lz77[k] == 0
  }

  lemma FullIsAlphabet(raw: seq<nat>, lz77: seq<nat>, n: nat)
    requires |raw| == NUM_RAW && |lz77| == NUM_LZ77 && LastUsedAt(lz77, n)
    ensures var full := FullLens(raw, lz77[..n - 1], lz77[n - 1]);
            |full| <= ALPHABET_SIZE && full + Copies<nat>(0, ALPHABET_SIZE - |full|) == Alphabet(raw, lz77)
  {
    SpreadTail(lz77, n);
    var full := FullLens(raw, lz77[..n - 1], lz77[n - 1]);
    assert Copies<nat>(0, ALPHABET_SIZE - |full|) == Copies<nat>(0, 15 + 16 * (NUM_LZ77 - n)) + Copies<nat>(0, 16);
  }

  lemma AlphabetBound(raw: seq<nat>, lz77: seq<nat>)
    requires |raw| == NUM_RAW && |lz77| == NUM_LZ77 && IsPrefixLengths(raw + lz77)
    ensures forall k | 0 <= k < ALPHABET_SIZE :: Alphabet(raw, lz77)[k] <= MAX_BITS
  {
    AlphabetIsPrefix(raw, lz77);
    hide Alphabet, Taken;
  }

  /** A complete code leaves no space. */
  lemma FullIsWhole(raw: seq<nat>, lz77: seq<nat>, n: nat)
    requires |raw| == NUM_RAW && |lz77| == NUM_LZ77 && LastUsedAt(lz77, n)
    requires IsPrefixLengths(raw + lz77) && Taken(raw + lz77, MAX_BITS) == FULL_SPACE
    ensures IsWhole(FullLens(raw, lz77[..n - 1], lz77[n - 1]), ALPHABET_SIZE)
  {
    hide Taken, ShareSum, Alphabet, Pow2, CountLen, IsPrefixLengths;
    var full := FullLens(raw, lz77[..n - 1], lz77[n - 1]);
    AlphabetBound(raw, lz77);
    FullIsAlphabet(raw, lz77, n);
    var zeros := Copies<nat>(0, ALPHABET_SIZE - |full|);
    forall k | 0 <= k < |full| ensures full[k] <= MAX_BITS {
      assert full[k] == (full + zeros)[k];
    }
    forall m: nat | m > 0 ensures CountLen(Alphabet(raw, lz77), m) == CountLen(raw + lz77, m) {
      CountAlphabet(raw, lz77, m);
    }
    SameTaken(Alphabet(raw, lz77), raw + lz77, MAX_BITS);
    TakenIsShareSum(Alphabet(raw, lz77), MAX_BITS);
    ShareSumConcat(full, zeros, MAX_BITS);
    ShareSumNone(zeros, MAX_BITS);
  }

  /** The code length code, without unused entries at the end. */
  ghost predicate IsClTable(cl: seq<nat>, num: nat) {
    && IsClCode(cl) && IsClLens(cl) && ShareSum(cl, 5) == 32 && num <= CODE_LENGTH_CODES
    && num > 0 && ClOrdered(cl)[num - 1] > 0 && forall k | num <= k < CODE_LENGTH_CODES :: ClOrdered(cl)[k] == 0
  }

  lemma OrderedPrefix(cl: seq<nat>, num: nat)
    requires IsClTable(cl, num)
    ensures num <= CODE_LENGTH_CODES && forall k | 0 <= k < num :: ClOrdered(cl)[k] <= 5
    ensures ShareSum(ClOrdered(cl)[..num], 5) == 32
  {
    hide ShareSum;
    var o := ClOrdered(cl);
    OrderedShares(cl, 5);
    SpaceLeft(o, num, 5);
    ShareSumNone(o[num..], 5);
  }

  lemma ReadCl(cl: seq<nat>, num: nat, stream: seq<bool>, pos: nat)
    requires IsClTable(cl, num) && forall k | 0 <= k < num :: ClOrdered(cl)[k] <= 5
    requires HoldsAt(stream, pos, ClBits(ClOrdered(cl)[..num]))
    ensures ReadClLens(stream, ClState(Copies<nat>(0, CODE_LENGTH_CODES), 32, pos), 0)
         == ClState(cl, 0, pos + |ClBits(ClOrdered(cl)[..num])|)
  {
    hide ShareSum, HoldsAt, ClBits, ReadClLens;
    var values := ClOrdered(cl)[..num];
    OrderedPrefix(cl, num);
    SumOfNone(5);
    assert values[..0] == [] && values[0..] == values;
    ClLensReadBack(cl, num, values, stream, ClState(Copies<nat>(0, CODE_LENGTH_CODES), 32, pos), 0);
  }

  function HeaderBits(cl: seq<nat>, num: nat, raw: seq<nat>, lz77: seq<nat>, n: nat): seq<bool>
    requires |cl| == CODE_LENGTH_CODES && num <= CODE_LENGTH_CODES && forall k | 0 <= k < num :: ClOrdered(cl)[k] <= 5
    requires (forall k | 0 <= k < |raw| :: raw[k] < 16) && forall k | 0 <= k < |lz77| :: lz77[k] < 16
    requires 0 < n <= |lz77|
  {
    FromNat(0, 2) + (ClBits(ClOrdered(cl)[..num]) + BodyBits(cl, raw, lz77[..n - 1], lz77[n - 1]))
  }

  /** The decoder gets the lengths of all 512 symbols from the written header. */
  lemma HeaderReadsBack(cl: seq<nat>, num: nat, raw: seq<nat>, lz77: seq<nat>, n: nat, stream: seq<bool>, pos: nat)
    requires |raw| == NUM_RAW && |lz77| == NUM_LZ77 && LastUsedAt(lz77, n)
    requires IsPrefixLengths(raw + lz77) && Taken(raw + lz77, MAX_BITS) == FULL_SPACE
    requires IsClTable(cl, num) && HasLengths(cl, raw) && HasLengths(cl, lz77)
    requires forall k | 0 <= k < num :: ClOrdered(cl)[k] <= 5
    requires HoldsAt(stream, pos, HeaderBits(cl, num, raw, lz77, n))
    ensures ReadComplexCode(stream, pos, ALPHABET_SIZE)
         == Some(Header(Alphabet(raw, lz77), pos + |HeaderBits(cl, num, raw, lz77, n)|))
  {
    hide Pow2, ShareSum, HoldsAt, ClBits, ReadClLens, BodyBits, FromNat, Taken, Alphabet, IsPrefixLengths, FullLens,
         ReadLens, NumberAt, Used, ReadComplexCode, ClOrdered, IsWhole, IsClTable, LastUsedAt;
    TableParts(cl, num, lz77, n);
    hide HasLengths, IsClCode;
    var values := ClOrdered(cl)[..num];
    var clBits, body := ClBits(values), BodyBits(cl, raw, lz77[..n - 1], lz77[n - 1]);
    FullIsWhole(raw, lz77, n);
    FullIsAlphabet(raw, lz77, n);
    HoldsAtSplit(stream, pos, FromNat(0, 2), clBits + body);
    HoldsAtSplit(stream, pos + 2, clBits, body);
    HeldNumber(stream, pos, 0, 2);
    ReadCl(cl, num, stream, pos + 2);
    var st := LenState([], 8, 0, 0, FULL_SPACE, pos + 2 + |clBits|);
    var next := ReadBody(cl, stream, st, raw, lz77[..n - 1], lz77[n - 1], ALPHABET_SIZE);
    ReadInParts(stream, pos, ALPHABET_SIZE, cl, pos + 2 + |clBits|, next);
  }

  lemma TableParts(cl: seq<nat>, num: nat, lz77: seq<nat>, n: nat)
    requires IsClTable(cl, num) && LastUsedAt(lz77, n) && HasLengths(cl, lz77)
    ensures IsClCode(cl) && |cl| == CODE_LENGTH_CODES && num <= CODE_LENGTH_CODES && 0 < Pow2(2)
    ensures 0 < n <= |lz77| && HasLengths(cl, lz77[..n - 1]) && HasLengths(cl, [lz77[n - 1]])
  {
    hide ShareSum, IsClCode;
    assert IsClCode(cl) ==> |cl| == CODE_LENGTH_CODES;
  }

  lemma ReadInParts(stream: seq<bool>, pos: nat, num: nat, cl: seq<nat>, clPos: nat, next: LenState)
    requires NumberAt(stream, pos, 2) == 0 && |cl| == CODE_LENGTH_CODES && next.space == 0 && |next.lens| <= num
    requires ReadClLens(stream, ClState(Copies<nat>(0, CODE_LENGTH_CODES), 32, pos + 2), 0) == ClState(cl, 0, clPos)
    requires ReadLens(cl, stream, LenState([], 8, 0, 0, FULL_SPACE, clPos), num) == Some(next)
    ensures ReadComplexCode(stream, pos, num) == Some(Header(next.lens + Copies<nat>(0, num - |next.lens|), next.pos))
  {
    hide NumberAt, ReadClLens, ReadLens, Used;
  }

  // ----- choosing the code length code -----

  function Bump(counts: seq<nat>, v: nat): (r: seq<nat>)
    requires v < |counts|
    ensures |r| == |counts| && forall k | 0 <= k < |r| :: r[k] == if k == v then counts[k] + 1 else counts[k]
  {
    counts[v := counts[v] + 1]
  }

  ghost predicate CountsAll(counts: seq<nat>, lens: seq<nat>) {
    |counts| == CODE_LENGTH_CODES && counts[ZERO_RUN] > 0 &&
    forall k | 0 <= k < |lens| :: lens[k] < 16 && counts[lens[k]] > 0
  }

  /** How often the code length symbols are written, if the last LZ77 symbol is used: 3 runs of zeros are in front of
      the LZ77 symbols, and 2 in each of the 16 gaps between them. */
  ghost predicate AreWritten(counts: seq<nat>, raw: seq<nat>, lz77: seq<nat>) {
    && |counts| == CODE_LENGTH_CODES && counts[16] == 0 && counts[17] == 35
    && forall v | 0 <= v < 16 :: counts[v] == CountLen(raw, v) + CountLen(lz77, v)
  }

  lemma WrittenNext(counts: seq<nat>, raw: seq<nat>, lz77: seq<nat>, v: nat)
    requires AreWritten(counts, raw, lz77) && v < 16
    ensures AreWritten(Bump(counts, v), raw + [v], lz77) && AreWritten(Bump(counts, v), raw, lz77 + [v])
  {
    forall x | 0 <= x < 16
      ensures CountLen(raw + [v], x) == CountLen(raw, x) + if x == v then 1 else 0
      ensures CountLen(lz77 + [v], x) == CountLen(lz77, x) + if x == v then 1 else 0
    {
      assert (raw + [v])[..|raw|] == raw && (lz77 + [v])[..|lz77|] == lz77;
    }
  }

  /** The frequencies of the code length symbols, with the runs of zeros that will be written. */
  method CodeLengthCounts(raw: seq<nat>, lz77: seq<nat>) returns (counts: seq<nat>)
    requires |raw| == NUM_RAW && |lz77| == NUM_LZ77
    requires (forall k | 0 <= k < |raw| :: raw[k] < 16) && forall k | 0 <= k < |lz77| :: lz77[k] < 16
    ensures CountsAll(counts, raw) && CountsAll(counts, lz77) && AreWritten(counts, raw, lz77)
  {
    hide AreWritten, CountLen;
    counts := Copies<nat>(0, CODE_LENGTH_CODES)[ZERO_RUN := 3 + 2 * (NUM_LZ77 - 1)];
    NothingWritten(counts);
    assert raw[..0] == [] == lz77[..0];
    for i := 0 to NUM_RAW
      invariant CountsAll(counts, raw[..i]) && AreWritten(counts, raw[..i], lz77[..0])
    {
      assert raw[..i + 1] == raw[..i] + [raw[i]];
      WrittenNext(counts, raw[..i], lz77[..0], raw[i]);
      counts := Bump(counts, raw[i]);
    }
    assert raw[..NUM_RAW] == raw;
    for i := 0 to NUM_LZ77
      invariant CountsAll(counts, raw) && CountsAll(counts, lz77[..i]) && AreWritten(counts, raw, lz77[..i])
    {
      assert lz77[..i + 1] == lz77[..i] + [lz77[i]];
      WrittenNext(counts, raw, lz77[..i], lz77[i]);
      counts := Bump(counts, lz77[i]);
    }
    assert lz77[..NUM_LZ77] == lz77;
  }

  lemma NothingWritten(counts: seq<nat>)
    requires counts == Copies<nat>(0, CODE_LENGTH_CODES)[ZERO_RUN := 35]
    ensures AreWritten(counts, [], [])
  {
  }

  /** The runs of zeros and at least one raw length occur. */
  lemma TwoUsed(counts: seq<nat>, raw: seq<nat>)
    requires CountsAll(counts, raw) && raw != []
    ensures Used(counts, CODE_LENGTH_CODES) >= 2
  {
    UsedMonotone(counts, raw[0], ZERO_RUN);
    UsedMonotone(counts, ZERO_RUN, CODE_LENGTH_CODES);
  }

  /** A Huffman code for the frequencies is a complete code length code. */
  lemma LevelIsClCode(counts: seq<nat>, cl: seq<nat>)
    requires |counts| == CODE_LENGTH_CODES && IsLevel(counts, cl, 5) && Used(counts, |counts|) >= 2
    requires counts[ZERO_RUN] > 0
    ensures IsClCode(cl) && IsClLens(cl) && ShareSum(cl, 5) == 32
    ensures forall k | 0 <= k < |counts| :: counts[k] > 0 ==> cl[k] > 0
  {
    Pow2Small();
    hide ShareSum, Used, Taken, Pow2, Shl;
    SameUsed(counts, cl, |counts|);
    TakenIsShareSum(cl, MAX_BITS);
    ShareSumScaled(cl, 5, MAX_BITS - 5);
    ShlPow2(5, MAX_BITS - 5);
  }

  /** The shortest code for the frequencies, within five bits. */
  ghost predicate IsShortCode(cl: seq<nat>, raw: seq<nat>, lz77: seq<nat>) {
    exists counts :: AreWritten(counts, raw, lz77) && AreShortest(counts, cl, 5)
  }

  method ChooseClCode(raw: seq<nat>, lz77: seq<nat>) returns (cl: seq<nat>)
    requires |raw| == NUM_RAW && |lz77| == NUM_LZ77
    requires (forall k | 0 <= k < |raw| :: raw[k] < 16) && forall k | 0 <= k < |lz77| :: lz77[k] < 16
    ensures IsClCode(cl) && IsClLens(cl) && ShareSum(cl, 5) == 32 && HasLengths(cl, raw) && HasLengths(cl, lz77)
    ensures IsShortCode(cl, raw, lz77)
  {
    hide Used, ShareSum, IsPrefixLengths, Pow2, IsLevel, AreShortest, AreWritten;
    var counts := CodeLengthCounts(raw, lz77);
    TwoUsed(counts, raw);
    Pow2Small();
    cl := ComputeLevel(counts, 5);
    LevelIsClCode(counts, cl);
  }

  // ----- writing -----

  /** Unused entries at the end are not written; symbol 17 is used. */
  method TrimOrdered(cl: seq<nat>) returns (num: nat)
    requires IsClCode(cl) && IsClLens(cl) && ShareSum(cl, 5) == 32
    ensures IsClTable(cl, num) && forall k | 0 <= k < num :: ClOrdered(cl)[k] <= 5
  {
    hide ShareSum, Used, IsPrefixLengths;
    num := CODE_LENGTH_CODES;
    assert OrderAt(6) == ZERO_RUN && ClOrdered(cl)[6] > 0;
    while cl[WrittenAt(num - 1)] == 0
      invariant 7 <= num <= CODE_LENGTH_CODES && forall k | num <= k < CODE_LENGTH_CODES :: ClOrdered(cl)[k] == 0
      decreases num
    {
      assert ClOrdered(cl)[num - 1] == 0;
      num := num - 1;
    }
  }

  lemma ClBitsAppend(values: seq<nat>, v: nat)
    requires v <= 5 && forall k | 0 <= k < |values| :: values[k] <= 5
    ensures ClBits(values + [v]) == ClBits(values) + StaticWord(v)
    decreases |values|
  {
    hide ClBits, StaticWord;
    NoClBits();
    ClBitsCons(values + [v]);
    if values == [] {
      assert (values + [v])[1..] == values && StaticWord(v) + [] == [] + StaticWord(v);
    } else {
      ClBitsCons(values);
      assert (values + [v])[1..] == values[1..] + [v];
      ClBitsAppend(values[1..], v);
      Associative(StaticWord(values[0]), ClBits(values[1..]), StaticWord(v));
    }
  }

  lemma ClBitsCons(values: seq<nat>)
    requires values != [] && forall k | 0 <= k < |values| :: values[k] <= 5
    ensures ClBits(values) == StaticWord(values[0]) + ClBits(values[1..])
  {
    hide StaticWord;
  }

  method WriteClLens(writer: BitWriter, cl: seq<nat>, num: nat)
    requires writer.Valid() && |cl| == CODE_LENGTH_CODES && num <= CODE_LENGTH_CODES
    requires forall k | 0 <= k < num :: ClOrdered(cl)[k] <= 5
    modifies writer
    ensures writer.Valid() && writer.Contents() == old(writer.Contents()) + ClBits(ClOrdered(cl)[..num])
  {
    hide ClBits, FromNat, BitWriter.Valid, BitWriter.Contents;
    ghost var before := writer.Contents();
    ghost var ordered := ClOrdered(cl);
    NoClBits();
    for i := 0 to num
      invariant writer.Valid() && writer.Contents() == before + ClBits(ordered[..i])
    {
      var symbol := cl[WrittenAt(i)];
      assert symbol == ordered[i] && ordered[..i + 1] == ordered[..i] + [symbol];
      ClBitsAppend(ordered[..i], symbol);
      StaticFits(symbol);
      writer.Write(STATIC_NBITS[symbol], STATIC_BITS[symbol]);
    }
  }

  lemma NoClBits()
    ensures ClBits([]) == []
  {
  }

  lemma StaticFits(v: nat)
    requires v <= 5
    ensures STATIC_BITS[v] < Pow2(STATIC_NBITS[v]) && StaticWord(v) == FromNat(STATIC_BITS[v], STATIC_NBITS[v])
  {
    Pow2Small();
    hide FromNat;
  }

  /** The bits of every code length symbol. */
  ghost predicate AreClBits(bits: seq<nat>, cl: seq<nat>) {
    |bits| == |cl| == CODE_LENGTH_CODES && AreCodewords(bits, cl, 0) && forall k | 0 <= k < |cl| :: cl[k] <= 5
  }

  method WriteSymbol(writer: BitWriter, cl: seq<nat>, bits: seq<nat>, s: nat)
    requires writer.Valid() && AreClBits(bits, cl) && s < CODE_LENGTH_CODES
    modifies writer
    ensures writer.Valid() && writer.Contents() == old(writer.Contents()) + Codeword(cl, s)
  {
    hide FromNat, Codeword, Pow2, BitWriter.Valid, BitWriter.Contents;
    assert bits[s] < Pow2(cl[0 + s]) && FromNat(bits[s], cl[0 + s]) == Codeword(cl, 0 + s);
    writer.Write(cl[s], bits[s]);
  }

  method WriteZeros(writer: BitWriter, cl: seq<nat>, bits: seq<nat>, extra: nat)
    requires writer.Valid() && AreClBits(bits, cl) && extra < 8
    modifies writer
    ensures writer.Valid() && writer.Contents() == old(writer.Contents()) + ZeroBits(cl, extra)
  {
    hide FromNat, Codeword, BitWriter.Valid, BitWriter.Contents;
    WriteSymbol(writer, cl, bits, ZERO_RUN);
    Pow2Small();
    writer.Write(3, extra);
  }

  method WriteLens(writer: BitWriter, cl: seq<nat>, bits: seq<nat>, lens: seq<nat>)
    requires writer.Valid() && AreClBits(bits, cl) && forall k | 0 <= k < |lens| :: lens[k] < 16
    modifies writer
    ensures writer.Valid() && writer.Contents() == old(writer.Contents()) + LensBits(cl, lens)
  {
    hide Codeword, BitWriter.Valid, BitWriter.Contents;
    ghost var before := writer.Contents();
    for i := 0 to |lens|
      invariant writer.Valid() && writer.Contents() == before + LensBits(cl, lens[..i])
    {
      assert lens[..i + 1][..i] == lens[..i];
      WriteSymbol(writer, cl, bits, lens[i]);
    }
    assert lens[..|lens|] == lens;
  }

  method WriteGap(writer: BitWriter, cl: seq<nat>, bits: seq<nat>)
    requires writer.Valid() && AreClBits(bits, cl)
    modifies writer
    ensures writer.Valid() && writer.Contents() == old(writer.Contents()) + GapBits(cl)
  {
    hide AreCodewords, ZeroBits, BitWriter.Valid, BitWriter.Contents;
    WriteZeros(writer, cl, bits, 2);
    WriteZeros(writer, cl, bits, 0);
    WriteZeros(writer, cl, bits, 6);
  }

  method WriteLz77(writer: BitWriter, cl: seq<nat>, bits: seq<nat>, lz77: seq<nat>, n: nat)
    requires writer.Valid() && AreClBits(bits, cl) && 0 < n <= |lz77| && forall k | 0 <= k < |lz77| :: lz77[k] < 16
    modifies writer
    ensures writer.Valid()
    ensures writer.Contents() == old(writer.Contents()) + (SpacedBits(cl, lz77[..n - 1]) + Codeword(cl, lz77[n - 1]))
  {
    hide AreClBits, Codeword, ZeroBits, BitWriter.Valid, BitWriter.Contents;
    assert |cl| == CODE_LENGTH_CODES by { ClSize(bits, cl); }
    ghost var before := writer.Contents();
    for i := 0 to n
      invariant writer.Valid()
      invariant i < n ==> writer.Contents() == before + SpacedBits(cl, lz77[..i])
      invariant i == n ==> writer.Contents() == before + (SpacedBits(cl, lz77[..n - 1]) + Codeword(cl, lz77[n - 1]))
    {
      WriteSymbol(writer, cl, bits, lz77[i]);
      if i != n - 1 {
        WriteZeros(writer, cl, bits, 0);
        WriteZeros(writer, cl, bits, 4);
        assert lz77[..i + 1][..i] == lz77[..i];
      }
    }
  }

  lemma ClSize(bits: seq<nat>, cl: seq<nat>)
    requires AreClBits(bits, cl)
    ensures |cl| == CODE_LENGTH_CODES
  {
  }

  method TrimLz77(lz77: seq<nat>) returns (n: nat)
    requires exists k :: 0 <= k < |lz77| && lz77[k] > 0
    ensures LastUsedAt(lz77, n)
  {
    n := |lz77|;
    while lz77[n - 1] == 0
      invariant 0 < n <= |lz77| && forall k | n <= k < |lz77| :: lz77[k] == 0
      decreases n
    {
      n := n - 1;
    }
  }

  /** Wherever the bits are, the decoder reads `lens` from them and stops at their end. */
  ghost predicate IsHeaderOf(bits: seq<bool>, lens: seq<nat>) {
    forall stream, pos: nat | HoldsAt(stream, pos, bits) ::
      ReadComplexCode(stream, pos, ALPHABET_SIZE) == Some(Header(lens, pos + |bits|))
  }

  /** A header with the shortest code for its code lengths, without what is not used at the end. */
  ghost predicate IsShortHeader(bits: seq<bool>, raw: seq<nat>, lz77: seq<nat>) {
    exists cl, num, n :: IsHeaderWith(bits, raw, lz77, cl, num, n)
  }

  ghost predicate IsHeaderWith(bits: seq<bool>, raw: seq<nat>, lz77: seq<nat>, cl: seq<nat>, num: nat, n: nat) {
    && IsShortCode(cl, raw, lz77) && IsClTable(cl, num) && LastUsedAt(lz77, n)
    && |cl| == CODE_LENGTH_CODES && (forall k | 0 <= k < num :: ClOrdered(cl)[k] <= 5)
    && (forall k | 0 <= k < |raw| :: raw[k] < 16) && (forall k | 0 <= k < |lz77| :: lz77[k] < 16)
    && bits == HeaderBits(cl, num, raw, lz77, n)
  }

  lemma HeaderWith(bits: seq<bool>, raw: seq<nat>, lz77: seq<nat>, cl: seq<nat>, num: nat, n: nat)
    requires IsShortCode(cl, raw, lz77) && IsClTable(cl, num) && LastUsedAt(lz77, n) && num <= CODE_LENGTH_CODES
    requires |cl| == CODE_LENGTH_CODES && forall k | 0 <= k < num :: ClOrdered(cl)[k] <= 5
    requires |raw| == NUM_RAW && |lz77| == NUM_LZ77
    requires (forall k | 0 <= k < NUM_RAW :: raw[k] < 16) && forall k | 0 <= k < NUM_LZ77 :: lz77[k] < 16
    requires 0 < n <= |lz77| && bits == HeaderBits(cl, num, raw, lz77, n)
    ensures IsShortHeader(bits, raw, lz77)
  {
    hide IsShortCode, IsClTable, LastUsedAt, HeaderBits, ClOrdered;
    assert IsHeaderWith(bits, raw, lz77, cl, num, n);
  }

  /** `WriteTo`, for every complete code with some LZ77 symbol. */
  method WriteTo(code: PrefixTables, writer: BitWriter) returns (ghost bits: seq<bool>)
    requires code.Valid() && Taken(code.rawNbits + code.lz77Nbits, MAX_BITS) == Pow2(MAX_BITS)
    requires exists k :: 0 <= k < |code.lz77Nbits| && code.lz77Nbits[k] > 0
    requires writer.Valid()
    modifies writer
    ensures writer.Valid() && writer.Contents() == old(writer.Contents()) + bits && IsHeaderOf(bits, code.Lens())
    ensures IsShortHeader(bits, code.rawNbits, code.lz77Nbits)
  {
    var raw, lz77 := code.rawNbits, code.lz77Nbits;
    LengthsBound(code);
    hide *;
    var cl := ChooseClCode(raw, lz77);
    var num := TrimOrdered(cl);
    var n := TrimLz77(lz77);
    TrimmedAt(lz77, n);
    ClIsLens(cl, num);
    HeaderIsRead(cl, num, raw, lz77, n);
    bits := HeaderBits(cl, num, raw, lz77, n);
    HeaderWith(bits, raw, lz77, cl, num, n);
    WriteParts(writer, cl, num, raw, lz77, n);
    assert code.Lens() == Alphabet(raw, lz77) by { LensIs(code); }
  }

  lemma LensIs(code: PrefixTables)
    requires |code.rawNbits| == NUM_RAW && |code.lz77Nbits| == NUM_LZ77
    ensures code.Lens() == Alphabet(code.rawNbits, code.lz77Nbits)
  {
    hide Alphabet;
  }

  lemma TrimmedAt(lz77: seq<nat>, n: nat)
    requires LastUsedAt(lz77, n)
    ensures 0 < n <= |lz77|
  {
  }

  lemma ClIsLens(cl: seq<nat>, num: nat)
    requires IsClTable(cl, num)
    ensures IsClLens(cl) && |cl| == CODE_LENGTH_CODES && num <= CODE_LENGTH_CODES
  {
    hide ShareSum;
  }

  method WriteParts(writer: BitWriter, cl: seq<nat>, num: nat, raw: seq<nat>, lz77: seq<nat>, n: nat)
    requires writer.Valid() && |cl| == CODE_LENGTH_CODES && num <= CODE_LENGTH_CODES && IsClLens(cl) && 0 < n <= |lz77|
    requires forall k | 0 <= k < num :: ClOrdered(cl)[k] <= 5
    requires (forall k | 0 <= k < |raw| :: raw[k] < 16) && forall k | 0 <= k < |lz77| :: lz77[k] < 16
    modifies writer
    ensures writer.Valid() && writer.Contents() == old(writer.Contents()) + HeaderBits(cl, num, raw, lz77, n)
  {
    ClBounds(cl);
    ghost var before := writer.Contents();
    hide FromNat, Pow2, AreCodewords, AreClBits, BitWriter.Valid, BitWriter.Contents, ClBits, LensBits, GapBits,
         SpacedBits, ClOrdered, IsClLens, Codeword;
    writer.Write(2, 0);
    WriteClLens(writer, cl, num);
    ghost var clPart := ClBits(ClOrdered(cl)[..num]);
    var none, clBits := ComputeCanonicalCode([], cl);
    ClBitsAre(clBits, cl);
    WriteLens(writer, cl, clBits, raw);
    WriteGap(writer, cl, clBits);
    WriteLz77(writer, cl, clBits, lz77, n);
    ghost var last := SpacedBits(cl, lz77[..n - 1]) + Codeword(cl, lz77[n - 1]);
    Regroup(before, FromNat(0, 2), clPart, LensBits(cl, raw), GapBits(cl), last);
  }

  lemma Regroup(before: seq<bool>, a: seq<bool>, b: seq<bool>, c: seq<bool>, d: seq<bool>, e: seq<bool>)
    ensures before + a + b + c + d + e == before + (a + (b + (c + (d + e))))
  {
  }

  lemma ClBounds(cl: seq<nat>)
    requires IsClLens(cl)
    ensures (forall s | 0 <= s < |cl| :: cl[s] <= MAX_BITS) && 0 < Pow2(2)
  {
  }

  lemma LengthsBound(code: PrefixTables)
    requires code.Valid()
    ensures |code.rawNbits| == NUM_RAW && |code.lz77Nbits| == NUM_LZ77
    ensures (forall k | 0 <= k < NUM_RAW :: code.rawNbits[k] < 16) &&
            forall k | 0 <= k < NUM_LZ77 :: code.lz77Nbits[k] < 16
    ensures IsPrefixLengths(code.rawNbits + code.lz77Nbits) && Pow2(MAX_BITS) == FULL_SPACE
  {
    Pow2Small();
    var lens := code.rawNbits + code.lz77Nbits;
    forall k | 0 <= k < NUM_RAW ensures code.rawNbits[k] < 16 {
      assert code.rawNbits[k] == lens[k];
    }
    forall k | 0 <= k < NUM_LZ77 ensures code.lz77Nbits[k] < 16 {
      assert code.lz77Nbits[k] == lens[NUM_RAW + k];
    }
  }

  lemma ClBitsAre(bits: seq<nat>, cl: seq<nat>)
    requires IsClLens(cl) && |bits| == |cl| && AreCodewords(bits, [] + cl, 0)
    ensures AreClBits(bits, cl)
  {
    hide AreCodewords;
    assert [] + cl == cl;
  }

  lemma HeaderIsRead(cl: seq<nat>, num: nat, raw: seq<nat>, lz77: seq<nat>, n: nat)
    requires |raw| == NUM_RAW && |lz77| == NUM_LZ77 && LastUsedAt(lz77, n)
    requires IsPrefixLengths(raw + lz77) && Taken(raw + lz77, MAX_BITS) == FULL_SPACE
    requires IsClTable(cl, num) && HasLengths(cl, raw) && HasLengths(cl, lz77)
    requires |cl| == CODE_LENGTH_CODES && forall k | 0 <= k < num :: ClOrdered(cl)[k] <= 5
    requires (forall k | 0 <= k < NUM_RAW :: raw[k] < 16) && forall k | 0 <= k < NUM_LZ77 :: lz77[k] < 16
    ensures IsHeaderOf(HeaderBits(cl, num, raw, lz77, n), Alphabet(raw, lz77))
  {
    hide HoldsAt, IsPrefixLengths, Taken, IsClTable, Alphabet, HeaderBits, ReadComplexCode, ClOrdered, HasLengths,
         LastUsedAt, IsClLens, ClBits, LensBits, SpacedBits;
    ClIsLens(cl, num);
    TrimmedAt(lz77, n);
    var bits := HeaderBits(cl, num, raw, lz77, n);
    forall stream, pos: nat | HoldsAt(stream, pos, bits)
      ensures ReadComplexCode(stream, pos, ALPHABET_SIZE) == Some(Header(Alphabet(raw, lz77), pos + |bits|))
    {
      HeaderReadsBack(cl, num, raw, lz77, n, stream, pos);
    }
  }
}
