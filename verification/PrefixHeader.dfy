/** The serialized code lengths: the reader of complex prefix codes (lib/jxl/dec_huffman.cc:16-89, 175-216;
section 3.5 of RFC 7932) and the writer (experimental/fast_lossless/fast_lossless.cc:193-259).
 */
module PrefixHeader {
  import opened Bits
  import opened BitReading
  import opened BitWriting
  import opened CanonicalCode
  import opened Alphabets
  import opened Huffman
  import opened ChunkCoding
  import opened PrefixCoding
  import opened UintConfigs
  import opened Sequences

  const CODE_LENGTH_CODES: nat := 18
  const CODE_LENGTH_ORDER: seq<nat> := [1, 2, 3, 4, 0, 5, 17, 6, 16, 7, 8, 9, 10, 11, 12, 13, 14, 15]
  const FULL_SPACE: nat := 32768

  /** The same order in the writer. */
  const WRITTEN_ORDER: seq<nat> := [1, 2, 3, 4, 0, 5, 17, 6, 16, 7, 8, 9, 10, 11, 12, 13, 14, 15]
  const ZERO_RUN: nat := 17

  // ----- the static code for the code length code lengths -----

  const STATIC_NBITS: seq<nat> := [2, 4, 3, 2, 2, 4]
  const STATIC_BITS: seq<nat> := [0, 7, 3, 2, 1, 15]

  function StaticWord(v: nat): (w: seq<bool>)
    requires v <= 5
    ensures |w| == STATIC_NBITS[v]
  {
    FromNat(STATIC_BITS[v], STATIC_NBITS[v])
  }

  function OrderAt(i: nat): (s: nat)
    requires i < CODE_LENGTH_CODES
    ensures s < CODE_LENGTH_CODES
  {
    CODE_LENGTH_ORDER[i]
  }

  function WrittenAt(i: nat): (s: nat)
    requires i < CODE_LENGTH_CODES
    ensures s == OrderAt(i)
  {
    WRITTEN_ORDER[i]
  }

  /** The lookup table of the reader: bits to consume and value, by the next four bits. */
  const HUFF_NBITS: seq<nat> := [2, 2, 2, 3, 2, 2, 2, 4, 2, 2, 2, 3, 2, 2, 2, 4]
  const HUFF_VALUE: seq<nat> := [0, 4, 3, 2, 0, 4, 3, 1, 0, 4, 3, 2, 0, 4, 3, 5]

  function Peek4(stream: seq<bool>, pos: nat): (v: nat)
    ensures v < 16
  {
    ToNatBound(Stream(stream, pos, 4));
    Pow2Small();
    NumberAt(stream, pos, 4)
  }

  /** The four peeked bits start with the bits that are held. */
  lemma PeekHeld(stream: seq<bool>, pos: nat, b: nat, n: nat)
    requires n <= 4 && HoldsAt(stream, pos, FromNat(b, n)) && b < Pow2(n)
    ensures Peek4(stream, pos) % Pow2(n) == b
  {
    var v := Peek4(stream, pos);
    var s := Stream(stream, pos, 4);
    FromNatToNat(s);
    FromNatPrefix(v, n, 4);
    assert s[..n] == FromNat(b, n) by {
      hide FromNat;
      assert stream[pos..pos + n] == FromNat(b, n);
      forall k | 0 <= k < n ensures s[k] == FromNat(b, n)[k] {
        assert stream[pos..pos + n][k] == stream[pos + k];
      }
    }
    ToNatFromNat(v, n);
    ToNatFromNat(b, n);
    ModSmall(b, Pow2(n));
  }

  lemma StaticRead(stream: seq<bool>, pos: nat, v: nat)
    requires v <= 5 && HoldsAt(stream, pos, StaticWord(v))
    ensures HUFF_VALUE[Peek4(stream, pos)] == v && HUFF_NBITS[Peek4(stream, pos)] == STATIC_NBITS[v]
  {
    Pow2Small();
    PeekHeld(stream, pos, STATIC_BITS[v], STATIC_NBITS[v]);
    StaticTable(Peek4(stream, pos), v);
  }

  lemma StaticTable(p: nat, v: nat)
    requires p < 16 && v <= 5 && p % Pow2(STATIC_NBITS[v]) == STATIC_BITS[v]
    ensures HUFF_VALUE[p] == v && HUFF_NBITS[p] == STATIC_NBITS[v]
  {
    Pow2Small();
    assert v == 0 || v == 1 || v == 2 || v == 3 || v == 4 || v == 5;
  }

  // ----- reading the code length code lengths -----

  datatype ClState = ClState(lens: seq<nat>, space: int, pos: nat)

  /** One code length code length. */
  function ClNext(stream: seq<bool>, st: ClState, i: nat): (r: ClState)
    requires i < CODE_LENGTH_CODES && |st.lens| == CODE_LENGTH_CODES
    ensures |r.lens| == CODE_LENGTH_CODES
  {
    var p := Peek4(stream, st.pos);
    ClState(Updated(st.lens, OrderAt(i), HUFF_VALUE[p]), st.space - SymbolShare(HUFF_VALUE[p], 5),
            st.pos + HUFF_NBITS[p])
  }

  /** The loop of `ReadFromBitStream`: it stops when the space is used up. */
  function ReadClLens(stream: seq<bool>, st: ClState, i: nat): ClState
    requires i <= CODE_LENGTH_CODES && |st.lens| == CODE_LENGTH_CODES
    decreases CODE_LENGTH_CODES - i
  {
    if i == CODE_LENGTH_CODES || st.space <= 0 then st else ReadClLens(stream, ClNext(stream, st, i), i + 1)
  }

  /** The lengths as they are written, without the zeros at the end. */
  function ClOrdered(cl: seq<nat>): (r: seq<nat>)
    requires |cl| == CODE_LENGTH_CODES
    ensures |r| == CODE_LENGTH_CODES && forall i | 0 <= i < |r| :: r[i] == cl[OrderAt(i)]
  {
    seq(CODE_LENGTH_CODES, i requires 0 <= i < CODE_LENGTH_CODES => cl[WrittenAt(i)])
  }

  ghost predicate IsClLens(cl: seq<nat>) {
    |cl| == CODE_LENGTH_CODES && forall i | 0 <= i < |cl| :: cl[i] <= 5
  }

  function ClBits(values: seq<nat>): seq<bool>
    requires forall i | 0 <= i < |values| :: values[i] <= 5
  {
    if values == [] then []
    else StaticWord(values[0]) + ClBits(values[1..])
  }

  /** What has been read of `cl` after `i` entries. */
  ghost predicate ClRead(lens: seq<nat>, cl: seq<nat>, i: nat) {
    |lens| == |cl| == CODE_LENGTH_CODES && i <= CODE_LENGTH_CODES &&
    (forall k: nat | k < i :: lens[OrderAt(k)] == cl[OrderAt(k)]) &&
    forall k: nat | i <= k < CODE_LENGTH_CODES :: lens[OrderAt(k)] == 0
  }

  /** Every code length symbol has a place in the order. */
  function PlaceOf(s: nat): (k: nat)
    requires s < CODE_LENGTH_CODES
    ensures k < CODE_LENGTH_CODES && OrderAt(k) == s
  {
    [4, 0, 1, 2, 3, 5, 7, 9, 10, 11, 12, 13, 14, 15, 16, 17, 8, 6][s]
  }

  lemma OrderIsInjective(i: nat, k: nat)
    requires i < CODE_LENGTH_CODES && k < CODE_LENGTH_CODES && OrderAt(i) == OrderAt(k)
    ensures i == k
  {
    PlaceIsInverse(i);
    PlaceIsInverse(k);
  }

  lemma PlaceIsInverse(i: nat)
    requires i < CODE_LENGTH_CODES
    ensures PlaceOf(OrderAt(i)) == i
  {
  }

  lemma ClReadNext(lens: seq<nat>, cl: seq<nat>, i: nat)
    requires ClRead(lens, cl, i) && i < CODE_LENGTH_CODES
    ensures ClRead(Updated(lens, OrderAt(i), cl[OrderAt(i)]), cl, i + 1)
  {
    forall k: nat | k < CODE_LENGTH_CODES && k != i ensures OrderAt(k) != OrderAt(i) {
      if OrderAt(k) == OrderAt(i) {
        OrderIsInjective(k, i);
      }
    }
  }

  lemma ClReadAll(lens: seq<nat>, cl: seq<nat>, i: nat)
    requires ClRead(lens, cl, i) && forall k: nat | i <= k < CODE_LENGTH_CODES :: cl[OrderAt(k)] == 0
    ensures lens == cl
  {
    forall s: nat | s < CODE_LENGTH_CODES ensures lens[s] == cl[s] {
      var k := PlaceOf(s);
      assert OrderAt(k) == s;
    }
  }

  lemma ShareSumPositive(s: seq<nat>, limit: nat)
    requires s != [] && 0 < s[|s| - 1] <= limit
    ensures ShareSum(s, limit) > 0
  {
  }

  /** The first entries take less than everything until the last one that is not zero. */
  lemma SpaceLeft(s: seq<nat>, i: nat, limit: nat)
    requires i <= |s|
    ensures ShareSum(s, limit) == ShareSum(s[..i], limit) + ShareSum(s[i..], limit)
    ensures i < |s| && 0 < s[|s| - 1] <= limit ==> ShareSum(s[..i], limit) < ShareSum(s, limit)
  {
    assert s == s[..i] + s[i..];
    ShareSumConcat(s[..i], s[i..], limit);
    if i < |s| && 0 < s[|s| - 1] <= limit {
      ShareSumPositive(s[i..], limit);
    }
  }

  lemma ShareSumNext(s: seq<nat>, i: nat, limit: nat)
    requires i < |s|
    ensures ShareSum(s[..i + 1], limit) == ShareSum(s[..i], limit) + SymbolShare(s[i], limit)
  {
    assert s[..i + 1][..i] == s[..i];
    hide SymbolShare;
  }

  /** The reader gets the written lengths back and stops after the last one that is not zero. */
  lemma {:induction false} ClLensReadBack(cl: seq<nat>, num: nat, values: seq<nat>, stream: seq<bool>, st: ClState,
                                          i: nat)
    requires IsClLens(cl) && num <= CODE_LENGTH_CODES && values == ClOrdered(cl)[..num] && i <= num
    requires num > 0 && values[num - 1] > 0 && forall k | num <= k < CODE_LENGTH_CODES :: ClOrdered(cl)[k] == 0
    requires ShareSum(values, 5) == 32 && st.space == 32 - ShareSum(values[..i], 5) && ClRead(st.lens, cl, i)
    requires HoldsAt(stream, st.pos, ClBits(values[i..]))
    ensures ReadClLens(stream, st, i) == ClState(cl, 0, st.pos + |ClBits(values[i..])|)
    decreases num - i
  {
    hide ShareSum, HoldsAt, FromNat, Peek4, ClRead, ClNext, ClBits, SymbolShare, Share, ReadClLens, OrderAt;
    SpaceLeft(values, i, 5);
    if i == num {
      assert values[..num] == values && values[num..] == [];
      forall k: nat | i <= k < CODE_LENGTH_CODES ensures cl[OrderAt(k)] == 0 {
        assert ClOrdered(cl)[k] == 0;
      }
      ClReadAll(st.lens, cl, i);
      ClStops(stream, st, i);
    } else {
      var next := ClReadOne(cl, num, values, stream, st, i);
      ClLensReadBack(cl, num, values, stream, next, i + 1);
    }
  }

  lemma ClStops(stream: seq<bool>, st: ClState, i: nat)
    requires i <= CODE_LENGTH_CODES && |st.lens| == CODE_LENGTH_CODES && st.space <= 0
    ensures ReadClLens(stream, st, i) == st
    ensures ClBits([]) == []
  {
  }

  lemma ClReadOne(cl: seq<nat>, num: nat, values: seq<nat>, stream: seq<bool>, st: ClState, i: nat)
    returns (next: ClState)
    requires IsClLens(cl) && i < num <= CODE_LENGTH_CODES && values == ClOrdered(cl)[..num]
    requires st.space == 32 - ShareSum(values[..i], 5) > 0 && ClRead(st.lens, cl, i)
    requires HoldsAt(stream, st.pos, ClBits(values[i..]))
    ensures ClRead(next.lens, cl, i + 1) && next.space == 32 - ShareSum(values[..i + 1], 5)
    ensures HoldsAt(stream, next.pos, ClBits(values[i + 1..]))
    ensures next.pos + |ClBits(values[i + 1..])| == st.pos + |ClBits(values[i..])|
    ensures ReadClLens(stream, st, i) == ReadClLens(stream, next, i + 1)
  {
    hide ShareSum, HoldsAt, FromNat, Peek4, ClBits, SymbolShare, Share, ClNext, StaticWord, OrderAt;
    var v := values[i];
    assert v == cl[OrderAt(i)] && |st.lens| == CODE_LENGTH_CODES && v <= 5;
    assert forall k | 0 <= k < |values| :: values[k] <= 5;
    hide ClRead, ClOrdered, IsClLens;
    next := ClNext(stream, st, i);
    ClBitsNext(values, i);
    HoldsAtSplit(stream, st.pos, StaticWord(v), ClBits(values[i + 1..]));
    ClStep(stream, st, i, v);
    ShareSumNext(values, i, 5);
    ClReadNext(st.lens, cl, i);
  }

  lemma ClBitsNext(values: seq<nat>, i: nat)
    requires i < |values| && forall k | 0 <= k < |values| :: values[k] <= 5
    ensures ClBits(values[i..]) == StaticWord(values[i]) + ClBits(values[i + 1..])
  {
    assert values[i..][0] == values[i] && values[i..][1..] == values[i + 1..];
    hide FromNat;
  }

  lemma ClStep(stream: seq<bool>, st: ClState, i: nat, v: nat)
    requires i < CODE_LENGTH_CODES && |st.lens| == CODE_LENGTH_CODES && v <= 5
    requires HoldsAt(stream, st.pos, StaticWord(v))
    ensures ClNext(stream, st, i)
         == ClState(Updated(st.lens, OrderAt(i), v), st.space - SymbolShare(v, 5), st.pos + STATIC_NBITS[v])
  {
    StaticRead(stream, st.pos, v);
    hide Peek4, Share, FromNat;
  }

  lemma SumOfSix(s: seq<nat>, limit: nat)
    requires |s| == 6
    ensures ShareSum(s, limit) == SymbolShare(s[0], limit) + SymbolShare(s[1], limit) + SymbolShare(s[2], limit)
              + SymbolShare(s[3], limit) + SymbolShare(s[4], limit) + SymbolShare(s[5], limit)
  {
    hide SymbolShare, ShareSum;
    ShareSumNext(s, 0, limit);
    ShareSumNext(s, 1, limit);
    ShareSumNext(s, 2, limit);
    ShareSumNext(s, 3, limit);
    ShareSumNext(s, 4, limit);
    ShareSumNext(s, 5, limit);
    SumOfNone(limit);
    assert s[..6] == s && s[..0] == [];
  }

  lemma SumOfNone(limit: nat)
    ensures ShareSum([], limit) == 0
  {
  }

  lemma SumOfEighteen(s: seq<nat>, limit: nat)
    requires |s| == 18
    ensures ShareSum(s, limit) == ShareSum(s[..6], limit) + ShareSum(s[6..12], limit) + ShareSum(s[12..], limit)
  {
    ShareSumConcat(s[..6] + s[6..12], s[12..], limit);
    ShareSumConcat(s[..6], s[6..12], limit);
    assert s == s[..6] + s[6..12] + s[12..];
  }

  /** The order of the lengths does not change what they take. */
  lemma OrderedShares(cl: seq<nat>, limit: nat)
    requires |cl| == CODE_LENGTH_CODES
    ensures ShareSum(ClOrdered(cl), limit) == ShareSum(cl, limit)
  {
    hide SymbolShare, ShareSum;
    var o := ClOrdered(cl);
    SumOfEighteen(cl, limit);
    SumOfSix(cl[..6], limit);
    SumOfSix(cl[6..12], limit);
    SumOfSix(cl[12..], limit);
    SumOfEighteen(o, limit);
    SumOfSix(o[..6], limit);
    SumOfSix(o[6..12], limit);
    SumOfSix(o[12..], limit);
  }

  // ----- reading the code lengths -----

  /** Lengths so far, the last one that was not zero, the repetition in progress, and what is left. */
  datatype LenState = LenState(lens: seq<nat>, prev: nat, repeat: nat, repeatLen: nat, space: int, pos: nat) {
    ghost predicate Valid() {
      repeat == 0 || repeat >= 3
    }
  }

  function AfterLen(st: LenState, n: nat, pos: nat): LenState {
    LenState(st.lens + [n], if n != 0 then n else st.prev, 0, st.repeatLen, st.space - SymbolShare(n, MAX_BITS), pos)
  }

  /** Symbol 16 repeats the last length, symbol 17 zeros; a second one in a row extends the repetition. */
  function AfterRepeat(st: LenState, symbol: nat, extra: nat, pos: nat): (r: LenState)
    requires st.Valid() && symbol in {16, 17}
    ensures r.Valid() && |r.lens| > |st.lens|
  {
    var newLen := if symbol == 16 then st.prev else 0;
    var prior := if st.repeatLen != newLen then 0 else st.repeat;
    var repeat := (if prior > 0 then Shl(prior - 2, symbol - 14) else 0) + extra + 3;
    RepeatGrows(prior, symbol - 14);
    LenState(st.lens + Copies(newLen, repeat - prior), st.prev, repeat, newLen,
             st.space - if newLen != 0 then (repeat - prior) * Share(MAX_BITS, newLen) else 0, pos)
  }

  lemma RepeatGrows(prior: nat, n: nat)
    requires (prior == 0 || prior >= 3) && 2 <= n <= 3
    ensures prior > 0 ==> Shl(prior - 2, n) + 3 > prior
  {
    if prior > 0 {
      var v: nat := prior - 2;
      assert Shl(v, n) == 2 * Shl(v, n - 1) && Shl(v, n - 1) == 2 * Shl(v, n - 2) && Shl(v, n - 2) >= v;
    }
  }

  function LastUsed(cl: seq<nat>): nat {
    if cl == [] then 0
    else if cl[|cl| - 1] > 0 then |cl| - 1
    else LastUsed(cl[..|cl| - 1])
  }

  /** The next code length symbol and its bits; a code with a single symbol needs none. */
  ghost function NextClSymbol(cl: seq<nat>, stream: seq<bool>, pos: nat): (nat, nat) {
    if Used(cl, |cl|) == 1 then
      (LastUsed(cl), 0)
    else
      var s := ReadPrefixSymbol(cl, stream, pos);
      (s, if s < |cl| then cl[s] else 0)
  }

  /** The loop of `ReadHuffmanCodeLengths`. */
  ghost function ReadLens(cl: seq<nat>, stream: seq<bool>, st: LenState, num: nat): Option<LenState>
    requires st.Valid()
    decreases num - |st.lens|
  {
    if |st.lens| >= num || st.space <= 0 then Some(st)
    else
      var next := NextClSymbol(cl, stream, st.pos);
      var symbol, pos := next.0, st.pos + next.1;
      if symbol < 16 then ReadLens(cl, stream, AfterLen(st, symbol, pos), num)
      else if symbol >= CODE_LENGTH_CODES then None
      else
        var extra := NumberAt(stream, pos, symbol - 14);
        var after := AfterRepeat(st, symbol, extra, pos + symbol - 14);
        if |after.lens| > num then None else ReadLens(cl, stream, after, num)
  }

  datatype Header = Header(lens: seq<nat>, pos: nat)

  /** A complex prefix code; simple codes, announced by 1, are not modelled. */
  ghost function ReadComplexCode(stream: seq<bool>, pos: nat, num: nat): Option<Header> {
    var skip := NumberAt(stream, pos, 2);
    if skip == 1 || skip > 3 then None
    else
      var cl := ReadClLens(stream, ClState(Copies<nat>(0, CODE_LENGTH_CODES), 32, pos + 2), skip);
      if Used(cl.lens, |cl.lens|) != 1 && cl.space != 0 then None
      else
        var read := ReadLens(cl.lens, stream, LenState([], 8, 0, 0, FULL_SPACE, cl.pos), num);
        if read.None? || read.value.space != 0 || |read.value.lens| > num then None
        else Some(Header(read.value.lens + Copies<nat>(0, num - |read.value.lens|), read.value.pos))
  }

  // ----- reading what the writer writes -----

  /** A code length, or a run of zeros with three extra bits. */
  datatype Token = Len(n: nat) | ZeroRun(extra: nat)

  function TokenSymbol(t: Token): nat {
    match t
    case Len(n) => n
    case ZeroRun(_) => ZERO_RUN
  }

  ghost predicate TokenOk(cl: seq<nat>, t: Token) {
    && |cl| == CODE_LENGTH_CODES && TokenSymbol(t) < CODE_LENGTH_CODES && cl[TokenSymbol(t)] > 0
    && match t
       case Len(n) => n < 16
       case ZeroRun(extra) => extra < 8
  }

  function TokenBits(cl: seq<nat>, t: Token): seq<bool>
    requires TokenSymbol(t) < |cl|
  {
    match t
    case Len(n) => Codeword(cl, n)
    case ZeroRun(extra) => Codeword(cl, ZERO_RUN) + FromNat(extra, 3)
  }

  function AfterToken(st: LenState, t: Token, pos: nat): LenState
    requires st.Valid()
  {
    match t
    case Len(n) => AfterLen(st, n, pos)
    case ZeroRun(extra) => AfterRepeat(st, ZERO_RUN, extra, pos)
  }

  lemma ClSymbolHeld(cl: seq<nat>, stream: seq<bool>, pos: nat, s: nat)
    requires IsPrefixLengths(cl) && Used(cl, |cl|) >= 2 && s < |cl| && cl[s] > 0 &&
             HoldsAt(stream, pos, Codeword(cl, s))
    ensures NextClSymbol(cl, stream, pos) == (s, cl[s])
  {
    hide Codeword, Used;
    ReadsBack(cl, stream, pos, s);
  }

  /** A held token takes the reader one step further. */
  lemma ReadToken(cl: seq<nat>, stream: seq<bool>, st: LenState, t: Token, num: nat)
    requires IsPrefixLengths(cl) && Used(cl, |cl|) >= 2 && TokenOk(cl, t) && st.Valid()
    requires |st.lens| < num && st.space > 0 && HoldsAt(stream, st.pos, TokenBits(cl, t))
    requires |AfterToken(st, t, 0).lens| <= num
    ensures AfterToken(st, t, st.pos + |TokenBits(cl, t)|).Valid()
    ensures ReadLens(cl, stream, st, num) == ReadLens(cl, stream, AfterToken(st, t, st.pos + |TokenBits(cl, t)|), num)
  {
    hide Codeword, Used, IsPrefixLengths, FromNat, NumberAt, NextClSymbol, SymbolShare, Share;
    match t
    case Len(n) =>
      ClSymbolHeld(cl, stream, st.pos, n);
    case ZeroRun(extra) =>
      HoldsAtSplit(stream, st.pos, Codeword(cl, ZERO_RUN), FromNat(extra, 3));
      ClSymbolHeld(cl, stream, st.pos, ZERO_RUN);
      assert Pow2(3) == 8 by { Pow2Small(); }
      HeldNumber(stream, st.pos + cl[ZERO_RUN], extra, 3);
  }

  // ----- the lengths that are written -----

  /** Lengths that use up all the space, the last one not zero. */
  ghost predicate IsWhole(full: seq<nat>, num: nat) {
    full != [] && full[|full| - 1] > 0 && |full| <= num && (forall k | 0 <= k < |full| :: full[k] <= MAX_BITS)
    && ShareSum(full, MAX_BITS) == FULL_SPACE
  }

  ghost predicate IsClCode(cl: seq<nat>) {
    |cl| == CODE_LENGTH_CODES && IsPrefixLengths(cl) && Used(cl, |cl|) >= 2 && cl[ZERO_RUN] > 0
  }

  /** The first `i` lengths have been read. */
  ghost predicate HasRead(st: LenState, full: seq<nat>, i: nat) {
    st.Valid() && st.repeatLen == 0 && i <= |full| && st.lens == full[..i]
    && st.space == FULL_SPACE - ShareSum(full[..i], MAX_BITS)
  }

  lemma SpaceAt(st: LenState, full: seq<nat>, i: nat, num: nat)
    requires IsWhole(full, num) && HasRead(st, full, i)
    ensures st.Valid() && |st.lens| == i && (i < |full| ==> i < num && st.space > 0) && (i == |full| ==> st.space == 0)
  {
    hide ShareSum;
    SpaceLeft(full, i, MAX_BITS);
    if i == |full| {
      assert full[..i] == full;
    }
  }

  lemma AfterLenAt(st: LenState, full: seq<nat>, i: nat, pos: nat)
    requires HasRead(st, full, i) && i < |full|
    ensures HasRead(AfterLen(st, full[i], pos), full, i + 1)
  {
    hide ShareSum, SymbolShare;
    ShareSumNext(full, i, MAX_BITS);
    assert full[..i + 1] == full[..i] + [full[i]];
  }

  /** A length takes the reader one position further. */
  lemma LenStep(cl: seq<nat>, stream: seq<bool>, st: LenState, full: seq<nat>, i: nat, num: nat, rest: seq<bool>)
    returns (next: LenState)
    requires IsClCode(cl) && IsWhole(full, num) && i < |full| && HasRead(st, full, i)
    requires full[i] < 16 && cl[full[i]] > 0 && HoldsAt(stream, st.pos, Codeword(cl, full[i]) + rest)
    ensures HasRead(next, full, i + 1) && next.repeat == 0 && next.pos == st.pos + cl[full[i]]
    ensures HoldsAt(stream, next.pos, rest)
    ensures next.Valid() && st.Valid() && ReadLens(cl, stream, st, num) == ReadLens(cl, stream, next, num)
  {
    hide Codeword, ShareSum, SymbolShare, IsPrefixLengths, Used, ReadLens, HoldsAt;
    SpaceAt(st, full, i, num);
    HoldsAtSplit(stream, st.pos, Codeword(cl, full[i]), rest);
    next := AfterLen(st, full[i], st.pos + cl[full[i]]);
    ReadToken(cl, stream, st, Len(full[i]), num);
    AfterLenAt(st, full, i, st.pos + cl[full[i]]);
  }

  /** The repetition after one more symbol 17. */
  function Extended(repeat: nat, extra: nat): nat {
    (if repeat > 0 then Shl(if repeat > 2 then repeat - 2 else 0, 3) else 0) + extra + 3
  }

  lemma ExtendedRuns()
    ensures Extended(0, 2) == 5 && Extended(5, 0) == 27 && Extended(27, 6) == 209
    ensures Extended(0, 0) == 3 && Extended(3, 4) == 15
  {
    ShlThree(3);
    ShlThree(25);
    ShlThree(1);
  }

  lemma ShlThree(v: nat)
    ensures Shl(v, 3) == 8 * v
  {
    assert Shl(v, 3) == 2 * Shl(v, 2) && Shl(v, 2) == 2 * Shl(v, 1) && Shl(v, 1) == 2 * Shl(v, 0);
  }

  predicate ZerosFrom(full: seq<nat>, i: nat, j: nat) {
    i <= j <= |full| && forall k | i <= k < j :: full[k] == 0
  }

  lemma ZeroShares(full: seq<nat>, i: nat, j: nat)
    requires ZerosFrom(full, i, j)
    ensures ShareSum(full[..j], MAX_BITS) == ShareSum(full[..i], MAX_BITS)
  {
    SpaceLeft(full[..j], i, MAX_BITS);
    ShareSumNone(full[i..j], MAX_BITS);
    assert full[..j][..i] == full[..i] && full[..j][i..] == full[i..j];
  }

  lemma AfterRunAt(st: LenState, full: seq<nat>, i: nat, j: nat, extra: nat, pos: nat)
    requires HasRead(st, full, i) && ZerosFrom(full, i, j) && j == i + Extended(st.repeat, extra) - st.repeat
    ensures var next := AfterRepeat(st, ZERO_RUN, extra, pos);
            HasRead(next, full, j) && next.repeat == Extended(st.repeat, extra)
  {
    hide ShareSum, Share, Shl;
    ZeroShares(full, i, j);
    assert full[..j] == full[..i] + Copies(0, j - i);
  }

  function ZeroBits(cl: seq<nat>, extra: nat): seq<bool>
    requires |cl| == CODE_LENGTH_CODES
  {
    Codeword(cl, ZERO_RUN) + FromNat(extra, 3)
  }

  /** A run of zeros, or more of it. */
  lemma ZeroStep(cl: seq<nat>, stream: seq<bool>, st: LenState, full: seq<nat>, i: nat, j: nat, extra: nat, num: nat,
                 rest: seq<bool>) returns (next: LenState)
    requires IsClCode(cl) && IsWhole(full, num) && i < |full| && HasRead(st, full, i) && extra < 8
    requires ZerosFrom(full, i, j) && j == i + Extended(st.repeat, extra) - st.repeat
    requires HoldsAt(stream, st.pos, ZeroBits(cl, extra) + rest)
    ensures HasRead(next, full, j) && next.repeat == Extended(st.repeat, extra)
    ensures next.pos == st.pos + |ZeroBits(cl, extra)| && HoldsAt(stream, next.pos, rest)
    ensures next.Valid() && st.Valid() && ReadLens(cl, stream, st, num) == ReadLens(cl, stream, next, num)
  {
    hide Codeword, ShareSum, SymbolShare, Share, IsPrefixLengths, Used, ReadLens, HoldsAt, FromNat, Extended, Shl;
    SpaceAt(st, full, i, num);
    HoldsAtSplit(stream, st.pos, ZeroBits(cl, extra), rest);
    AfterRunAt(st, full, i, j, extra, st.pos + |ZeroBits(cl, extra)|);
    AfterRunAt(st, full, i, j, extra, 0);
    next := AfterRepeat(st, ZERO_RUN, extra, st.pos + |ZeroBits(cl, extra)|);
    ReadToken(cl, stream, st, ZeroRun(extra), num);
  }
}
