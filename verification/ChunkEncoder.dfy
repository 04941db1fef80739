/** The token stream of the fast lossless encoder (experimental/fast_lossless/fast_lossless.cc:264-270,
538-545, 710-746, 784-830): sixteen residuals at a time, with runs of the last residual, read back by
prefix code, hybrid integers and LZ77 copies at distance 1 (lib/jxl/dec_ans.h:305-347).
 */
module ChunkCoding {
  import opened Bits
  import opened BitReading
  import opened BitWriting
  import opened HybridUint
  import opened History
  import SymbolSpec
  import opened CanonicalCode
  import opened Alphabets
  import opened Sequences

  const CHUNK_SIZE: nat := 16
  const LZ77_MIN_LENGTH: nat := 16

  const SYMBOL_CONFIG: Config := Config(0, 0, 0)
  const LENGTH_CONFIG: Config := Config(4, 0, 4)

  // ----- hybrid integers -----

  /** `EncodeHybridUint000`. */
  function EncodeHybridUint000(value: nat): Encoded {
    if value == 0 then Encoded(0, 0, 0)
    else
      var n := FloorLog2(value);
      Encoded(n + 1, n, value - Pow2(n))
  }

  /** `EncodeHybridUint404_Mul16`: the token is divided by 16. */
  function EncodeHybridUint404Mul16(value: nat): Encoded {
    if value < 16 then Encoded(0, 0, 0)
    else
      LengthLog2(value);
      WithLog404(value, FloorLog2(value))
  }

  ghost predicate IsLog404(value: nat, n: nat) {
    n >= 4 && Pow2(n - 4) <= Shr(value, 4) < Pow2(n - 3)
  }

  function WithLog404(value: nat, n: nat): Encoded
    requires IsLog404(value, n)
  {
    Encoded(n - 3, n - 4, Shr(value, 4) - Pow2(n - 4))
  }

  lemma LengthLog2(value: nat)
    requires value >= 16
    ensures IsLog404(value, FloorLog2(value))
  {
    var n := FloorLog2(value);
    assert Pow2(4) == 16 by { Pow2Small(); }
    hide FloorLog2, Shr, Pow2;
    if n < 4 {
      Pow2Monotone(n + 1, 4);
    }
    ShrBounds(value, n - 4, 4);
    ShrBounds(value, n - 3, 4);
  }

  /** Both are the general hybrid integer code with a fixed configuration. */
  lemma Is000(value: nat)
    ensures EncodeHybridUint000(value) == Encode(SYMBOL_CONFIG, value)
  {
    assert Pow2(0) == 1;
    if value > 0 {
      Large000(value, FloorLog2(value));
    }
  }

  lemma Large000(value: nat, n: nat)
    requires Pow2(n) <= value < Pow2(n + 1)
    ensures EncodeLarge(SYMBOL_CONFIG, value, n) == Encoded(n + 1, n, value - Pow2(n))
  {
    var m := value - Pow2(n);
    assert Shl(n, 0) == n && Shl(Shr(m, n), 0) == Shr(m, n) && Low(m, 0) == 0 && Shr(value, 0) == value && Pow2(0) == 1;
    assert EncodeLarge(SYMBOL_CONFIG, value, n)
        == Encoded(Pow2(0) + Shl(n, 0) + Shl(Shr(m, n), 0) + Low(m, 0), n, Low(Shr(value, 0), n));
    hide Shr, Low, Pow2, Shl, EncodeLarge;
    LowSmall(m, n);
    LowOfTop(value, n);
  }

  lemma LowOfTop(v: nat, n: nat)
    requires Pow2(n) <= v < Pow2(n + 1)
    ensures Low(v, n) == v - Pow2(n)
  {
    ShlPow2(0, n);
    ShiftJoin(1, v - Pow2(n), n);
  }

  lemma Is404(value: nat)
    requires value % 16 == 0
    ensures var e := EncodeHybridUint404Mul16(value);
            Encode(LENGTH_CONFIG, value) == Encoded(16 * e.token, e.nbits, e.bits)
  {
    hide Shr, Low, Pow2, Shl, EncodeLarge, IsLog404, FloorLog2;
    assert LENGTH_CONFIG.SplitToken() == Pow2(4) == 16 by { Pow2Small(); }
    if value >= 16 {
      LengthLog2(value);
      Large404(value, FloorLog2(value));
    }
  }

  lemma Large404(value: nat, n: nat)
    requires value % 16 == 0 && Pow2(n) <= value < Pow2(n + 1) && IsLog404(value, n)
    ensures EncodeLarge(LENGTH_CONFIG, value, n) == Encoded(16 * (n - 3), n - 4, Shr(value, 4) - Pow2(n - 4))
  {
    var m := value - Pow2(n);
    assert Pow2(4) == 16 by { Pow2Small(); }
    assert EncodeLarge(LENGTH_CONFIG, value, n)
        == Encoded(Pow2(4) + Shl(n - 4, 4) + Shl(Shr(m, n), 4) + Low(m, 4), n - 4, Low(Shr(value, 4), n - 4));
    hide Shr, Low, Pow2, Shl, EncodeLarge;
    Pow2Add(4, n - 4);
    MultipleLeft(value, Pow2(n - 4));
    LowSmall(m, n);
    LowOfTop(Shr(value, 4), n - 4);
    MultipleOf16(m);
    ShlFour(n - 4);
    ShlFour(0);
  }

  lemma MultipleLeft(value: nat, x: nat)
    requires value % 16 == 0 && 16 * x <= value
    ensures (value - 16 * x) % 16 == 0
  {
  }

  lemma ShlFour(v: nat)
    ensures Shl(v, 4) == 16 * v
  {
    assert Shl(v, 4) == 2 * Shl(v, 3) && Shl(v, 3) == 2 * Shl(v, 2) && Shl(v, 2) == 2 * Shl(v, 1);
    assert Shl(v, 1) == 2 * Shl(v, 0);
  }

  lemma MultipleOf16(v: nat)
    requires v % 16 == 0
    ensures Low(v, 4) == 0
  {
    ShlFour(v / 16);
    Pow2Small();
    ShiftJoin(v / 16, 0, 4);
  }

  // ----- items and their bits -----

  datatype Item = Lit(value: nat) | Rep(count: nat)

  function ItemSymbol(item: Item): nat {
    match item
    case Lit(value) => EncodeHybridUint000(value).token
    case Rep(count) => LZ77_OFFSET + if count < 16 then 0 else 16 * EncodeHybridUint404Mul16(count - 16).token
  }

  function ItemRaw(item: Item): Encoded {
    match item
    case Lit(value) => EncodeHybridUint000(value)
    case Rep(count) => if count < 16 then Encoded(0, 0, 0) else EncodeHybridUint404Mul16(count - 16)
  }

  /** The symbol has a codeword; runs are positive multiples of sixteen. */
  ghost predicate ItemOk(lens: seq<nat>, item: Item) {
    && ItemSymbol(item) < |lens| && lens[ItemSymbol(item)] > 0
    && match item
       case Lit(value) => value < UINT32_LIMIT && ItemSymbol(item) < LZ77_OFFSET
       case Rep(count) => 16 <= count < UINT32_LIMIT && count % 16 == 0
  }

  ghost predicate AllOk(lens: seq<nat>, items: seq<Item>) {
    forall k | 0 <= k < |items| :: ItemOk(lens, items[k])
  }

  function ItemBits(lens: seq<nat>, item: Item): seq<bool>
    requires ItemSymbol(item) < |lens|
  {
    Codeword(lens, ItemSymbol(item)) + FromNat(ItemRaw(item).bits, ItemRaw(item).nbits)
  }

  ghost function StreamBits(lens: seq<nat>, items: seq<Item>): seq<bool>
    requires AllOk(lens, items)
  {
    if items == [] then [] else StreamBits(lens, items[..|items| - 1]) + ItemBits(lens, items[|items| - 1])
  }

  function LastOf(h: seq<nat>): nat {
    if h == [] then 0 else h[|h| - 1]
  }

  /** The values that items stand for: a run repeats the last value, or zero if there is none. */
  function Expand(items: seq<Item>): seq<nat> {
    if items == [] then []
    else
      var before := Expand(items[..|items| - 1]);
      match items[|items| - 1]
      case Lit(value) => before + [value]
      case Rep(count) => before + Copies(LastOf(before), count)
  }

  // ----- reading -----

  datatype Reader = Reader(pos: nat, history: seq<nat>, count: nat, distance: nat) {
    ghost predicate Valid() {
      count > 0 ==> distance <= |history|
    }

    function Copy(): Reader
      requires Valid() && count > 0
    {
      Reader(pos, history + [if distance == 0 then 0 else history[|history| - distance]], count - 1, distance)
    }
  }

  /** The distance code is always 1, read without bits from a one-symbol alphabet. */
  function CopyDistance(multiplier: nat, decoded: nat): (d: nat)
    requires multiplier > 0
    ensures d <= decoded
  {
    SymbolSpec.SecondDistance(multiplier);
    Min(Min(SymbolSpec.SpecialDistances(multiplier)[1], decoded), WINDOW_SIZE)
  }

  lemma CopyDistanceIsOne(multiplier: nat, decoded: nat)
    requires multiplier > 0
    ensures CopyDistance(multiplier, decoded) == if decoded == 0 then 0 else 1
  {
    SymbolSpec.SecondDistance(multiplier);
  }

  /** The length of a copy, in 32 bits. */
  function CopyCount(length: nat): nat {
    (length + LZ77_MIN_LENGTH) % UINT32_LIMIT
  }

  lemma CountKept(length: nat)
    requires length + LZ77_MIN_LENGTH < UINT32_LIMIT
    ensures CopyCount(length) == length + LZ77_MIN_LENGTH
  {
    ModSmall(length + LZ77_MIN_LENGTH, UINT32_LIMIT);
  }

  /** One value, as `ReadHybridUintClustered` reads it with a prefix code. */
  ghost function ReadValue(lens: seq<nat>, stream: seq<bool>, multiplier: nat, r: Reader): (r': Reader)
    requires r.Valid() && multiplier > 0
    ensures r'.Valid()
  {
    if r.count > 0 then r.Copy()
    else
      var sym := ReadPrefixSymbol(lens, stream, r.pos);
      var pos := r.pos + if sym < |lens| then lens[sym] else 0;
      if sym >= LZ77_OFFSET then StartRun(stream, multiplier, r.history, sym - LZ77_OFFSET, pos)
      else ReadLiteral(stream, r, sym, pos)
  }

  /** A length token and its raw bits set up a copy, and the first value is copied; a length that wraps
      around 2^32 is not. */
  function StartRun(stream: seq<bool>, multiplier: nat, history: seq<nat>, token: nat, pos: nat): (r: Reader)
    requires multiplier > 0
    ensures r.Valid()
  {
    var n := RawBits(LENGTH_CONFIG, token);
    var count := CopyCount(Decode(LENGTH_CONFIG, token, NumberAt(stream, pos, n)));
    var copy := Reader(pos + n, history, count, CopyDistance(multiplier, |history|));
    if count < LZ77_MIN_LENGTH then copy else copy.Copy()
  }

  function ReadLiteral(stream: seq<bool>, r: Reader, token: nat, pos: nat): Reader {
    var n := RawBits(SYMBOL_CONFIG, token);
    Reader(pos + n, r.history + [Decode(SYMBOL_CONFIG, token, NumberAt(stream, pos, n))], 0, r.distance)
  }

  ghost function ReadValues(lens: seq<nat>, stream: seq<bool>, multiplier: nat, r: Reader, n: nat): (r': Reader)
    requires r.Valid() && multiplier > 0
    ensures r'.Valid()
  {
    if n == 0 then r else ReadValue(lens, stream, multiplier, ReadValues(lens, stream, multiplier, r, n - 1))
  }

  lemma {:induction false} ReadValuesSplit(lens: seq<nat>, stream: seq<bool>, multiplier: nat, r: Reader, m: nat,
                                           n: nat)
    requires r.Valid() && multiplier > 0
    ensures ReadValues(lens, stream, multiplier, r, m + n)
         == ReadValues(lens, stream, multiplier, ReadValues(lens, stream, multiplier, r, m), n)
    decreases n
  {
    hide ReadValue;
    if n > 0 {
      ReadValuesSplit(lens, stream, multiplier, r, m, n - 1);
    }
  }

  lemma ReadCopy(lens: seq<nat>, stream: seq<bool>, multiplier: nat, r: Reader)
    requires r.Valid() && multiplier > 0 && r.count > 0
    ensures ReadValue(lens, stream, multiplier, r) == r.Copy()
  {
  }

  /** A copy at distance 1 repeats the last value. */
  lemma {:induction false} ReadCopies(lens: seq<nat>, stream: seq<bool>, multiplier: nat, r: Reader, n: nat)
    requires r.Valid() && multiplier > 0 && n <= r.count
    requires r.distance == if r.history == [] then 0 else 1
    ensures ReadValues(lens, stream, multiplier, r, n)
         == Reader(r.pos, r.history + Copies(LastOf(r.history), n), r.count - n, r.distance)
    decreases n
  {
    hide ReadValue;
    if n > 0 {
      ReadCopies(lens, stream, multiplier, r, n - 1);
      ReadCopy(lens, stream, multiplier, ReadValues(lens, stream, multiplier, r, n - 1));
      var h := r.history + Copies(LastOf(r.history), n - 1);
      assert h + [LastOf(r.history)] == r.history + Copies(LastOf(r.history), n);
    } else {
      assert r.history + Copies(LastOf(r.history), 0) == r.history;
    }
  }

  // ----- reading items back -----

  lemma ItemHeld(lens: seq<nat>, stream: seq<bool>, pos: nat, item: Item)
    requires IsPrefixLengths(lens) && ItemOk(lens, item) && HoldsAt(stream, pos, ItemBits(lens, item))
    ensures var sym, raw := ItemSymbol(item), ItemRaw(item);
            ReadPrefixSymbol(lens, stream, pos) == sym &&
            HoldsAt(stream, pos + lens[sym], FromNat(raw.bits, raw.nbits)) &&
            |ItemBits(lens, item)| == lens[sym] + raw.nbits
  {
    var sym, raw := ItemSymbol(item), ItemRaw(item);
    hide ItemSymbol, ItemRaw, Codeword, FromNat, IsPrefixLengths;
    HoldsAtSplit(stream, pos, Codeword(lens, sym), FromNat(raw.bits, raw.nbits));
    ReadsBack(lens, stream, pos, sym);
  }

  lemma RawHeld(cfg: Config, value: nat, stream: seq<bool>, pos: nat)
    requires cfg.Valid() && value < UINT32_LIMIT
    requires var e := Encode(cfg, value); HoldsAt(stream, pos, FromNat(e.bits, e.nbits))
    ensures var e := Encode(cfg, value);
            RawBits(cfg, e.token) == e.nbits && Decode(cfg, e.token, NumberAt(stream, pos, e.nbits)) == value
  {
    DecodeEncode(cfg, value);
    hide Encode, Decode, FromNat, NumberAt, RawBits;
    HeldNumber(stream, pos, Encode(cfg, value).bits, Encode(cfg, value).nbits);
  }

  /** A literal is read in one step. */
  lemma ReadLit(lens: seq<nat>, stream: seq<bool>, multiplier: nat, r: Reader, item: Item)
    requires IsPrefixLengths(lens) && ItemOk(lens, item) && item.Lit? && multiplier > 0 && r.count == 0
    requires HoldsAt(stream, r.pos, ItemBits(lens, item))
    ensures ReadValue(lens, stream, multiplier, r)
         == Reader(r.pos + |ItemBits(lens, item)|, r.history + [item.value], 0, r.distance)
  {
    var e := Encode(SYMBOL_CONFIG, item.value);
    LitParts(lens, item);
    hide ItemOk, EncodeHybridUint000, Codeword, FromNat, ItemBits, ItemSymbol, ItemRaw, Encode, Decode, RawBits,
         NumberAt, HoldsAt, IsPrefixLengths, ReadValue;
    ItemHeld(lens, stream, r.pos, item);
    RawHeld(SYMBOL_CONFIG, item.value, stream, r.pos + lens[e.token]);
    SymbolRead(lens, stream, multiplier, r, e.token, e.nbits, item.value);
  }

  lemma LitParts(lens: seq<nat>, item: Item)
    requires ItemOk(lens, item) && item.Lit?
    ensures var e := Encode(SYMBOL_CONFIG, item.value);
            ItemSymbol(item) == e.token < LZ77_OFFSET && e.token < |lens| && ItemRaw(item) == e &&
            |ItemBits(lens, item)| == lens[e.token] + e.nbits && item.value < UINT32_LIMIT
  {
    Is000(item.value);
    hide Encode, EncodeHybridUint000, Codeword, FromNat;
  }

  lemma RepParts(lens: seq<nat>, item: Item)
    requires ItemOk(lens, item) && item.Rep?
    ensures item.count >= 16 && item.count < UINT32_LIMIT
    ensures var e := Encode(LENGTH_CONFIG, item.count - 16);
            ItemSymbol(item) == LZ77_OFFSET + e.token < |lens| &&
            ItemRaw(item).nbits == e.nbits && ItemRaw(item).bits == e.bits &&
            |ItemBits(lens, item)| == lens[LZ77_OFFSET + e.token] + e.nbits
  {
    Is404(item.count - 16);
    hide Encode, EncodeHybridUint404Mul16, Codeword, FromNat;
  }

  lemma SymbolRead(lens: seq<nat>, stream: seq<bool>, multiplier: nat, r: Reader, token: nat, n: nat, value: nat)
    requires r.count == 0 && multiplier > 0 && ReadPrefixSymbol(lens, stream, r.pos) == token < |lens|
    requires token < LZ77_OFFSET
    requires n == RawBits(SYMBOL_CONFIG, token)
    requires Decode(SYMBOL_CONFIG, token, NumberAt(stream, r.pos + lens[token], n)) == value
    ensures ReadValue(lens, stream, multiplier, r)
         == Reader(r.pos + lens[token] + n, r.history + [value], 0, r.distance)
  {
    hide RawBits, NumberAt, Decode, CopyDistance, ReadPrefixSymbol;
  }

  /** A length token sets up the copy. */
  lemma ReadRep(lens: seq<nat>, stream: seq<bool>, multiplier: nat, r: Reader, item: Item)
    requires IsPrefixLengths(lens) && ItemOk(lens, item) && item.Rep? && multiplier > 0 && r.count == 0
    requires HoldsAt(stream, r.pos, ItemBits(lens, item))
    ensures ReadValue(lens, stream, multiplier, r)
         == Reader(r.pos + |ItemBits(lens, item)|, r.history, item.count, CopyDistance(multiplier, |r.history|)).Copy()
  {
    hide ItemOk, EncodeHybridUint404Mul16, Codeword, FromNat, ItemBits, ItemSymbol, ItemRaw, Encode, Decode, RawBits,
         NumberAt, HoldsAt, IsPrefixLengths, CopyDistance, ReadValue, Reader.Copy;
    RepParts(lens, item);
    var length: nat := item.count - 16;
    var e := Encode(LENGTH_CONFIG, length);
    ItemHeld(lens, stream, r.pos, item);
    var sym := ItemSymbol(item);
    RawHeld(LENGTH_CONFIG, length, stream, r.pos + lens[sym]);
    LengthRead(lens, stream, multiplier, r, sym, e, item.count, |ItemBits(lens, item)|);
  }

  lemma LengthRead(lens: seq<nat>, stream: seq<bool>, multiplier: nat, r: Reader, sym: nat, e: Encoded, count: nat,
                   size: nat)
    requires r.count == 0 && multiplier > 0 && ReadPrefixSymbol(lens, stream, r.pos) == sym < |lens|
    requires sym == LZ77_OFFSET + e.token && e.nbits == RawBits(LENGTH_CONFIG, e.token)
    requires 16 <= count < UINT32_LIMIT && size == lens[sym] + e.nbits
    requires Decode(LENGTH_CONFIG, e.token, NumberAt(stream, r.pos + lens[sym], e.nbits)) == count - LZ77_MIN_LENGTH
    ensures ReadValue(lens, stream, multiplier, r)
         == Reader(r.pos + size, r.history, count, CopyDistance(multiplier, |r.history|)).Copy()
  {
    hide RawBits, NumberAt, Decode, CopyDistance, CopyCount, ReadPrefixSymbol, Reader.Copy;
    RunStarted(stream, multiplier, r.history, e.token, r.pos + lens[sym], e.nbits, count);
    hide StartRun, ReadLiteral;
    assert sym - LZ77_OFFSET == e.token;
  }

  lemma RunStarted(stream: seq<bool>, multiplier: nat, history: seq<nat>, token: nat, pos: nat, n: nat, count: nat)
    requires multiplier > 0 && n == RawBits(LENGTH_CONFIG, token) && 16 <= count < UINT32_LIMIT
    requires Decode(LENGTH_CONFIG, token, NumberAt(stream, pos, n)) == count - LZ77_MIN_LENGTH
    ensures StartRun(stream, multiplier, history, token, pos)
         == Reader(pos + n, history, count, CopyDistance(multiplier, |history|)).Copy()
  {
    CountKept(count - LZ77_MIN_LENGTH);
    hide RawBits, NumberAt, Decode, CopyDistance, CopyCount, Reader.Copy;
  }

  function ItemCount(item: Item): nat {
    match item
    case Lit(_) => 1
    case Rep(count) => count
  }

  function ItemValues(h: seq<nat>, item: Item): (v: seq<nat>)
    ensures |v| == ItemCount(item)
  {
    match item
    case Lit(value) => [value]
    case Rep(count) => Copies(LastOf(h), count)
  }

  lemma ReadItem(lens: seq<nat>, stream: seq<bool>, multiplier: nat, r: Reader, item: Item)
    requires IsPrefixLengths(lens) && ItemOk(lens, item) && multiplier > 0 && r.count == 0
    requires HoldsAt(stream, r.pos, ItemBits(lens, item))
    ensures var r' := ReadValues(lens, stream, multiplier, r, ItemCount(item));
            r'.pos == r.pos + |ItemBits(lens, item)| && r'.count == 0 &&
              r'.history == r.history + ItemValues(r.history, item)
  {
    hide ReadValue, ItemBits, IsPrefixLengths, HoldsAt, CopyDistance;
    ReadValuesSplit(lens, stream, multiplier, r, 1, ItemCount(item) - 1);
    assert ReadValues(lens, stream, multiplier, r, 1)
        == ReadValue(lens, stream, multiplier, ReadValues(lens, stream, multiplier, r, 0));
    match item
    case Lit(value) =>
      ReadLit(lens, stream, multiplier, r, item);
    case Rep(count) =>
      ReadRep(lens, stream, multiplier, r, item);
      CopyDistanceIsOne(multiplier, |r.history|);
      var copy := Reader(r.pos + |ItemBits(lens, item)|, r.history, count, CopyDistance(multiplier, |r.history|));
      ReadValuesSplit(lens, stream, multiplier, copy, 1, count - 1);
      ReadCopy(lens, stream, multiplier, copy);
      assert ReadValues(lens, stream, multiplier, copy, 1)
          == ReadValue(lens, stream, multiplier, ReadValues(lens, stream, multiplier, copy, 0));
      ReadCopies(lens, stream, multiplier, copy, count);
  }

  /** There is a value before the first run. */
  predicate StartsWithLit(items: seq<Item>) {
    items == [] || items[0].Lit?
  }

  /** A reader in front of the bits of items, whatever it has read before, yields the values they stand
      for, stops at their end and has no copy left. */
  lemma {:induction false} ReadItems(lens: seq<nat>, stream: seq<bool>, multiplier: nat, r: Reader, items: seq<Item>)
    requires IsPrefixLengths(lens) && AllOk(lens, items) && multiplier > 0 && r.count == 0 && StartsWithLit(items)
    requires HoldsAt(stream, r.pos, StreamBits(lens, items))
    ensures var r' := ReadValues(lens, stream, multiplier, r, |Expand(items)|);
            r'.history == r.history + Expand(items) && r'.count == 0 && r'.pos == r.pos + |StreamBits(lens, items)|
    decreases |items|
  {
    hide ItemOk, ItemBits, IsPrefixLengths, HoldsAt, ReadValue, ReadValues, AllOk, Expand, ItemValues, StreamBits;
    if items == [] {
      ReadNothing(lens, stream, multiplier, r);
      assert r.history + [] == r.history;
    } else {
      var before, item := items[..|items| - 1], items[|items| - 1];
      ExpandLast(items);
      ExpandSome(before);
      StreamBitsLast(lens, items);
      HoldsAtSplit(stream, r.pos, StreamBits(lens, before), ItemBits(lens, item));
      ReadItems(lens, stream, multiplier, r, before);
      ReadNextItem(lens, stream, multiplier, r, Expand(before), item);
      assert r.history + Expand(before) + ItemValues(Expand(before), item) == r.history + Expand(items);
    }
  }

  lemma {:induction false} ExpandSome(items: seq<Item>)
    requires StartsWithLit(items)
    ensures items != [] ==> Expand(items) != []
    decreases |items|
  {
    if items != [] {
      ExpandSome(items[..|items| - 1]);
    }
  }

  lemma ReadNothing(lens: seq<nat>, stream: seq<bool>, multiplier: nat, r: Reader)
    requires multiplier > 0 && r.count == 0
    ensures AllOk(lens, []) && Expand([]) == [] && StreamBits(lens, []) == []
    ensures ReadValues(lens, stream, multiplier, r, 0) == r
  {
  }

  lemma StreamBitsLast(lens: seq<nat>, items: seq<Item>)
    requires AllOk(lens, items) && items != []
    ensures var before, item := items[..|items| - 1], items[|items| - 1];
            AllOk(lens, before) && ItemOk(lens, item) && ItemSymbol(item) < |lens| &&
            StreamBits(lens, items) == StreamBits(lens, before) + ItemBits(lens, item)
  {
    hide ItemBits;
    assert ItemOk(lens, items[|items| - 1]);
  }

  lemma ExpandLast(items: seq<Item>)
    requires items != []
    ensures var before, item := items[..|items| - 1], items[|items| - 1];
            Expand(items) == Expand(before) + ItemValues(Expand(before), item)
  {
  }

  lemma ReadNextItem(lens: seq<nat>, stream: seq<bool>, multiplier: nat, start: Reader, h: seq<nat>, item: Item)
    requires IsPrefixLengths(lens) && ItemOk(lens, item) && multiplier > 0 && start.count == 0 && (item.Lit? || h != [])
    requires var r := ReadValues(lens, stream, multiplier, start, |h|);
             r.history == start.history + h && r.count == 0 && HoldsAt(stream, r.pos, ItemBits(lens, item))
    ensures var r := ReadValues(lens, stream, multiplier, start, |h|);
            var r' := ReadValues(lens, stream, multiplier, start, |h + ItemValues(h, item)|);
            r'.history == start.history + h + ItemValues(h, item) && r'.count == 0 &&
            r'.pos == r.pos + |ItemBits(lens, item)|
  {
    hide ItemOk, ItemBits, IsPrefixLengths, HoldsAt, ReadValue, ReadValues, ItemValues, ItemSymbol, ItemCount;
    SameValues(start.history, h, item);
    var mid := ReadValues(lens, stream, multiplier, start, |h|);
    ReadItem(lens, stream, multiplier, mid, item);
    ReadValuesSplit(lens, stream, multiplier, start, |h|, ItemCount(item));
    assert |h + ItemValues(h, item)| == |h| + ItemCount(item);
  }

  /** A run only looks at the value before it. */
  lemma SameValues(earlier: seq<nat>, h: seq<nat>, item: Item)
    requires item.Lit? || h != []
    ensures ItemValues(earlier + h, item) == ItemValues(h, item)
  {
  }

  /** Wherever the bits are and whatever was read before, reading them yields the values, stops at their
      end and leaves no copy behind. */
  ghost predicate ReadsAs(lens: seq<nat>, bits: seq<bool>, values: seq<nat>) {
    forall stream, multiplier: nat, r: Reader | r.count == 0 && multiplier > 0 && HoldsAt(stream, r.pos, bits) ::
      var r' := ReadValues(lens, stream, multiplier, r, |values|);
      r'.history == r.history + values && r'.count == 0 && r'.pos == r.pos + |bits|
  }

  lemma ItemsReadAs(lens: seq<nat>, items: seq<Item>)
    requires IsPrefixLengths(lens) && AllOk(lens, items) && StartsWithLit(items)
    ensures ReadsAs(lens, StreamBits(lens, items), Expand(items))
  {
    hide AllOk, IsPrefixLengths, StreamBits, Expand, HoldsAt, ReadValues, StartsWithLit;
    forall stream, multiplier: nat, r: Reader
      | r.count == 0 && multiplier > 0 && HoldsAt(stream, r.pos, StreamBits(lens, items))
      ensures var r' := ReadValues(lens, stream, multiplier, r, |Expand(items)|);
              r'.history == r.history + Expand(items) && r'.count == 0 && r'.pos == r.pos + |StreamBits(lens, items)|
    {
      ReadItems(lens, stream, multiplier, r, items);
    }
  }

  // ----- the encoder -----

  /** What the constructor of `PrefixCode` computes. Raw symbol 15 is only padding. */
  datatype PrefixTables = PrefixTables(
    rawNbits: seq<nat>, rawBits: seq<nat>, lz77Nbits: seq<nat>, lz77Bits: seq<nat>)
  {
    function Lens(): seq<nat>
      requires |rawNbits| == NUM_RAW && |lz77Nbits| == NUM_LZ77
    {
      Alphabet(rawNbits, lz77Nbits)
    }

    ghost predicate Valid() {
      && |rawNbits| == |rawBits| == NUM_RAW && |lz77Nbits| == |lz77Bits| == NUM_LZ77
      && IsPrefixLengths(rawNbits + lz77Nbits)
      && AreCodewords(rawBits, rawNbits + lz77Nbits, 0) && AreCodewords(lz77Bits, rawNbits + lz77Nbits, NUM_RAW)
    }

    /** The symbol of the literal has a codeword. */
    predicate HasRaw(value: nat)
      requires |rawNbits| == NUM_RAW
    {
      var token := EncodeHybridUint000(value).token;
      value < 0xFFFF && token < NUM_RAW && rawNbits[token] > 0
    }

    /** The symbol of the run has a codeword; there is no run of length 0. */
    predicate HasRun(count: nat)
      requires |lz77Nbits| == NUM_LZ77
    {
      count == 0 || (16 <= count < UINT32_LIMIT && count % 16 == 0 &&
                     var token := EncodeHybridUint404Mul16(count - 16).token;
                     token < NUM_LZ77 && lz77Nbits[token] > 0)
    }
  }

  lemma LensArePrefix(code: PrefixTables)
    requires code.Valid()
    ensures IsPrefixLengths(code.Lens())
  {
    AlphabetIsPrefix(code.rawNbits, code.lz77Nbits);
    hide IsPrefixLengths;
  }

  /** A codeword and raw bits in one word. */
  lemma OneWord(bits: nat, nbits: nat, raw: nat, nraw: nat)
    requires bits < Pow2(nbits) && raw < Pow2(nraw)
    ensures Shl(raw, nbits) + bits < Pow2(nbits + nraw)
    ensures FromNat(Shl(raw, nbits) + bits, nbits + nraw) == FromNat(bits, nbits) + FromNat(raw, nraw)
  {
    FromNatJoin(raw, bits, nraw, nbits);
    ShlBelow(raw, nraw, nbits);
  }

  lemma RawTable(code: PrefixTables, t: nat)
    requires code.Valid() && t < NUM_RAW && code.rawNbits[t] > 0
    ensures t < |code.Lens()| && code.Lens()[t] == code.rawNbits[t] <= MAX_BITS
    ensures code.rawBits[t] < Pow2(code.rawNbits[t])
    ensures FromNat(code.rawBits[t], code.rawNbits[t]) == Codeword(code.Lens(), t)
  {
    hide Codeword, FromNat, Alphabet, Pow2;
    RawCodeword(code.rawNbits, code.lz77Nbits, t);
    assert (code.rawNbits + code.lz77Nbits)[0 + t] == code.rawNbits[t];
  }

  lemma Lz77Table(code: PrefixTables, t: nat)
    requires code.Valid() && t < NUM_LZ77 && code.lz77Nbits[t] > 0
    ensures LZ77_OFFSET + 16 * t < |code.Lens()| && code.Lens()[LZ77_OFFSET + 16 * t] == code.lz77Nbits[t] <= MAX_BITS
    ensures code.lz77Bits[t] < Pow2(code.lz77Nbits[t])
    ensures FromNat(code.lz77Bits[t], code.lz77Nbits[t]) == Codeword(code.Lens(), LZ77_OFFSET + 16 * t)
  {
    hide Codeword, FromNat, Alphabet, Pow2;
    Lz77Codeword(code.rawNbits, code.lz77Nbits, t);
    assert (code.rawNbits + code.lz77Nbits)[NUM_RAW + t] == code.lz77Nbits[t];
  }

  /** The word with the codeword `bits` and the raw bits above it fits one call and holds `itemBits`. */
  ghost predicate IsWord(e: Encoded, nbits: nat, bits: nat, itemBits: seq<bool>) {
    && nbits + e.nbits <= 56 && Shl(e.bits, nbits) + bits < Pow2(nbits + e.nbits)
    && FromNat(Shl(e.bits, nbits) + bits, nbits + e.nbits) == itemBits
  }

  /** The word that is written for an item holds the item's bits. */
  lemma WordBits(lens: seq<nat>, item: Item, bits: nat, nbits: nat, e: Encoded)
    requires ItemSymbol(item) < |lens| && ItemRaw(item) == e && nbits <= MAX_BITS && e.nbits <= 16
    requires bits < Pow2(nbits) && e.bits < Pow2(e.nbits) && FromNat(bits, nbits) == Codeword(lens, ItemSymbol(item))
    ensures IsWord(e, nbits, bits, ItemBits(lens, item))
  {
    hide Codeword, FromNat, Pow2, Shl, ItemSymbol, ItemRaw;
    OneWord(bits, nbits, e.bits, e.nbits);
  }

  lemma LitIsOk(code: PrefixTables, value: nat)
    requires code.Valid() && code.HasRaw(value)
    ensures ItemOk(code.Lens(), Lit(value))
  {
    RawTable(code, EncodeHybridUint000(value).token);
    LitSymbol(value);
    hide EncodeHybridUint000, ItemSymbol, PrefixTables.Valid, PrefixTables.Lens;
  }

  lemma LitWord(code: PrefixTables, value: nat, e: Encoded)
    requires code.Valid() && code.HasRaw(value) && e == EncodeHybridUint000(value)
    ensures e.token < NUM_RAW && ItemSymbol(Lit(value)) < |code.Lens()|
    ensures IsWord(e, code.rawNbits[e.token], code.rawBits[e.token], ItemBits(code.Lens(), Lit(value)))
  {
    hide EncodeHybridUint000, Codeword, FromNat, Pow2, Shl, PrefixTables.Valid, PrefixTables.Lens, ItemSymbol, ItemRaw,
         ItemBits, PrefixTables.HasRaw, IsWord;
    LitFacts(code, value, e);
    WordBits(code.Lens(), Lit(value), code.rawBits[e.token], code.rawNbits[e.token], e);
  }

  lemma LitFacts(code: PrefixTables, value: nat, e: Encoded)
    requires code.Valid() && code.HasRaw(value) && e == EncodeHybridUint000(value)
    ensures e.token < NUM_RAW == |code.rawNbits| == |code.rawBits| && NUM_LZ77 == |code.lz77Nbits|
    ensures ItemSymbol(Lit(value)) < |code.Lens()| && ItemRaw(Lit(value)) == e
    ensures code.rawNbits[e.token] <= MAX_BITS && e.nbits <= 16 && e.bits < Pow2(e.nbits)
    ensures code.rawBits[e.token] < Pow2(code.rawNbits[e.token])
    ensures FromNat(code.rawBits[e.token], code.rawNbits[e.token]) == Codeword(code.Lens(), ItemSymbol(Lit(value)))
  {
    RawTable(code, e.token);
    RawFits000(value);
    LitSymbol(value);
    hide EncodeHybridUint000, Codeword, FromNat, Pow2, PrefixTables.Lens, ItemSymbol, ItemRaw;
  }

  lemma RepFacts(code: PrefixTables, count: nat, e: Encoded)
    requires code.Valid() && code.HasRun(count) && count > 0 && e == EncodeHybridUint404Mul16(count - 16)
    ensures e.token < NUM_LZ77 == |code.lz77Nbits| == |code.lz77Bits| && NUM_RAW == |code.rawNbits|
    ensures ItemSymbol(Rep(count)) < |code.Lens()| && ItemRaw(Rep(count)) == e
    ensures code.lz77Nbits[e.token] <= MAX_BITS && e.nbits <= 16 && e.bits < Pow2(e.nbits)
    ensures code.lz77Bits[e.token] < Pow2(code.lz77Nbits[e.token])
    ensures FromNat(code.lz77Bits[e.token], code.lz77Nbits[e.token]) == Codeword(code.Lens(), ItemSymbol(Rep(count)))
  {
    Lz77Table(code, e.token);
    RawFits404(count - 16);
    RepSymbol(count);
    hide EncodeHybridUint404Mul16, Codeword, FromNat, Pow2, PrefixTables.Lens, ItemSymbol, ItemRaw;
  }

  lemma RepIsOk(code: PrefixTables, count: nat)
    requires code.Valid() && code.HasRun(count) && count > 0
    ensures ItemOk(code.Lens(), Rep(count))
  {
    Lz77Table(code, EncodeHybridUint404Mul16(count - 16).token);
    RepSymbol(count);
    hide EncodeHybridUint404Mul16, ItemSymbol, PrefixTables.Valid, PrefixTables.Lens;
  }

  lemma RepWord(code: PrefixTables, count: nat, e: Encoded)
    requires code.Valid() && code.HasRun(count) && count > 0 && e == EncodeHybridUint404Mul16(count - 16)
    ensures e.token < NUM_LZ77 && ItemSymbol(Rep(count)) < |code.Lens()|
    ensures IsWord(e, code.lz77Nbits[e.token], code.lz77Bits[e.token], ItemBits(code.Lens(), Rep(count)))
  {
    hide EncodeHybridUint404Mul16, Codeword, FromNat, Pow2, Shl, PrefixTables.Valid, PrefixTables.Lens, ItemSymbol,
         ItemRaw, ItemBits, PrefixTables.HasRun, IsWord;
    RepFacts(code, count, e);
    WordBits(code.Lens(), Rep(count), code.lz77Bits[e.token], code.lz77Nbits[e.token], e);
  }

  lemma LitSymbol(value: nat)
    ensures ItemSymbol(Lit(value)) == EncodeHybridUint000(value).token &&
            ItemRaw(Lit(value)) == EncodeHybridUint000(value)
  {
  }

  lemma RepSymbol(count: nat)
    requires count >= 16
    ensures var e := EncodeHybridUint404Mul16(count - 16);
            ItemSymbol(Rep(count)) == LZ77_OFFSET + 16 * e.token && ItemRaw(Rep(count)) == e
  {
  }

  lemma RawFits000(value: nat)
    requires value < 0x1_0000
    ensures var e := EncodeHybridUint000(value); e.bits < Pow2(e.nbits) && e.nbits <= 16
  {
    if value > 0 && FloorLog2(value) > 16 {
      Pow2Monotone(16, FloorLog2(value));
      Pow2Small();
    }
  }

  lemma RawFits404(value: nat)
    requires EncodeHybridUint404Mul16(value).token < NUM_LZ77
    ensures var e := EncodeHybridUint404Mul16(value); e.bits < Pow2(e.nbits) && e.nbits <= 16
  {
    if value >= 16 {
      LengthLog2(value);
    }
  }

  lemma StreamNext(lens: seq<nat>, items: seq<Item>, item: Item)
    requires AllOk(lens, items) && ItemOk(lens, item)
    ensures AllOk(lens, items + [item])
    ensures StreamBits(lens, items + [item]) == StreamBits(lens, items) + ItemBits(lens, item)
    ensures Expand(items + [item]) == Expand(items) + ItemValues(Expand(items), item)
  {
    var all := items + [item];
    assert all[..|all| - 1] == items && all[|all| - 1] == item;
    hide ItemBits, ItemOk;
  }

  /** What has been written, `items`, and a pending run stand for the residuals seen so far. */
  ghost predicate Encodes(code: PrefixTables, items: seq<Item>, run: nat, last: nat, residuals: seq<nat>) {
    && code.Valid() && AllOk(code.Lens(), items) && run % 16 == 0
    && residuals == Expand(items) + Copies(last, run) && StartsWithLit(items)
    && if items == [] then run == 0 && last == 0xFFFF else Expand(items) != [] && last == LastOf(Expand(items))
  }

  lemma EncodesRun(code: PrefixTables, items: seq<Item>, run: nat, last: nat, residuals: seq<nat>)
    requires Encodes(code, items, run, last, residuals) && code.HasRun(run) && run > 0
    ensures AllOk(code.Lens(), items + [Rep(run)])
    ensures StreamBits(code.Lens(), items + [Rep(run)]) ==
            StreamBits(code.Lens(), items) + ItemBits(code.Lens(), Rep(run))
    ensures Encodes(code, items + [Rep(run)], 0, last, residuals)
  {
    RepIsOk(code, run);
    hide ItemOk, AllOk, StreamBits, Expand, ItemBits, PrefixTables.Valid, PrefixTables.Lens, PrefixTables.HasRun;
    StreamNext(code.Lens(), items, Rep(run));
    assert residuals + Copies(last, 0) == residuals;
  }

  lemma EncodesLit(code: PrefixTables, items: seq<Item>, last: nat, residuals: seq<nat>, value: nat)
    requires Encodes(code, items, 0, last, residuals) && code.HasRaw(value)
    ensures AllOk(code.Lens(), items + [Lit(value)])
    ensures StreamBits(code.Lens(), items + [Lit(value)]) ==
            StreamBits(code.Lens(), items) + ItemBits(code.Lens(), Lit(value))
    ensures Encodes(code, items + [Lit(value)], 0, value, residuals + [value])
  {
    LitIsOk(code, value);
    hide ItemOk, AllOk, StreamBits, Expand, ItemBits, PrefixTables.Valid, PrefixTables.Lens, PrefixTables.HasRaw;
    StreamNext(code.Lens(), items, Lit(value));
    assert residuals == Expand(items) + Copies(last, 0) == Expand(items);
    assert residuals + [value] == Expand(items + [Lit(value)]) + Copies(value, 0);
  }

  lemma EncodesMore(code: PrefixTables, items: seq<Item>, run: nat, last: nat, residuals: seq<nat>, n: nat)
    requires Encodes(code, items, run, last, residuals) && last < 0xFFFF && n % 16 == 0
    ensures Encodes(code, items, run + n, last, residuals + Copies(last, n))
  {
    hide AllOk, Expand, PrefixTables.Valid;
    assert residuals + Copies(last, n) == Expand(items) + Copies(last, run + n);
  }

  lemma EncodesParts(code: PrefixTables, items: seq<Item>, run: nat, last: nat, residuals: seq<nat>)
    requires Encodes(code, items, run, last, residuals)
    ensures code.Valid() && AllOk(code.Lens(), items)
    ensures |code.rawNbits| == |code.rawBits| == NUM_RAW && |code.lz77Nbits| == |code.lz77Bits| == NUM_LZ77
  {
  }

  lemma RunAtLeast(code: PrefixTables, count: nat)
    requires |code.lz77Nbits| == NUM_LZ77 && code.HasRun(count) && count > 0
    ensures count >= 16
  {
    hide EncodeHybridUint404Mul16;
  }

  /** Writes a codeword and raw bits with one call. */
  method WriteItem(output: BitWriter, e: Encoded, nbits: nat, bits: nat, ghost itemBits: seq<bool>)
    requires output.Valid() && IsWord(e, nbits, bits, itemBits)
    modifies output
    ensures output.Valid() && output.Contents() == old(output.Contents()) + itemBits
  {
    output.Write(nbits + e.nbits, Shl(e.bits, nbits) + bits);
  }

  /** `ChannelRowProcessor` with a `ChunkEncoder`. */
  class ChannelRowProcessor {
    const code: PrefixTables
    const output: BitWriter
    var run: nat
    var last: nat
    /** What the output held before, the items written since, and all residuals seen. */
    ghost const start: seq<bool>
    ghost var items: seq<Item>
    ghost var residuals: seq<nat>

    ghost predicate Valid()
      reads this, output
    {
      && output.Valid() && Encodes(code, items, run, last, residuals)
      && output.Contents() == start + StreamBits(code.Lens(), items)
    }

    constructor (code: PrefixTables, output: BitWriter)
      requires code.Valid() && output.Valid()
      ensures Valid() && this.code == code && this.output == output && start == output.Contents()
      ensures run == 0 && residuals == []
    {
      this.code, this.output := code, output;
      run, last := 0, 0xFFFF; // can never appear
      items, residuals, start := [], [], output.Contents();
    }

    /** What has been written reads as the residuals. */
    lemma ReadsBackResiduals() returns (bits: seq<bool>)
      requires Valid() && run == 0
      ensures output.Contents() == start + bits && ReadsAs(code.Lens(), bits, residuals)
    {
      LensArePrefix(code);
      hide IsPrefixLengths, BitWriter.Contents, BitWriter.Valid, PrefixTables.Lens, AllOk, StreamBits, Expand, ReadsAs;
      bits := StreamBits(code.Lens(), items);
      ItemsReadAs(code.Lens(), items);
      assert Expand(items) + Copies(last, 0) == Expand(items);
    }

    /** `EncodeRle`, then the run is over. */
    method EncodeRle()
      requires Valid() && code.HasRun(run)
      modifies this, output
      ensures Valid() && run == 0 && residuals == old(residuals) && last == old(last)
    {
      if run == 0 {
        return;
      }
      hide PrefixTables.Valid, PrefixTables.Lens, Encodes, StreamBits, ItemBits, FromNat, Pow2, Shl, AllOk,
           EncodeHybridUint404Mul16, BitWriter.Contents, BitWriter.Valid, IsWord, PrefixTables.HasRun, ItemSymbol;
      EncodesParts(code, items, run, last, residuals);
      RunAtLeast(code, run);
      var encoded := EncodeHybridUint404Mul16(run - LZ77_MIN_LENGTH);
      ghost var lens := code.Lens();
      RepWord(code, run, encoded);
      EncodesRun(code, items, run, last, residuals);
      var nbits, bits := code.lz77Nbits[encoded.token], code.lz77Bits[encoded.token];
      ghost var before, itemBits := StreamBits(lens, items), ItemBits(lens, Rep(run));
      WriteItem(output, encoded, nbits, bits, itemBits);
      Associative(start, before, itemBits);
      items := items + [Rep(run)];
      run := 0;
    }

    method EncodeResidual(residual: nat)
      requires Valid() && run == 0 && code.HasRaw(residual)
      modifies this, output
      ensures Valid() && run == 0 && residuals == old(residuals) + [residual] && last == residual
    {
      hide PrefixTables.Valid, PrefixTables.Lens, Encodes, StreamBits, ItemBits, FromNat, Pow2, Shl, AllOk,
           EncodeHybridUint000, BitWriter.Contents, BitWriter.Valid, IsWord, PrefixTables.HasRaw, ItemSymbol;
      var encoded := EncodeHybridUint000(residual);
      EncodesParts(code, items, run, last, residuals);
      ghost var lens := code.Lens();
      LitWord(code, residual, encoded);
      EncodesLit(code, items, last, residuals, residual);
      WriteItem(output, encoded, code.rawNbits[encoded.token], code.rawBits[encoded.token],
                ItemBits(lens, Lit(residual)));
      Associative(start, StreamBits(lens, items), ItemBits(lens, Lit(residual)));
      items := items + [Lit(residual)];
      residuals := residuals + [residual];
      last := residual;
    }

    /** `Chunk`: the run is broken; it and the single residuals are written. */
    method Chunk(chunk: seq<nat>)
      requires Valid() && code.HasRun(run) && forall k | 0 <= k < |chunk| :: code.HasRaw(chunk[k])
      requires |chunk| == CHUNK_SIZE
      modifies this, output
      ensures Valid() && run == 0 && residuals == old(residuals) + chunk && last == chunk[CHUNK_SIZE - 1]
    {
      hide Encodes, StreamBits, BitWriter.Contents, BitWriter.Valid, PrefixTables.HasRaw, PrefixTables.HasRun;
      EncodeRle();
      for ix := 0 to CHUNK_SIZE
        invariant Valid() && run == 0 && residuals == old(residuals) + chunk[..ix]
        invariant ix > 0 ==> last == chunk[ix - 1]
      {
        hide Valid;
        EncodeResidual(chunk[ix]);
        assert chunk[..ix + 1] == chunk[..ix] + [chunk[ix]];
      }
      assert chunk[..CHUNK_SIZE] == chunk;
    }

    /** The end of `ProcessChunk`: sixteen residuals continue the run if all repeat the last one. */
    method ProcessResiduals(chunk: seq<nat>)
      requires Valid() && code.HasRun(run) && forall k | 0 <= k < |chunk| :: code.HasRaw(chunk[k])
      requires |chunk| == CHUNK_SIZE
      modifies this, output
      ensures Valid() && residuals == old(residuals) + chunk && last == chunk[CHUNK_SIZE - 1]
      ensures run == 0 || run == old(run) + CHUNK_SIZE
    {
      var continueRle := forall k | 0 <= k < CHUNK_SIZE :: chunk[k] == last;
      hide Encodes, StreamBits, BitWriter.Contents, BitWriter.Valid;
      assert code.HasRaw(chunk[0]) && chunk[0] < 0xFFFF;
      hide PrefixTables.HasRaw, PrefixTables.HasRun;
      if continueRle {
        AddRun(CHUNK_SIZE);
        assert chunk == Copies(last, CHUNK_SIZE);
      } else {
        Chunk(chunk);
      }
      last := chunk[CHUNK_SIZE - 1];
    }

    /** Whole rows may be added to a run without looking at them. */
    method AddRun(n: nat)
      requires Valid() && n % 16 == 0 && last < 0xFFFF
      modifies this
      ensures Valid() && run == old(run) + n && last == old(last) && residuals == old(residuals) + Copies(last, n)
    {
      hide Encodes, StreamBits, BitWriter.Contents, BitWriter.Valid, PrefixTables.Valid;
      EncodesMore(code, items, run, last, residuals, n);
      run := run + n;
      residuals := residuals + Copies(last, n);
    }

    /** `Finalize`: everything seen is now in the output. */
    method Finalize()
      requires Valid() && code.HasRun(run)
      modifies this, output
      ensures Valid() && run == 0 && residuals == old(residuals)
      ensures AllOk(code.Lens(), items) && Expand(items) == residuals
      ensures output.Contents() == start + StreamBits(code.Lens(), items)
    {
      EncodeRle();
    }
  }
}
