/** The constants in front of the code in the global section (experimental/fast_lossless/fast_lossless.cc:467-517), and
what the decoder reads from them (lib/jxl/dec_ans.cc:264-310, lib/jxl/dec_context_map.cc:61-71,
lib/jxl/dec_huffman.cc:94-140, lib/jxl/modular/encoding/dec_ma.cc:51-101): a tree with one leaf, and the coding that
`ChunkCoding` decodes.
 */
module GlobalHeader {
  import opened Bits
  import opened BitReading
  import opened BitWriting
  import opened HybridUint
  import opened UintConfigs
  import opened FrameAssembly
  import opened Sequences

  // ----- what is written -----

  /** Dequantization, global tree without LZ77, its context map, its simple prefix code, and its one leaf. */
  const TREE_FIELDS: seq<Field> := [
    Field(1, 1), Field(1, 1), Field(1, 0), Field(1, 1), Field(2, 0), Field(1, 1), Field(4, 15), Field(7, 37),
    Field(2, 1), Field(2, 1), Field(3, 0), Field(3, 5), Field(5, 2)]

  /** LZ77 with its offset, its minimum length and its hybrid integers, and the context map. */
  const LZ77_FIELDS: seq<Field> := [
    Field(1, 1), Field(2, 0), Field(10, 31), Field(4, 4), Field(3, 0), Field(3, 4), Field(1, 1), Field(2, 1),
    Field(1, 1), Field(1, 0)]

  /** Prefix codes with their hybrid integers and alphabet sizes, and the code of the distances. */
  const ALPHABET_FIELDS: seq<Field> := [
    Field(1, 1), Field(4, 0), Field(4, 0), Field(5, 1), Field(1, 1), Field(4, 8), Field(8, 255), Field(2, 1),
    Field(2, 0), Field(1, 1)]

  const GLOBAL_FIELDS: seq<Field> := TREE_FIELDS + LZ77_FIELDS + ALPHABET_FIELDS

  lemma FieldsFit()
    ensures AreFields(GLOBAL_FIELDS) && |FieldBits(GLOBAL_FIELDS)| <= 56 * 33
  {
    Pow2Small();
    hide Pow2;
    assert AreFields(TREE_FIELDS);
    assert AreFields(LZ77_FIELDS);
    assert AreFields(ALPHABET_FIELDS);
    FieldsSize(GLOBAL_FIELDS);
  }

  lemma {:induction false} FieldsSize(fs: seq<Field>)
    requires AreFields(fs)
    ensures |FieldBits(fs)| <= 56 * |fs|
  {
    hide FromNat;
    if fs != [] {
      assert IsField(fs[0]);
      FieldsSize(fs[1..]);
    }
  }

  // ----- what the decoder reads -----

  /** A number and where it ends. */
  datatype Value = Value(v: nat, end: nat)

  /** `U32Coder::Read` for the offset and the minimum length of LZ77. */
  function MinSymbolAt(s: seq<bool>, pos: nat): Value {
    var selector := NumberAt(s, pos, 2);
    if selector == 0 then Value(224, pos + 2)
    else if selector == 1 then Value(512, pos + 2)
    else if selector == 2 then Value(4096, pos + 2)
    else Value(NumberAt(s, pos + 2, 15) + 8, pos + 17)
  }

  function MinLengthAt(s: seq<bool>, pos: nat): Value {
    var selector := NumberAt(s, pos, 2);
    if selector == 0 then Value(3, pos + 2)
    else if selector == 1 then Value(4, pos + 2)
    else if selector == 2 then Value(NumberAt(s, pos + 2, 2) + 5, pos + 4)
    else Value(NumberAt(s, pos + 2, 8) + 9, pos + 10)
  }

  /** `DecodeVarLenUint16`. */
  function VarLen16At(s: seq<bool>, pos: nat): Value {
    if NumberAt(s, pos, 1) == 0 then Value(0, pos + 1)
    else
      var nbits := NumberAt(s, pos + 1, 4);
      if nbits == 0 then Value(1, pos + 5) else Value(NumberAt(s, pos + 5, nbits) + Pow2(nbits), pos + 5 + nbits)
  }

  datatype Lz77 = Lz77(minSymbol: nat, minLength: nat, lengthConfig: Config)

  datatype Lz77Read = NoLz77(end: nat) | WithLz77(lz77: Lz77, end: nat) | Bad

  function Lz77At(s: seq<bool>, pos: nat): Lz77Read {
    if NumberAt(s, pos, 1) == 0 then NoLz77(pos + 1)
    else
      var minSymbol := MinSymbolAt(s, pos + 1);
      var minLength := MinLengthAt(s, minSymbol.end);
      var config := ParseConfig(s, minLength.end, 8);
      if config.config.None? then Bad else WithLz77(Lz77(minSymbol.v, minLength.v, config.config.value), config.pos)
  }

  /** A simple context map; others are not modelled. */
  datatype MapRead = MapRead(entries: seq<nat>, end: nat) | OtherMap

  function MapAt(s: seq<bool>, pos: nat, contexts: nat): MapRead {
    if contexts <= 1 then MapRead(seq(contexts, _ => 0), pos)
    else if NumberAt(s, pos, 1) == 0 then OtherMap
    else
      var width := NumberAt(s, pos + 1, 2);
      if width == 0 then MapRead(seq(contexts, _ => 0), pos + 3)
      else MapRead(seq(contexts, k requires 0 <= k => NumberAt(s, pos + 3 + width * k, width)),
                   pos + 3 + width * contexts)
  }

  /** A simple prefix code with one or two symbols; others are not modelled. */
  datatype SimpleRead = SimpleRead(symbols: seq<nat>, end: nat) | OtherCode

  function SymbolWidth(alphabetSize: nat): nat {
    if alphabetSize > 1 then FloorLog2(alphabetSize - 1) + 1 else 0
  }

  function SimpleAt(s: seq<bool>, pos: nat, alphabetSize: nat): SimpleRead {
    var w, n := SymbolWidth(alphabetSize), NumberAt(s, pos + 2, 2) + 1;
    if NumberAt(s, pos, 2) != 1 || n > 2 then OtherCode
    else
      var first, second := NumberAt(s, pos + 4, w), NumberAt(s, pos + 4 + w, w);
      if first >= alphabetSize || (n == 2 && (second >= alphabetSize || first == second)) then OtherCode
      else if n == 1 then SimpleRead([first], pos + 4 + w)
      else SimpleRead([Min(first, second), Max(first, second)], pos + 4 + 2 * w)
  }

  /** The tree has one context map entry, one prefix code with two symbols of one bit each, and one leaf: a token 0,
      the predictor, the offset and the two parts of the multiplier. */
  datatype Leaf = Leaf(predictor: nat, offset: nat, mulLog: nat, mulBits: nat)

  datatype TreeRead = TreeRead(leaf: Leaf, end: nat) | OtherTree

  function TokenAt(s: seq<bool>, pos: nat, symbols: seq<nat>): nat
    requires |symbols| == 2
  {
    if NumberAt(s, pos, 1) == 0 then symbols[0] else symbols[1]
  }

  function LeafAt(s: seq<bool>, pos: nat, symbols: seq<nat>): TreeRead
    requires |symbols| == 2
  {
    if TokenAt(s, pos, symbols) != 0 then OtherTree
    else TreeRead(Leaf(TokenAt(s, pos + 1, symbols), TokenAt(s, pos + 2, symbols), TokenAt(s, pos + 3, symbols),
                       TokenAt(s, pos + 4, symbols)), pos + 5)
  }

  const TREE_CONTEXTS: nat := 6
  const PREFIX_MAX_BITS: nat := 15

  function TreeAt(s: seq<bool>, pos: nat): TreeRead {
    var lz77 := Lz77At(s, pos);
    if !lz77.NoLz77? then OtherTree
    else
      var entries := MapAt(s, lz77.end, TREE_CONTEXTS);
      if !entries.MapRead? || entries.entries != Copies<nat>(0, TREE_CONTEXTS) || NumberAt(s, entries.end, 1) == 0
      then OtherTree
      else
        var config := ParseConfig(s, entries.end + 1, PREFIX_MAX_BITS);
        if config.config != Some(Config(PREFIX_MAX_BITS, 0, 0)) then OtherTree
        else
          var size := VarLen16At(s, config.pos);
          var code := SimpleAt(s, size.end, size.v + 1);
          if !code.SimpleRead? || |code.symbols| != 2 then OtherTree else LeafAt(s, code.end, code.symbols)
  }

  /** The coding of the pixels: a context for residuals and one for distances, each with a prefix code. */
  datatype Coding = Coding(lz77: Lz77, contextMap: seq<nat>, configs: (Config, Config), sizes: (nat, nat),
                           distance: nat, end: nat)

  datatype CodingRead = CodingRead(coding: Coding) | OtherCoding

  function CodingAt(s: seq<bool>, pos: nat): CodingRead {
    var lz77 := Lz77At(s, pos);
    if !lz77.WithLz77? then OtherCoding
    else
      var entries := MapAt(s, lz77.end, 2);
      if !entries.MapRead? || |entries.entries| != 2 || NumberAt(s, entries.end, 1) == 0 then OtherCoding
      else if Max(entries.entries[0], entries.entries[1]) != 1 || entries.entries[0] == entries.entries[1]
      then OtherCoding
      else
        var first := ParseConfig(s, entries.end + 1, PREFIX_MAX_BITS);
        var second := ParseConfig(s, first.pos, PREFIX_MAX_BITS);
        if first.config.None? || second.config.None? then OtherCoding
        else
          var sizes := (VarLen16At(s, second.pos), VarLen16At(s, VarLen16At(s, second.pos).end));
          var code := SimpleAt(s, sizes.1.end, sizes.0.v + 1);
          if !code.SimpleRead? || |code.symbols| != 1 then OtherCoding
          else CodingRead(Coding(lz77.lz77, entries.entries, (first.config.value, second.config.value),
                                 (sizes.0.v + 1, sizes.1.v + 1), code.symbols[0], code.end))
  }

  datatype Global = Global(leaf: Leaf, coding: Coding)

  /** The global section up to the prefix code of the residuals. */
  function GlobalAt(s: seq<bool>, pos: nat): Option<Global> {
    if NumberAt(s, pos, 1) == 0 || NumberAt(s, pos + 1, 1) == 0 then None
    else
      var tree := TreeAt(s, pos + 2);
      if !tree.TreeRead? then None
      else
        var coding := CodingAt(s, tree.end);
        if !coding.CodingRead? then None else Some(Global(tree.leaf, coding.coding))
  }

  // ----- reading what is written -----

  /** The same bits, divided as the decoder reads them. */
  const TREE_READS: seq<Field> := [
    Field(1, 1), Field(1, 1), Field(1, 0), Field(1, 1), Field(2, 0), Field(1, 1), Field(4, 15), Field(1, 1),
    Field(4, 2), Field(2, 1), Field(2, 1), Field(2, 1), Field(3, 0), Field(3, 5), Field(1, 0), Field(1, 1),
    Field(1, 0), Field(1, 0), Field(1, 0)]

  const LZ77_READS: seq<Field> := [
    Field(1, 1), Field(2, 0), Field(2, 3), Field(8, 7), Field(4, 4), Field(3, 0), Field(3, 4), Field(1, 1),
    Field(2, 1), Field(1, 1), Field(1, 0)]

  const ALPHABET_READS: seq<Field> := [
    Field(1, 1), Field(4, 0), Field(4, 0), Field(1, 1), Field(4, 0), Field(1, 1), Field(4, 8), Field(8, 255),
    Field(2, 1), Field(2, 0), Field(1, 1)]

  function Width(fs: seq<Field>, k: nat): nat
    requires k <= |fs|
  {
    if k == 0 then 0 else Width(fs, k - 1) + fs[k - 1].count
  }

  /** Every field is where the widths before it say. */
  ghost predicate AreAt(s: seq<bool>, pos: nat, fs: seq<Field>) {
    forall k | 0 <= k < |fs| :: NumberAt(s, pos + Width(fs, k), fs[k].count) == fs[k].bits
  }

  lemma {:induction false} FieldsHeld(s: seq<bool>, pos: nat, fs: seq<Field>, k: nat)
    requires AreFields(fs) && HoldsAt(s, pos, FieldBits(fs)) && k <= |fs|
    ensures HoldsAt(s, pos + Width(fs, k), FieldBits(fs[k..])) && |FieldBits(fs)| == Width(fs, k) + |FieldBits(fs[k..])|
    ensures forall i | 0 <= i < k :: NumberAt(s, pos + Width(fs, i), fs[i].count) == fs[i].bits
    decreases k
  {
    hide HoldsAt, NumberAt, FieldBits, IsField, Width;
    NoWidth(fs);
    if k == 0 {
      assert fs[0..] == fs;
    } else {
      FieldsHeld(s, pos, fs, k - 1);
      assert IsField(fs[k - 1]);
      hide AreFields;
      FieldHeld(s, pos + Width(fs, k - 1), fs, k - 1);
      NextWidth(fs, k);
    }
  }

  lemma NoWidth(fs: seq<Field>)
    ensures Width(fs, 0) == 0
  {
  }

  lemma NextWidth(fs: seq<Field>, k: nat)
    requires 0 < k <= |fs|
    ensures Width(fs, k) == Width(fs, k - 1) + fs[k - 1].count
  {
  }

  lemma AllHeld(s: seq<bool>, pos: nat, fs: seq<Field>)
    requires AreFields(fs) && HoldsAt(s, pos, FieldBits(fs))
    ensures AreAt(s, pos, fs) && |FieldBits(fs)| == Width(fs, |fs|)
  {
    FieldsHeld(s, pos, fs, |fs|);
    hide Width, NumberAt, HoldsAt;
    assert fs[|fs|..] == [];
    assert FieldBits([]) == [];
  }

  /** A field that is divided. */
  lemma Divided(a: seq<Field>, f: Field, parts: seq<Field>, b: seq<Field>)
    requires FieldBits([f]) == FieldBits(parts)
    ensures FieldBits(a + [f] + b) == FieldBits(a + parts + b)
  {
    FieldBitsConcat(a + [f], b);
    FieldBitsConcat(a, [f]);
    FieldBitsConcat(a + parts, b);
    FieldBitsConcat(a, parts);
  }

  lemma OneField(f: Field)
    ensures FieldBits([f]) == FromNat(f.bits, f.count)
  {
    assert [f][1..] == [];
    assert FieldBits([f]) == FromNat(f.bits, f.count) + [];
  }

  /** A number as a low and a high part. */
  lemma TwoParts(low: nat, m: nat, high: nat, n: nat)
    requires low < Pow2(m)
    ensures FieldBits([Field(m + n, Shl(high, m) + low)]) == FieldBits([Field(m, low), Field(n, high)])
  {
    var v := Shl(high, m) + low;
    OneField(Field(m + n, v));
    OneField(Field(m, low));
    OneField(Field(n, high));
    FieldBitsConcat([Field(m, low)], [Field(n, high)]);
    assert [Field(m, low), Field(n, high)] == [Field(m, low)] + [Field(n, high)];
    ShiftJoin(high, low, m);
    FromNatShr(v, m, m + n);
    FromNatPrefix(v, m, m + n);
    LowBits(v, m);
    assert FromNat(v, m + n) == FromNat(v, m + n)[..m] + FromNat(v, m + n)[m..];
  }

  lemma {:induction false} LowBits(v: nat, m: nat)
    ensures FromNat(v, m) == FromNat(Low(v, m), m)
    decreases m
  {
    if m > 0 {
      LowBits(v / 2, m - 1);
      assert Low(v, m) % 2 == v % 2 && Low(v, m) / 2 == Low(v / 2, m - 1);
    }
  }

  /** A field that is divided into two. */
  lemma DividedInTwo(a: seq<Field>, low: nat, m: nat, high: nat, n: nat, b: seq<Field>)
    requires low < Pow2(m)
    ensures FieldBits(a + [Field(m + n, Shl(high, m) + low)] + b) == FieldBits(a + [Field(m, low), Field(n, high)] + b)
  {
    TwoParts(low, m, high, n);
    Divided(a, Field(m + n, Shl(high, m) + low), [Field(m, low), Field(n, high)], b);
  }

  lemma SmallShifts()
    ensures Shl(18, 1) == 36 && Shl(1, 4) == 16 && Shl(1, 1) == 2 && Shl(7, 2) == 28 && Shl(0, 1) == 0
    ensures 1 < Pow2(1) && 3 < Pow2(2) && 2 < Pow2(4)
  {
    Pow2Small();
  }

  lemma Lz77Bits()
    ensures FieldBits(LZ77_FIELDS) == FieldBits(LZ77_READS)
  {
    SmallShifts();
    hide FieldBits, Shl, Pow2;
    DividedInTwo(LZ77_FIELDS[..2], 3, 2, 7, 8, LZ77_FIELDS[3..]);
    assert LZ77_FIELDS == LZ77_FIELDS[..2] + [Field(10, 31)] + LZ77_FIELDS[3..];
    assert LZ77_READS == LZ77_FIELDS[..2] + [Field(2, 3), Field(8, 7)] + LZ77_FIELDS[3..];
  }

  lemma AlphabetBits()
    ensures FieldBits(ALPHABET_FIELDS) == FieldBits(ALPHABET_READS)
  {
    SmallShifts();
    hide FieldBits, Shl, Pow2;
    DividedInTwo(ALPHABET_FIELDS[..3], 1, 1, 0, 4, ALPHABET_FIELDS[4..]);
    assert ALPHABET_FIELDS == ALPHABET_FIELDS[..3] + [Field(5, 1)] + ALPHABET_FIELDS[4..];
    assert ALPHABET_READS == ALPHABET_FIELDS[..3] + [Field(1, 1), Field(4, 0)] + ALPHABET_FIELDS[4..];
  }

  /** The alphabet size of the tree, and the five tokens of its leaf. */
  lemma TreeBits()
    ensures FieldBits(TREE_FIELDS) == FieldBits(TREE_READS)
  {
    SmallShifts();
    hide FieldBits, Shl, Pow2;
    var a, b, c := TREE_FIELDS[..7], TREE_FIELDS[8..12], TREE_READS[..14];
    DividedInTwo(a, 1, 1, 18, 6, b + [Field(5, 2)]);
    assert TREE_FIELDS == a + [Field(7, 37)] + (b + [Field(5, 2)]);
    DividedInTwo(a + [Field(1, 1)], 2, 4, 1, 2, b + [Field(5, 2)]);
    assert a + [Field(1, 1), Field(6, 18)] + (b + [Field(5, 2)])
        == a + [Field(1, 1)] + [Field(6, 18)] + (b + [Field(5, 2)]);
    assert a + [Field(1, 1)] + [Field(4, 2), Field(2, 1)] + (b + [Field(5, 2)]) == c + [Field(5, 2)] + [];
    DividedInTwo(c, 0, 1, 1, 4, []);
    DividedInTwo(c + [Field(1, 0)], 1, 1, 0, 3, []);
    DividedInTwo(c + [Field(1, 0), Field(1, 1)], 0, 1, 0, 2, []);
    DividedInTwo(c + [Field(1, 0), Field(1, 1), Field(1, 0)], 0, 1, 0, 1, []);
    assert c + [Field(1, 0), Field(4, 1)] + [] == c + [Field(1, 0)] + [Field(4, 1)] + [];
    assert c + [Field(1, 0)] + [Field(1, 1), Field(3, 0)] + []
        == c + [Field(1, 0), Field(1, 1)] + [Field(3, 0)] + [];
    assert c + [Field(1, 0), Field(1, 1)] + [Field(1, 0), Field(2, 0)] + []
        == c + [Field(1, 0), Field(1, 1), Field(1, 0)] + [Field(2, 0)] + [];
    assert c + [Field(1, 0), Field(1, 1), Field(1, 0)] + [Field(1, 0), Field(1, 0)] + [] == TREE_READS;
  }

  lemma TreeWidths()
    ensures |TREE_READS| == 19
    ensures Width(TREE_READS, 0) == 0 && Width(TREE_READS, 1) == 1 && Width(TREE_READS, 2) == 2
    ensures Width(TREE_READS, 3) == 3 && Width(TREE_READS, 4) == 4 && Width(TREE_READS, 5) == 6
    ensures Width(TREE_READS, 6) == 7 && Width(TREE_READS, 7) == 11 && Width(TREE_READS, 8) == 12
    ensures Width(TREE_READS, 9) == 16 && Width(TREE_READS, 10) == 18 && Width(TREE_READS, 11) == 20
    ensures Width(TREE_READS, 12) == 22 && Width(TREE_READS, 13) == 25 && Width(TREE_READS, 14) == 28
    ensures Width(TREE_READS, 15) == 29 && Width(TREE_READS, 16) == 30 && Width(TREE_READS, 17) == 31
    ensures Width(TREE_READS, 18) == 32 && Width(TREE_READS, 19) == 33
  {
  }

  lemma TreeNumbers(s: seq<bool>, pos: nat)
    requires AreAt(s, pos, TREE_READS)
    ensures NumberAt(s, pos, 1) == 1 && NumberAt(s, pos + 1, 1) == 1 && NumberAt(s, pos + 2, 1) == 0
    ensures NumberAt(s, pos + 3, 1) == 1 && NumberAt(s, pos + 4, 2) == 0 && NumberAt(s, pos + 6, 1) == 1
    ensures NumberAt(s, pos + 7, 4) == 15 && NumberAt(s, pos + 11, 1) == 1 && NumberAt(s, pos + 12, 4) == 2
    ensures NumberAt(s, pos + 16, 2) == 1 && NumberAt(s, pos + 18, 2) == 1 && NumberAt(s, pos + 20, 2) == 1
    ensures NumberAt(s, pos + 22, 3) == 0 && NumberAt(s, pos + 25, 3) == 5 && NumberAt(s, pos + 28, 1) == 0
    ensures NumberAt(s, pos + 29, 1) == 1 && NumberAt(s, pos + 30, 1) == 0 && NumberAt(s, pos + 31, 1) == 0
    ensures NumberAt(s, pos + 32, 1) == 0
  {
    TreeWidths();
    hide Width, NumberAt;
  }

  lemma Lz77Widths()
    ensures |LZ77_READS| == 11
    ensures Width(LZ77_READS, 0) == 0 && Width(LZ77_READS, 1) == 1 && Width(LZ77_READS, 2) == 3
    ensures Width(LZ77_READS, 3) == 5 && Width(LZ77_READS, 4) == 13 && Width(LZ77_READS, 5) == 17
    ensures Width(LZ77_READS, 6) == 20 && Width(LZ77_READS, 7) == 23 && Width(LZ77_READS, 8) == 24
    ensures Width(LZ77_READS, 9) == 26 && Width(LZ77_READS, 10) == 27 && Width(LZ77_READS, 11) == 28
  {
  }

  lemma Lz77Numbers(s: seq<bool>, pos: nat)
    requires AreAt(s, pos, LZ77_READS)
    ensures NumberAt(s, pos, 1) == 1 && NumberAt(s, pos + 1, 2) == 0 && NumberAt(s, pos + 3, 2) == 3
    ensures NumberAt(s, pos + 5, 8) == 7 && NumberAt(s, pos + 13, 4) == 4 && NumberAt(s, pos + 17, 3) == 0
    ensures NumberAt(s, pos + 20, 3) == 4 && NumberAt(s, pos + 23, 1) == 1 && NumberAt(s, pos + 24, 2) == 1
    ensures NumberAt(s, pos + 26, 1) == 1 && NumberAt(s, pos + 27, 1) == 0
  {
    Lz77Widths();
    hide Width, NumberAt;
  }

  lemma AlphabetWidths()
    ensures |ALPHABET_READS| == 11
    ensures Width(ALPHABET_READS, 0) == 0 && Width(ALPHABET_READS, 1) == 1 && Width(ALPHABET_READS, 2) == 5
    ensures Width(ALPHABET_READS, 3) == 9 && Width(ALPHABET_READS, 4) == 10 && Width(ALPHABET_READS, 5) == 14
    ensures Width(ALPHABET_READS, 6) == 15 && Width(ALPHABET_READS, 7) == 19 && Width(ALPHABET_READS, 8) == 27
    ensures Width(ALPHABET_READS, 9) == 29 && Width(ALPHABET_READS, 10) == 31 && Width(ALPHABET_READS, 11) == 32
  {
  }

  lemma AlphabetNumbers(s: seq<bool>, pos: nat)
    requires AreAt(s, pos, ALPHABET_READS)
    ensures NumberAt(s, pos, 1) == 1 && NumberAt(s, pos + 1, 4) == 0 && NumberAt(s, pos + 5, 4) == 0
    ensures NumberAt(s, pos + 9, 1) == 1 && NumberAt(s, pos + 10, 4) == 0 && NumberAt(s, pos + 14, 1) == 1
    ensures NumberAt(s, pos + 15, 4) == 8 && NumberAt(s, pos + 19, 8) == 255 && NumberAt(s, pos + 27, 2) == 1
    ensures NumberAt(s, pos + 29, 2) == 0 && NumberAt(s, pos + 31, 1) == 1
  {
    AlphabetWidths();
    hide Width, NumberAt;
  }

  lemma SmallLogs()
    ensures CeilLog2(16) == 4 && CeilLog2(9) == 4 && CeilLog2(5) == 3 && CeilLog2(1) == 0
    ensures SymbolWidth(6) == 3 && SymbolWidth(2) == 1 && Pow2(2) == 4 && Pow2(8) == 256
  {
    Pow2Small();
    assert FloorLog2(16) == 4 && FloorLog2(8) == 3 && FloorLog2(5) == 2 && FloorLog2(1) == 0;
    assert FloorLog2(9) == 3 && FloorLog2(4) == 2;
  }

  /** The tree has one leaf: predictor 5, no offset, and 1 as the multiplier. */
  lemma TreeIsRead(s: seq<bool>, pos: nat)
    requires AreAt(s, pos, TREE_READS)
    ensures NumberAt(s, pos, 1) == NumberAt(s, pos + 1, 1) == 1
    ensures TreeAt(s, pos + 2) == TreeRead(Leaf(5, 0, 0, 0), pos + 33)
  {
    TreeNumbers(s, pos);
    SmallLogs();
    hide NumberAt, AreAt, CeilLog2, SymbolWidth, Pow2;
    assert Lz77At(s, pos + 2) == NoLz77(pos + 3);
    assert MapAt(s, pos + 3, TREE_CONTEXTS) == MapRead(Copies<nat>(0, TREE_CONTEXTS), pos + 6);
    assert ParseConfig(s, pos + 7, PREFIX_MAX_BITS) == Parsed(Some(Config(15, 0, 0)), pos + 11);
    assert VarLen16At(s, pos + 11) == Value(5, pos + 18);
    assert SimpleAt(s, pos + 18, 6) == SimpleRead([0, 5], pos + 28);
    assert LeafAt(s, pos + 28, [0, 5]) == TreeRead(Leaf(5, 0, 0, 0), pos + 33);
  }

  /** What the pixels are coded with. */
  const PIXEL_LZ77: Lz77 := Lz77(224, 16, Config(4, 0, 4))

  lemma Lz77IsRead(s: seq<bool>, pos: nat)
    requires AreAt(s, pos, LZ77_READS)
    ensures Lz77At(s, pos) == WithLz77(PIXEL_LZ77, pos + 23) && MapAt(s, pos + 23, 2) == MapRead([1, 0], pos + 28)
  {
    Lz77Numbers(s, pos);
    SmallLogs();
    hide NumberAt, AreAt, CeilLog2, Pow2;
    assert MinSymbolAt(s, pos + 1) == Value(224, pos + 3) && MinLengthAt(s, pos + 3) == Value(16, pos + 13);
    assert ParseConfig(s, pos + 13, 8) == Parsed(Some(Config(4, 0, 4)), pos + 23);
    assert MapAt(s, pos + 23, 2).entries == [1, 0];
  }

  lemma AlphabetsAreRead(s: seq<bool>, pos: nat)
    requires AreAt(s, pos, ALPHABET_READS)
    ensures NumberAt(s, pos, 1) == 1
    ensures ParseConfig(s, pos + 1, PREFIX_MAX_BITS) == Parsed(Some(Config(0, 0, 0)), pos + 5)
    ensures ParseConfig(s, pos + 5, PREFIX_MAX_BITS) == Parsed(Some(Config(0, 0, 0)), pos + 9)
    ensures VarLen16At(s, pos + 9) == Value(1, pos + 14) && VarLen16At(s, pos + 14) == Value(511, pos + 27)
    ensures SimpleAt(s, pos + 27, 2) == SimpleRead([1], pos + 32)
  {
    AlphabetNumbers(s, pos);
    SmallLogs();
    NoNumber(s, pos + 5);
    NoNumber(s, pos + 9);
    hide NumberAt, AreAt, CeilLog2, SymbolWidth, Pow2;
  }

  lemma NoNumber(s: seq<bool>, pos: nat)
    ensures NumberAt(s, pos, 0) == 0
  {
    assert Stream(s, pos, 0) == [];
  }

  lemma CodingIsRead(s: seq<bool>, pos: nat)
    requires AreAt(s, pos, LZ77_READS) && AreAt(s, pos + 28, ALPHABET_READS)
    ensures CodingAt(s, pos) == CodingRead(Coding(Lz77(224, 16, Config(4, 0, 4)), [1, 0],
                                                  (Config(0, 0, 0), Config(0, 0, 0)), (2, 512), 1, pos + 60))
  {
    Lz77IsRead(s, pos);
    AlphabetsAreRead(s, pos + 28);
    hide NumberAt, Lz77At, MapAt, ParseConfig, VarLen16At, SimpleAt, AreAt;
  }

  /** Wherever the constants are, the decoder reads from them: a tree whose only leaf has the gradient predictor and
      multiplier 1, and for the pixels LZ77 from symbol 224 on with lengths of at least 16, both configurations of
      hybrid integers, the context of residuals in front of that of distances, 512 symbols for residuals, and the
      only distance code 1. */
  lemma GlobalIsRead(s: seq<bool>, pos: nat)
    requires HoldsAt(s, pos, FieldBits(GLOBAL_FIELDS))
    ensures GlobalAt(s, pos) ==
            Some(Global(Leaf(5, 0, 0, 0), Coding(Lz77(224, 16, Config(4, 0, 4)), [1, 0],
                                                 (Config(0, 0, 0), Config(0, 0, 0)), (2, 512), 1,
                                                 pos + |FieldBits(GLOBAL_FIELDS)|)))
  {
    PartsHeld(s, pos);
    TreeIsRead(s, pos);
    CodingIsRead(s, pos + 33);
    hide NumberAt, HoldsAt, TreeAt, CodingAt, FieldBits, AreAt;
  }

  /** The three parts are behind each other. */
  lemma PartsHeld(s: seq<bool>, pos: nat)
    requires HoldsAt(s, pos, FieldBits(GLOBAL_FIELDS))
    ensures AreAt(s, pos, TREE_READS) && AreAt(s, pos + 33, LZ77_READS) && AreAt(s, pos + 61, ALPHABET_READS)
    ensures |FieldBits(GLOBAL_FIELDS)| == 93
  {
    hide HoldsAt, NumberAt, FieldBits, Width, AreAt, AreFields;
    TreeBits();
    Lz77Bits();
    AlphabetBits();
    ReadsFit();
    TreeWidths();
    Lz77Widths();
    AlphabetWidths();
    FieldBitsConcat(TREE_FIELDS + LZ77_FIELDS, ALPHABET_FIELDS);
    FieldBitsConcat(TREE_FIELDS, LZ77_FIELDS);
    HoldsAtSplit(s, pos, FieldBits(TREE_FIELDS) + FieldBits(LZ77_FIELDS), FieldBits(ALPHABET_FIELDS));
    HoldsAtSplit(s, pos, FieldBits(TREE_FIELDS), FieldBits(LZ77_FIELDS));
    AllHeld(s, pos, TREE_READS);
    AllHeld(s, pos + 33, LZ77_READS);
    AllHeld(s, pos + 61, ALPHABET_READS);
  }

  lemma ReadsFit()
    ensures AreFields(TREE_READS) && AreFields(LZ77_READS) && AreFields(ALPHABET_READS)
  {
    Pow2Small();
    hide Pow2;
  }

  // ----- the header of a modular image -----

  /** A colour transform; other transforms are not modelled. */
  datatype Transform = Rct(beginC: nat, rctType: nat)

  datatype ImageHeader = ImageHeader(transforms: seq<Transform>, end: nat) | OtherImageHeader

  /** `Transform::VisitFields` for a colour transform. */
  function TransformAt(s: seq<bool>, pos: nat): ImageHeader {
    if NumberAt(s, pos, 2) != 0 || NumberAt(s, pos + 2, 2) != 0 then OtherImageHeader
    else
      var beginC, selector := NumberAt(s, pos + 4, 3), NumberAt(s, pos + 7, 2);
      if selector == 0 then ImageHeader([Rct(beginC, 6)], pos + 9)
      else if selector == 1 then ImageHeader([Rct(beginC, NumberAt(s, pos + 9, 2))], pos + 11)
      else if selector == 2 then ImageHeader([Rct(beginC, NumberAt(s, pos + 9, 4) + 2)], pos + 13)
      else if NumberAt(s, pos + 9, 6) + 10 >= 42 then OtherImageHeader
      else ImageHeader([Rct(beginC, NumberAt(s, pos + 9, 6) + 10)], pos + 15)
  }

  /** `GroupHeader::VisitFields` with the global tree, default predictors and at most one transform. */
  function ImageHeaderAt(s: seq<bool>, pos: nat): ImageHeader {
    if NumberAt(s, pos, 1) == 0 || NumberAt(s, pos + 1, 1) == 0 then OtherImageHeader
    else if NumberAt(s, pos + 2, 2) == 0 then ImageHeader([], pos + 4)
    else if NumberAt(s, pos + 2, 2) == 1 then TransformAt(s, pos + 4)
    else OtherImageHeader
  }

  const PLAIN_READS: seq<Field> := [Field(1, 1), Field(1, 1), Field(2, 0)]

  const COLOUR_READS: seq<Field> := [
    Field(1, 1), Field(1, 1), Field(2, 1), Field(2, 0), Field(2, 0), Field(3, 0), Field(2, 0)]

  lemma HeaderWidths()
    ensures |PLAIN_READS| == 3 && |COLOUR_READS| == 7
    ensures Width(PLAIN_READS, 0) == 0 && Width(PLAIN_READS, 1) == 1 && Width(PLAIN_READS, 2) == 2
    ensures Width(PLAIN_READS, 3) == 4
    ensures Width(COLOUR_READS, 0) == 0 && Width(COLOUR_READS, 1) == 1 && Width(COLOUR_READS, 2) == 2
    ensures Width(COLOUR_READS, 3) == 4 && Width(COLOUR_READS, 4) == 6 && Width(COLOUR_READS, 5) == 8
    ensures Width(COLOUR_READS, 6) == 11 && Width(COLOUR_READS, 7) == 13
  {
  }

  /** No transform is read, or the one to YCoCg from the first channel on. */
  lemma ImageHeaderIsRead(s: seq<bool>, pos: nat, colour: bool)
    requires HoldsAt(s, pos, FieldBits(if colour then COLOUR_READS else PLAIN_READS))
    ensures ImageHeaderAt(s, pos) == if colour then ImageHeader([Rct(0, 6)], pos + 13) else ImageHeader([], pos + 4)
    ensures |FieldBits(if colour then COLOUR_READS else PLAIN_READS)| == if colour then 13 else 4
  {
    HeaderFieldsFit();
    AllHeld(s, pos, if colour then COLOUR_READS else PLAIN_READS);
    HeaderWidths();
    hide Width, NumberAt, HoldsAt, FieldBits;
  }

  lemma HeaderFieldsFit()
    ensures AreFields(PLAIN_READS) && AreFields(COLOUR_READS)
  {
    Pow2Small();
    hide Pow2;
  }

  /** The two selectors and numbers of `begin_c` in one field of five bits. */
  lemma ImageHeaderBits()
    ensures FieldBits(PLAIN_READS) == FromNat(1, 1) + FromNat(1, 1) + FromNat(0, 2)
    ensures FieldBits(COLOUR_READS) ==
            FromNat(1, 1) + FromNat(1, 1) + (FromNat(1, 2) + FromNat(0, 2) + FromNat(0, 5) + FromNat(0, 2))
  {
    PlainBits();
    TwoParts(0, 2, 0, 3);
    NoShift();
    OneField(Field(5, 0));
    ColourBits();
  }

  lemma NoShift()
    ensures Shl(0, 2) + 0 == 0 && 0 < Pow2(2)
  {
  }

  lemma PlainBits()
    ensures FieldBits(PLAIN_READS) == FromNat(1, 1) + FromNat(1, 1) + FromNat(0, 2)
  {
    hide FromNat;
    OneField(Field(1, 1));
    OneField(Field(2, 0));
    FieldBitsConcat([Field(1, 1)], [Field(1, 1)]);
    FieldBitsConcat([Field(1, 1)] + [Field(1, 1)], [Field(2, 0)]);
    assert PLAIN_READS == [Field(1, 1)] + [Field(1, 1)] + [Field(2, 0)];
  }

  lemma ColourBits()
    ensures FieldBits(COLOUR_READS) ==
            FromNat(1, 1) + FromNat(1, 1)
            + (FromNat(1, 2) + FromNat(0, 2) + FieldBits([Field(2, 0), Field(3, 0)]) + FromNat(0, 2))
  {
    hide FromNat, FieldBits;
    var a, b, c := [Field(1, 1)], [Field(2, 1)], [Field(2, 0)];
    var d := [Field(2, 0), Field(3, 0)];
    OneField(Field(1, 1));
    OneField(Field(2, 1));
    OneField(Field(2, 0));
    FieldBitsConcat(a, a);
    FieldBitsConcat(b, c);
    FieldBitsConcat(b + c, d);
    FieldBitsConcat(b + c + d, c);
    FieldBitsConcat(a + a, b + c + d + c);
    assert COLOUR_READS == a + a + (b + c + d + c);
  }
}
