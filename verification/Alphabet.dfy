/** The alphabet of the fast lossless encoder (experimental/fast_lossless/fast_lossless.cc:51-63): raw
symbols 0..14 and LZ77 symbols 224, 240, ..., with unused symbols in between. The encoder computes
its codewords without the unused ones.
 */
module Alphabets {
  import opened Bits
  import opened CanonicalCode
  import opened Sequences

  const NUM_RAW: nat := 15
  const NUM_LZ77: nat := 17
  const LZ77_OFFSET: nat := 224

  /** Each length, followed by fifteen unused symbols. */
  function Spread(lens: seq<nat>): (r: seq<nat>)
    ensures |r| == 16 * |lens|
  {
    if lens == [] then [] else Spread(lens[..|lens| - 1]) + ([lens[|lens| - 1]] + Copies<nat>(0, 15))
  }

  /** The code lengths of all 512 symbols. */
  function Alphabet(raw: seq<nat>, lz77: seq<nat>): (r: seq<nat>)
    requires |raw| == NUM_RAW && |lz77| == NUM_LZ77
    ensures |r| == 512
  {
    raw + Copies<nat>(0, LZ77_OFFSET - NUM_RAW) + Spread(lz77) + Copies<nat>(0, 16)
  }

  lemma {:induction false} CountConcat(a: seq<nat>, b: seq<nat>, n: nat)
    ensures CountLen(a + b, n) == CountLen(a, n) + CountLen(b, n)
    decreases |b|
  {
    if b == [] {
      assert a + b == a;
    } else {
      var last := |b| - 1;
      CountConcat(a, b[..last], n);
      assert (a + b)[..|a + b| - 1] == a + b[..last];
    }
  }

  lemma {:induction false} CountNone(z: seq<nat>, n: nat)
    requires n > 0 && forall k | 0 <= k < |z| :: z[k] == 0
    ensures CountLen(z, n) == 0
  {
    if z != [] {
      CountNone(z[..|z| - 1], n);
    }
  }

  lemma {:induction false} CountSpread(lens: seq<nat>, n: nat)
    requires n > 0
    ensures CountLen(Spread(lens), n) == CountLen(lens, n)
  {
    if lens != [] {
      var last := |lens| - 1;
      CountSpread(lens[..last], n);
      CountConcat(Spread(lens[..last]), [lens[last]] + Copies<nat>(0, 15), n);
      CountConcat([lens[last]], Copies<nat>(0, 15), n);
      CountNone(Copies<nat>(0, 15), n);
      assert [lens[last]][..0] == [];
    }
  }

  lemma {:induction false} SpreadAt(lens: seq<nat>, i: nat)
    requires i < |lens|
    ensures Spread(lens)[16 * i] == lens[i] && Spread(lens)[..16 * i] == Spread(lens[..i])
  {
    var last := |lens| - 1;
    if i < last {
      SpreadAt(lens[..last], i);
      assert lens[..last][..i] == lens[..i];
    }
  }

  lemma CountAlphabet(raw: seq<nat>, lz77: seq<nat>, n: nat)
    requires |raw| == NUM_RAW && |lz77| == NUM_LZ77 && n > 0
    ensures CountLen(Alphabet(raw, lz77), n) == CountLen(raw + lz77, n)
  {
    var gap := Copies<nat>(0, LZ77_OFFSET - NUM_RAW);
    CountConcat(raw + gap + Spread(lz77), Copies<nat>(0, 16), n);
    CountConcat(raw + gap, Spread(lz77), n);
    CountConcat(raw, gap, n);
    CountConcat(raw, lz77, n);
    CountNone(gap, n);
    CountNone(Copies<nat>(0, 16), n);
    CountSpread(lz77, n);
  }

  lemma {:induction false} SameTaken(a: seq<nat>, b: seq<nat>, n: nat)
    requires forall m: nat | m > 0 :: CountLen(a, m) == CountLen(b, m)
    ensures Taken(a, n) == Taken(b, n)
  {
    if n > 0 {
      SameTaken(a, b, n - 1);
    }
  }

  /** Symbols at the same rank among the used ones have the same codeword. */
  lemma SameCodeword(a: seq<nat>, s: nat, b: seq<nat>, t: nat)
    requires s < |a| && t < |b| && a[s] == b[t] > 0
    requires forall m: nat | m > 0 :: CountLen(a, m) == CountLen(b, m)
    requires CountLen(a[..s], a[s]) == CountLen(b[..t], b[t])
    ensures Codeword(a, s) == Codeword(b, t)
  {
    hide CountLen, Taken, FromNat, Reversed;
    SameTaken(a, b, a[s] - 1);
    assert CodeValue(a, s) == CodeValue(b, t);
  }

  lemma RawCodeword(raw: seq<nat>, lz77: seq<nat>, s: nat)
    requires |raw| == NUM_RAW && |lz77| == NUM_LZ77 && s < NUM_RAW && raw[s] > 0
    ensures Alphabet(raw, lz77)[s] == raw[s] && Codeword(Alphabet(raw, lz77), s) == Codeword(raw + lz77, s)
  {
    forall m: nat | m > 0 ensures CountLen(Alphabet(raw, lz77), m) == CountLen(raw + lz77, m) {
      CountAlphabet(raw, lz77, m);
    }
    assert Alphabet(raw, lz77)[..s] == (raw + lz77)[..s];
    SameCodeword(Alphabet(raw, lz77), s, raw + lz77, s);
  }

  lemma CountBefore(raw: seq<nat>, lz77: seq<nat>, i: nat, n: nat)
    requires |raw| == NUM_RAW && |lz77| == NUM_LZ77 && i < NUM_LZ77 && n > 0
    ensures Alphabet(raw, lz77)[LZ77_OFFSET + 16 * i] == lz77[i]
    ensures CountLen(Alphabet(raw, lz77)[..LZ77_OFFSET + 16 * i], n) == CountLen((raw + lz77)[..NUM_RAW + i], n)
  {
    var gap := Copies<nat>(0, LZ77_OFFSET - NUM_RAW);
    SpreadAt(lz77, i);
    assert Alphabet(raw, lz77)[..LZ77_OFFSET + 16 * i] == raw + gap + Spread(lz77[..i]);
    assert (raw + lz77)[..NUM_RAW + i] == raw + lz77[..i];
    CountConcat(raw + gap, Spread(lz77[..i]), n);
    CountConcat(raw, gap, n);
    CountConcat(raw, lz77[..i], n);
    CountNone(gap, n);
    CountSpread(lz77[..i], n);
  }

  lemma Lz77Codeword(raw: seq<nat>, lz77: seq<nat>, i: nat)
    requires |raw| == NUM_RAW && |lz77| == NUM_LZ77 && i < NUM_LZ77 && lz77[i] > 0
    ensures Alphabet(raw, lz77)[LZ77_OFFSET + 16 * i] == lz77[i]
    ensures Codeword(Alphabet(raw, lz77), LZ77_OFFSET + 16 * i) == Codeword(raw + lz77, NUM_RAW + i)
  {
    forall m: nat | m > 0 ensures CountLen(Alphabet(raw, lz77), m) == CountLen(raw + lz77, m) {
      CountAlphabet(raw, lz77, m);
    }
    CountBefore(raw, lz77, i, lz77[i]);
    SameCodeword(Alphabet(raw, lz77), LZ77_OFFSET + 16 * i, raw + lz77, NUM_RAW + i);
  }

  /** The lengths of the whole alphabet form a code if those of the used symbols do. */
  lemma AlphabetIsPrefix(raw: seq<nat>, lz77: seq<nat>)
    requires |raw| == NUM_RAW && |lz77| == NUM_LZ77 && IsPrefixLengths(raw + lz77)
    ensures IsPrefixLengths(Alphabet(raw, lz77))
  {
    hide CountLen, Taken, Pow2, Spread;
    forall m: nat | m > 0 ensures CountLen(Alphabet(raw, lz77), m) == CountLen(raw + lz77, m) {
      CountAlphabet(raw, lz77, m);
    }
    SameTaken(Alphabet(raw, lz77), raw + lz77, MAX_BITS);
    assert forall k | 0 <= k < NUM_LZ77 :: lz77[k] == (raw + lz77)[NUM_RAW + k];
    assert forall k | 0 <= k < NUM_RAW :: raw[k] == (raw + lz77)[k];
    SpreadBound(lz77);
  }

  lemma {:induction false} SpreadBound(lens: seq<nat>)
    requires forall k | 0 <= k < |lens| :: lens[k] <= MAX_BITS
    ensures forall k | 0 <= k < |Spread(lens)| :: Spread(lens)[k] <= MAX_BITS
  {
    if lens != [] {
      SpreadBound(lens[..|lens| - 1]);
    }
  }

  /** Trailing unused raw symbols may be left out: the constructor passes only `numraw` of them. */
  lemma WithoutTrailing(raw: seq<nat>, numraw: nat, lz77: seq<nat>, i: nat)
    requires numraw <= |raw| && (forall k | numraw <= k < |raw| :: raw[k] == 0)
    requires i < numraw + |lz77| && (raw[..numraw] + lz77)[i] > 0
    ensures var j := if i < numraw then i else i - numraw + |raw|;
            (raw + lz77)[j] == (raw[..numraw] + lz77)[i] &&
            Codeword(raw + lz77, j) == Codeword(raw[..numraw] + lz77, i)
  {
    var short, tail := raw[..numraw], raw[numraw..];
    assert raw == short + tail;
    forall m: nat | m > 0 ensures CountLen(raw + lz77, m) == CountLen(short + lz77, m) {
      CountConcat(raw, lz77, m);
      CountConcat(short, lz77, m);
      CountConcat(short, tail, m);
      CountNone(tail, m);
    }
    var j, n := if i < numraw then i else i - numraw + |raw|, (short + lz77)[i];
    if i < numraw {
      assert (raw + lz77)[..j] == (short + lz77)[..i];
    } else {
      assert (raw + lz77)[..j] == raw + lz77[..i - numraw] && (short + lz77)[..i] == short + lz77[..i - numraw];
      CountConcat(raw, lz77[..i - numraw], n);
      CountConcat(short, lz77[..i - numraw], n);
      CountConcat(short, tail, n);
      CountNone(tail, n);
    }
    SameCodeword(raw + lz77, j, short + lz77, i);
  }
}
