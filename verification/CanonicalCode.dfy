/** Canonical prefix codes (experimental/fast_lossless/fast_lossless.cc:65-111), with codewords read
from the least significant bit on, as in section 3.2 of RFC 7932.
 */
module CanonicalCode {
  import opened Bits
  import opened Sequences

  const MAX_BITS: nat := 15

  // ----- what the code is -----

  /** How many of the symbols have codewords of length `n`. */
  function CountLen(lens: seq<nat>, n: nat): (c: nat)
    ensures c <= |lens|
  {
    if lens == [] then 0 else CountLen(lens[..|lens| - 1], n) + if lens[|lens| - 1] == n then 1 else 0
  }

  /** How many words of length `n` start with a codeword of length at most `n`. */
  function Taken(lens: seq<nat>, n: nat): nat {
    if n == 0 then 0 else 2 * Taken(lens, n - 1) + CountLen(lens, n)
  }

  /** Symbols without a codeword have length 0 and do not take part. */
  ghost predicate IsPrefixLengths(lens: seq<nat>) {
    (forall s | 0 <= s < |lens| :: lens[s] <= MAX_BITS) && Taken(lens, MAX_BITS) <= Pow2(MAX_BITS)
  }

  /** Codewords of one length have consecutive values, in the order of their symbols, after the words
      that start with shorter codewords. */
  function CodeValue(lens: seq<nat>, s: nat): nat
    requires s < |lens|
  {
    (if lens[s] == 0 then 0 else 2 * Taken(lens, lens[s] - 1)) + CountLen(lens[..s], lens[s])
  }

  function Reversed<T>(b: seq<T>): (r: seq<T>)
    ensures |r| == |b| && forall k | 0 <= k < |r| :: r[k] == b[|b| - 1 - k]
  {
    seq(|b|, k requires 0 <= k < |b| => b[|b| - 1 - k])
  }

  /** The codeword, most significant bit first. */
  function Codeword(lens: seq<nat>, s: nat): (w: seq<bool>)
    requires s < |lens|
    ensures |w| == lens[s]
  {
    Reversed(FromNat(CodeValue(lens, s), lens[s]))
  }

  // ----- prefix-freedom -----

  lemma {:induction false} CountPrefix(lens: seq<nat>, s: nat, t: nat, n: nat)
    requires s <= t <= |lens|
    ensures CountLen(lens[..s], n) <= CountLen(lens[..t], n)
    ensures s < t && lens[s] == n ==> CountLen(lens[..s], n) < CountLen(lens[..t], n)
    decreases t
  {
    if s < t {
      assert lens[..t][..t - 1] == lens[..t - 1];
      if s < t - 1 {
        CountPrefix(lens, s, t - 1, n);
      }
    }
  }

  lemma RankBelowCount(lens: seq<nat>, s: nat)
    requires s < |lens|
    ensures CountLen(lens[..s], lens[s]) < CountLen(lens, lens[s])
  {
    CountPrefix(lens, s, |lens|, lens[s]);
    assert lens[..|lens|] == lens;
  }

  lemma {:induction false} TakenGrows(lens: seq<nat>, m: nat, n: nat)
    requires m <= n
    ensures Taken(lens, n) >= Shl(Taken(lens, m), n - m)
    decreases n
  {
    if m < n {
      TakenGrows(lens, m, n - 1);
    }
  }

  lemma TakenFits(lens: seq<nat>, n: nat)
    requires IsPrefixLengths(lens) && n <= MAX_BITS
    ensures Taken(lens, n) <= Pow2(n)
  {
    hide Taken;
    TakenGrows(lens, n, MAX_BITS);
    ShlPow2(n, MAX_BITS - n);
    ShlLess(Pow2(n), Taken(lens, n), MAX_BITS - n);
  }

  lemma CodeValueFits(lens: seq<nat>, s: nat)
    requires IsPrefixLengths(lens) && s < |lens| && lens[s] > 0
    ensures CodeValue(lens, s) < Taken(lens, lens[s]) <= Pow2(lens[s])
  {
    RankBelowCount(lens, s);
    TakenFits(lens, lens[s]);
  }

  /** The top bits of a longer codeword are beyond all shorter codewords. */
  lemma LongerCodeword(lens: seq<nat>, s: nat, t: nat)
    requires IsPrefixLengths(lens) && s < |lens| && t < |lens| && 0 < lens[s] < lens[t]
    ensures Shr(CodeValue(lens, t), lens[t] - lens[s]) > CodeValue(lens, s)
  {
    var m, n := lens[s], lens[t];
    CodeValueFits(lens, s);
    TakenGrows(lens, m, n - 1);
    assert Shl(Taken(lens, m), n - m) == 2 * Shl(Taken(lens, m), n - 1 - m);
    ShrAtLeast(CodeValue(lens, t), Taken(lens, m), n - m);
  }

  /** The first bits of a codeword are the high bits of its value. */
  lemma CodewordPrefix(lens: seq<nat>, t: nat, m: nat)
    requires t < |lens| && m <= lens[t]
    ensures Codeword(lens, t)[..m] == Reversed(FromNat(Shr(CodeValue(lens, t), lens[t] - m), m))
  {
    FromNatShr(CodeValue(lens, t), lens[t] - m, lens[t]);
  }

  lemma ReversedInjective(a: seq<bool>, b: seq<bool>)
    requires Reversed(a) == Reversed(b)
    ensures a == b
  {
    assert |a| == |b|;
    forall k | 0 <= k < |a| ensures a[k] == b[k] {
      assert Reversed(a)[|a| - 1 - k] == Reversed(b)[|a| - 1 - k];
    }
  }

  /** No codeword is a prefix of another one. */
  lemma PrefixFree(lens: seq<nat>, s: nat, t: nat)
    requires IsPrefixLengths(lens) && s < |lens| && t < |lens| && s != t && lens[s] > 0 && lens[t] > 0
    ensures !(Codeword(lens, s) <= Codeword(lens, t))
  {
    if lens[s] <= lens[t] {
      var m := lens[s];
      CodewordPrefix(lens, t, m);
      var a, b := CodeValue(lens, s), Shr(CodeValue(lens, t), lens[t] - m);
      ValuesDiffer(lens, s, t);
      hide FromNat, Reversed, CodeValue, Shr;
      if Codeword(lens, s) == Codeword(lens, t)[..m] {
        ReversedInjective(FromNat(a, m), FromNat(b, m));
        FromNatInjective(a, b, m);
      }
    }
  }

  /** The values of the shorter codeword and of as many top bits of the longer one. */
  lemma ValuesDiffer(lens: seq<nat>, s: nat, t: nat)
    requires IsPrefixLengths(lens) && s < |lens| && t < |lens| && s != t && 0 < lens[s] <= lens[t]
    ensures var a, b := CodeValue(lens, s), Shr(CodeValue(lens, t), lens[t] - lens[s]);
            a != b && a < Pow2(lens[s]) && b < Pow2(lens[s])
  {
    var m := lens[s];
    CodeValueFits(lens, s);
    CodeValueFits(lens, t);
    ShrBounds(CodeValue(lens, t), m, lens[t] - m);
    if m == lens[t] {
      CountPrefix(lens, if s < t then s else t, if s < t then t else s, m);
    } else {
      LongerCodeword(lens, s, t);
    }
  }

  // ----- which words start with a codeword -----

  function SymbolShare(n: nat, limit: nat): nat {
    if n == 0 then 0 else Share(limit, n)
  }

  lemma {:induction false} TakenAppend(lens: seq<nat>, x: nat, n: nat)
    ensures Taken(lens + [x], n) == Taken(lens, n) + SymbolShare(x, n)
    decreases n
  {
    if n > 0 {
      TakenAppend(lens, x, n - 1);
      assert (lens + [x])[..|lens|] == lens;
      ShareDoubles(x, n);
    }
  }

  lemma ShareDoubles(x: nat, n: nat)
    requires n > 0
    ensures SymbolShare(x, n) == 2 * SymbolShare(x, n - 1) + if x == n then 1 else 0
  {
  }

  lemma {:induction false} TakenNothing(limit: nat)
    ensures Taken([], limit) == 0
  {
    if limit > 0 {
      TakenNothing(limit - 1);
    }
  }

  /** How many words of `MAX_BITS` bits start with the codeword of one of the first `k` symbols that is shorter than
      that of `s`, or as long and of a smaller symbol. */
  function WordsBefore(lens: seq<nat>, s: nat, k: nat): nat
    requires s < |lens| && k <= |lens|
  {
    if k == 0 then 0
    else
      var n := lens[k - 1];
      WordsBefore(lens, s, k - 1) +
      if 0 < n < lens[s] || (n == lens[s] && k - 1 < s) then Pow2(MAX_BITS - Min(n, MAX_BITS)) else 0
  }

  lemma {:induction false} WordsBeforeIs(lens: seq<nat>, s: nat, k: nat)
    requires s < |lens| && k <= |lens| && 0 < lens[s] <= MAX_BITS
    ensures WordsBefore(lens, s, k) ==
            Shl(2 * Taken(lens[..k], lens[s] - 1) + CountLen(lens[..Min(k, s)], lens[s]), MAX_BITS - lens[s])
    decreases k
  {
    hide Shl, Taken, Pow2, CountLen;
    var n := lens[s];
    if k == 0 {
      NothingTaken(n);
      assert lens[..0] == [];
    } else {
      WordsBeforeIs(lens, s, k - 1);
      var x := lens[k - 1];
      assert lens[..k] == lens[..k - 1] + [x];
      TakenAppend(lens[..k - 1], x, n - 1);
      CountMore(lens, s, k, n);
      var before := 2 * Taken(lens[..k - 1], n - 1) + CountLen(lens[..Min(k - 1, s)], n);
      var more := 2 * SymbolShare(x, n - 1) + if x == n && k - 1 < s then 1 else 0;
      ShlAdd(before, more, MAX_BITS - n);
      ShareWords(x, n, k - 1 < s);
    }
  }

  lemma NothingTaken(n: nat)
    requires 0 < n <= MAX_BITS
    ensures Shl(2 * Taken([], n - 1) + CountLen([], n), MAX_BITS - n) == 0
  {
    TakenNothing(n - 1);
    ShlZero(MAX_BITS - n);
  }

  lemma CountMore(lens: seq<nat>, s: nat, k: nat, n: nat)
    requires s < |lens| && 0 < k <= |lens|
    ensures CountLen(lens[..Min(k, s)], n) ==
            CountLen(lens[..Min(k - 1, s)], n) + if lens[k - 1] == n && k - 1 < s then 1 else 0
  {
    if k - 1 < s {
      assert lens[..k][..k - 1] == lens[..k - 1];
    }
  }

  lemma ShareWords(x: nat, n: nat, counts: bool)
    requires 0 < n <= MAX_BITS
    ensures Shl(2 * SymbolShare(x, n - 1) + if x == n && counts then 1 else 0, MAX_BITS - n) ==
            if 0 < x < n || (x == n && counts) then Pow2(MAX_BITS - Min(x, MAX_BITS)) else 0
  {
    ShlZero(MAX_BITS - n);
    ShlPow2(0, MAX_BITS - n);
    if 0 < x < n {
      ShlPow2(n - x, MAX_BITS - n);
    }
    hide Shl;
  }

  lemma {:induction false} ShlZero(n: nat)
    ensures Shl(0, n) == 0
  {
    if n > 0 {
      ShlZero(n - 1);
    }
  }

  /** The words of `MAX_BITS` bits are handed out in the order of the lengths, and of the symbols for equal lengths:
      a word, most significant bit first, starts with a codeword exactly if its value is in the range of that codeword,
      which begins where the ranges before it end. */
  lemma HandedOut(lens: seq<nat>, s: nat, v: nat)
    requires IsPrefixLengths(lens) && s < |lens| && lens[s] > 0 && v < Pow2(MAX_BITS)
    ensures var first := WordsBefore(lens, s, |lens|);
            Codeword(lens, s) <= Reversed(FromNat(v, MAX_BITS)) <==> first <= v < first + Pow2(MAX_BITS - lens[s])
  {
    hide FromNat, Reversed, Shl, Shr, Pow2, WordsBefore, Taken, CountLen, CodeValue;
    var m, c := lens[s], CodeValue(lens, s);
    var rest := MAX_BITS - m;
    WordsBeforeIs(lens, s, |lens|);
    assert lens[..|lens|] == lens && Min(|lens|, s) == s;
    ValueIs(lens, s);
    CodeValueFits(lens, s);
    WordPrefix(v, m);
    ShrBounds(v, m, rest);
    StartsAt(v, c, rest);
    if Codeword(lens, s) == Reversed(FromNat(v, MAX_BITS))[..m] {
      ReversedInjective(FromNat(c, m), FromNat(Shr(v, rest), m));
      FromNatInjective(c, Shr(v, rest), m);
    }
  }

  lemma ValueIs(lens: seq<nat>, s: nat)
    requires s < |lens| && lens[s] > 0
    ensures CodeValue(lens, s) == 2 * Taken(lens, lens[s] - 1) + CountLen(lens[..s], lens[s])
  {
  }

  lemma WordPrefix(v: nat, m: nat)
    requires m <= MAX_BITS
    ensures Reversed(FromNat(v, MAX_BITS))[..m] == Reversed(FromNat(Shr(v, MAX_BITS - m), m))
  {
    FromNatShr(v, MAX_BITS - m, MAX_BITS);
    hide FromNat, Shr;
  }

  lemma StartsAt(v: nat, c: nat, n: nat)
    ensures Shr(v, n) == c <==> Shl(c, n) <= v < Shl(c, n) + Pow2(n)
  {
    ShiftSplit(v, n);
    if Shl(c, n) <= v < Shl(c, n) + Pow2(n) {
      ShiftJoin(c, v - Shl(c, n), n);
    }
  }

  // ----- reversing bits -----

  const NIBBLE_LOOKUP: seq<nat> := [0, 8, 4, 12, 2, 10, 6, 14, 1, 9, 5, 13, 3, 11, 7, 15]

  function Nibble(v: nat, k: nat): (n: nat)
    ensures n < 16
  {
    ShiftSplit(Shr(v, k), 4);
    Pow2Small();
    Low(Shr(v, k), 4)
  }

  /** `BitReverse`: four table lookups, then only the top `nbits` of the 16 reversed bits. */
  function BitReverse(nbits: nat, bits: nat): (r: nat)
    requires nbits <= 16
  {
    Shr(Reverse16(bits), 16 - nbits)
  }

  function Reverse16(bits: nat): nat {
    JoinNibbles(NIBBLE_LOOKUP[Nibble(bits, 0)], NIBBLE_LOOKUP[Nibble(bits, 4)],
                NIBBLE_LOOKUP[Nibble(bits, 8)], NIBBLE_LOOKUP[Nibble(bits, 12)])
  }

  function JoinNibbles(a: nat, b: nat, c: nat, d: nat): nat {
    Shl(a, 12) + (Shl(b, 8) + (Shl(c, 4) + d))
  }

  lemma FourBits(v: nat)
    ensures FromNat(v, 4) == [v % 2 == 1, v / 2 % 2 == 1, v / 4 % 2 == 1, v / 8 % 2 == 1]
  {
    var b := FromNat(v, 4);
    assert b == [v % 2 == 1] + FromNat(v / 2, 3);
    assert FromNat(v / 2, 3) == [v / 2 % 2 == 1] + FromNat(v / 2 / 2, 2);
    assert FromNat(v / 2 / 2, 2) == [v / 2 / 2 % 2 == 1] + FromNat(v / 2 / 2 / 2, 1);
    assert FromNat(v / 2 / 2 / 2, 1) == [v / 2 / 2 / 2 % 2 == 1] + FromNat(v / 2 / 2 / 2 / 2, 0);
  }

  predicate BitsMirror(u: nat, v: nat) {
    (u % 2 == v / 8 % 2) && (u / 2 % 2 == v / 4 % 2) && (u / 4 % 2 == v / 2 % 2) && (u / 8 % 2 == v % 2)
  }

  lemma LookupMirrors(v: nat)
    requires v < 16
    ensures NIBBLE_LOOKUP[v] < 16 && BitsMirror(NIBBLE_LOOKUP[v], v)
  {
    if v < 8 {
      assert v == 0 || v == 1 || v == 2 || v == 3 || v == 4 || v == 5 || v == 6 || v == 7;
    } else {
      assert v == 8 || v == 9 || v == 10 || v == 11 || v == 12 || v == 13 || v == 14 || v == 15;
    }
  }

  lemma NibbleReversed(v: nat)
    requires v < 16
    ensures NIBBLE_LOOKUP[v] < 16 && FromNat(NIBBLE_LOOKUP[v], 4) == Reversed(FromNat(v, 4))
  {
    LookupMirrors(v);
    var u := NIBBLE_LOOKUP[v];
    FourBits(v);
    FourBits(u);
    hide FromNat;
    assert Reversed(FromNat(v, 4)) == [v / 8 % 2 == 1, v / 4 % 2 == 1, v / 2 % 2 == 1, v % 2 == 1];
  }

  lemma FromNatSplit(v: nat, m: nat, n: nat)
    requires m <= n
    ensures FromNat(v, n) == FromNat(v, m) + FromNat(Shr(v, m), n - m)
  {
    FromNatPrefix(v, m, n);
    FromNatShr(v, m, n);
  }

  lemma NibbleBits(v: nat, k: nat)
    ensures FromNat(Nibble(v, k), 4) == FromNat(Shr(v, k), 4)
  {
    var u := Shr(v, k);
    ShiftSplit(u, 4);
    LowBitsOnly(Low(u, 4), Shr(u, 4), 4);
  }

  lemma FourNibbles(v: nat)
    ensures FromNat(v, 16) == FromNat(Nibble(v, 0), 4) + FromNat(Nibble(v, 4), 4) + FromNat(Nibble(v, 8), 4)
                            + FromNat(Nibble(v, 12), 4)
  {
    FromNatSplit(v, 4, 16);
    FromNatSplit(Shr(v, 4), 4, 12);
    ShrShr(v, 4, 4);
    FromNatSplit(Shr(v, 8), 4, 8);
    ShrShr(v, 8, 4);
    assert Shr(v, 0) == v;
    NibbleBits(v, 0);
    NibbleBits(v, 4);
    NibbleBits(v, 8);
    NibbleBits(v, 12);
    hide FromNat, Nibble, Shr;
    Associate(FromNat(Shr(v, 0), 4), FromNat(Shr(v, 4), 4), FromNat(Shr(v, 8), 4), FromNat(Shr(v, 12), 4));
  }

  lemma Associate<T>(a: seq<T>, b: seq<T>, c: seq<T>, d: seq<T>)
    ensures a + (b + (c + d)) == a + b + c + d
  {
  }

  lemma JoinedBits(a: nat, b: nat, c: nat, d: nat)
    requires a < 16 && b < 16 && c < 16 && d < 16
    ensures JoinNibbles(a, b, c, d) < Pow2(16)
    ensures FromNat(JoinNibbles(a, b, c, d), 16) == FromNat(d, 4) + FromNat(c, 4) + FromNat(b, 4) + FromNat(a, 4)
  {
    Pow2Small();
    hide FromNat, Shl, Pow2;
    JoinTop(c, d, 4);
    JoinTop(b, Shl(c, 4) + d, 8);
    JoinTop(a, Shl(b, 8) + (Shl(c, 4) + d), 12);
  }

  lemma JoinTop(hi: nat, lo: nat, n: nat)
    requires hi < 16 && lo < Pow2(n)
    ensures Shl(hi, n) + lo < Pow2(n + 4)
    ensures FromNat(Shl(hi, n) + lo, n + 4) == FromNat(lo, n) + FromNat(hi, 4)
  {
    Pow2Small();
    ShlBelow(hi, 4, n);
    FromNatJoin(hi, lo, 4, n);
  }

  lemma ReversedConcat<T>(a: seq<T>, b: seq<T>)
    ensures Reversed(a + b) == Reversed(b) + Reversed(a)
  {
  }

  lemma ReversedFour<T>(a: seq<T>, b: seq<T>, c: seq<T>, d: seq<T>)
    ensures Reversed(a + b + c + d) == Reversed(d) + Reversed(c) + Reversed(b) + Reversed(a)
  {
    ReversedConcat(a + b + c, d);
    ReversedConcat(a + b, c);
    ReversedConcat(a, b);
    hide Reversed;
    Associate(Reversed(d), Reversed(c), Reversed(b), Reversed(a));
  }

  lemma SixteenReversed(v: nat)
    ensures Reverse16(v) < Pow2(16) && FromNat(Reverse16(v), 16) == Reversed(FromNat(v, 16))
  {
    NibbleReversed(Nibble(v, 0));
    NibbleReversed(Nibble(v, 4));
    NibbleReversed(Nibble(v, 8));
    NibbleReversed(Nibble(v, 12));
    FourNibbles(v);
    hide FromNat, Nibble, JoinNibbles, Reversed, Pow2;
    JoinedBits(NIBBLE_LOOKUP[Nibble(v, 0)], NIBBLE_LOOKUP[Nibble(v, 4)], NIBBLE_LOOKUP[Nibble(v, 8)],
               NIBBLE_LOOKUP[Nibble(v, 12)]);
    ReversedFour(FromNat(Nibble(v, 0), 4), FromNat(Nibble(v, 4), 4), FromNat(Nibble(v, 8), 4),
                 FromNat(Nibble(v, 12), 4));
  }

  /** The result, read from its lowest bit on, is the argument read from bit `nbits - 1` down: bits of
      the argument above that are dropped. */
  lemma BitReverseReverses(nbits: nat, bits: nat)
    requires nbits <= 16
    ensures BitReverse(nbits, bits) < Pow2(nbits)
    ensures FromNat(BitReverse(nbits, bits), nbits) == Reversed(FromNat(bits, nbits))
  {
    SixteenReversed(bits);
    hide Reverse16, FromNat;
    FromNatShr(Reverse16(bits), 16 - nbits, 16);
    FromNatPrefix(bits, nbits, 16);
    ShrBounds(Reverse16(bits), nbits, 16 - nbits);
    assert Reversed(FromNat(bits, 16))[16 - nbits..] == Reversed(FromNat(bits, 16)[..nbits]);
  }

  // ----- the computation -----

  /** What `next_code[n]` holds once `done` symbols have their codewords: zero-length symbols add a
      multiple of 2^n, and everything is truncated to 16 bits. */
  function NextCode(lens: seq<nat>, done: nat, n: nat): nat
    requires done <= |lens|
  {
    To16(StartCode(lens, n) + CountLen(lens[..done], n))
  }

  /** Truncation to 16 bits. */
  function To16(v: nat): (r: nat)
    ensures r < 0x1_0000
  {
    v % 0x1_0000
  }

  lemma To16Twice(v: nat, c: nat)
    ensures To16(2 * (To16(v) + c)) == To16(2 * (v + c))
  {
    DivMod(v, 0x1_0000);
    var q := v / 0x1_0000;
    assert 2 * (v + c) == 2 * (v % 0x1_0000 + c) + 0x1_0000 * (2 * q);
    AddMultiple(2 * (v % 0x1_0000 + c), 2 * q);
  }

  lemma AddMultiple(v: nat, q: nat)
    ensures To16(v + 0x1_0000 * q) == To16(v)
  {
    DivMod(v, 0x1_0000);
    DivModUnique(v + 0x1_0000 * q, 0x1_0000, v / 0x1_0000 + q, v % 0x1_0000);
  }

  lemma To16Next(v: nat)
    ensures To16(To16(v) + 1) == To16(v + 1)
  {
    DivMod(v, 0x1_0000);
    AddMultiple(v % 0x1_0000 + 1, v / 0x1_0000);
  }

  /** The recurrence of the source, without truncation. */
  function StartCode(lens: seq<nat>, n: nat): nat {
    if n == 0 then 0 else 2 * (StartCode(lens, n - 1) + CountLen(lens, n - 1))
  }

  /** Zero-length symbols only change bits that are dropped. */
  lemma {:induction false} StartCodeIs(lens: seq<nat>, n: nat)
    requires n > 0
    ensures StartCode(lens, n) == 2 * Taken(lens, n - 1) + Shl(CountLen(lens, 0), n)
    decreases n
  {
    if n > 1 {
      StartCodeIs(lens, n - 1);
    } else {
      assert Shl(CountLen(lens, 0), 1) == 2 * Shl(CountLen(lens, 0), 0);
    }
  }

  lemma {:induction false} LowBitsOnly(v: nat, q: nat, n: nat)
    ensures FromNat(v + Shl(q, n), n) == FromNat(v, n)
    decreases n
  {
    if n > 0 {
      assert (v + Shl(q, n)) % 2 == v % 2 && (v + Shl(q, n)) / 2 == v / 2 + Shl(q, n - 1);
      LowBitsOnly(v / 2, q, n - 1);
    }
  }

  lemma Truncated(v: nat, n: nat)
    requires n <= 16
    ensures FromNat(To16(v), n) == FromNat(v, n)
  {
    Pow2Small();
    DivMod(v, 0x1_0000);
    ShlShl(v / 0x1_0000, 16 - n, n);
    ShlSixteen(v / 0x1_0000);
    LowBitsOnly(v % 0x1_0000, Shl(v / 0x1_0000, 16 - n), n);
  }

  lemma ShlEight(v: nat)
    ensures Shl(v, 8) == 0x100 * v
  {
    assert Shl(v, 8) == 16 * Shl(v, 4) && Shl(v, 4) == 16 * Shl(v, 0) by {
      assert Shl(v, 8) == 2 * Shl(v, 7) && Shl(v, 7) == 2 * Shl(v, 6) && Shl(v, 6) == 2 * Shl(v, 5);
      assert Shl(v, 5) == 2 * Shl(v, 4) && Shl(v, 4) == 2 * Shl(v, 3) && Shl(v, 3) == 2 * Shl(v, 2);
      assert Shl(v, 2) == 2 * Shl(v, 1) && Shl(v, 1) == 2 * Shl(v, 0);
    }
  }

  lemma ShlSixteen(v: nat)
    ensures Shl(v, 16) == 0x1_0000 * v
  {
    ShlEight(v);
    ShlEight(Shl(v, 8));
    ShlShl(v, 8, 8);
  }

  /** The next code, reversed, is the codeword. */
  lemma NextCodeIsCodeword(lens: seq<nat>, s: nat)
    requires s < |lens| && lens[s] <= MAX_BITS
    ensures NextCode(lens, s, lens[s]) < 0x1_0000
    ensures var b := BitReverse(lens[s], NextCode(lens, s, lens[s]));
            b < Pow2(lens[s]) && FromNat(b, lens[s]) == Codeword(lens, s)
  {
    hide StartCode, CountLen, FromNat, BitReverse, CodeValue, To16, NextCode, Reversed, Codeword, Pow2;
    var n := lens[s];
    var v := StartCode(lens, n) + CountLen(lens[..s], n);
    NextCodeIs(lens, s, n);
    CodewordIs(lens, s);
    SameLowBits(lens, s);
    Truncated(v, n);
    BitReverseReverses(n, To16(v));
  }

  lemma NextCodeIs(lens: seq<nat>, s: nat, n: nat)
    requires s <= |lens|
    ensures NextCode(lens, s, n) == To16(StartCode(lens, n) + CountLen(lens[..s], n))
  {
  }

  lemma CodewordIs(lens: seq<nat>, s: nat)
    requires s < |lens|
    ensures Codeword(lens, s) == Reversed(FromNat(CodeValue(lens, s), lens[s]))
  {
  }

  lemma NoBits(u: nat, v: nat)
    ensures FromNat(u, 0) == FromNat(v, 0)
  {
  }

  lemma SameLowBits(lens: seq<nat>, s: nat)
    requires s < |lens|
    ensures FromNat(StartCode(lens, lens[s]) + CountLen(lens[..s], lens[s]), lens[s])
         == FromNat(CodeValue(lens, s), lens[s])
  {
    hide StartCode, CountLen, Taken, FromNat, Shl;
    var n, rank := lens[s], CountLen(lens[..s], lens[s]);
    if n > 0 {
      StartCodeIs(lens, n);
      assert StartCode(lens, n) + rank == CodeValue(lens, s) + Shl(CountLen(lens, 0), n);
      LowBitsOnly(CodeValue(lens, s), CountLen(lens, 0), n);
    } else {
      NoBits(StartCode(lens, n) + rank, CodeValue(lens, s));
    }
  }

  lemma CountNext(lens: seq<nat>, i: nat, n: nat)
    requires i < |lens|
    ensures CountLen(lens[..i + 1], n) == CountLen(lens[..i], n) + if lens[i] == n then 1 else 0
  {
    assert lens[..i + 1][..i] == lens[..i];
  }

  /** The table of 16 counters (or next codes) when `done` symbols have been handled. */
  ghost predicate Counted(counts: seq<nat>, lens: seq<nat>, done: nat) {
    done <= |lens| && |counts| == 16 && forall n: nat | n < 16 :: counts[n] == CountLen(lens[..done], n)
  }

  function Increment(table: seq<nat>, n: nat): (r: seq<nat>)
    requires n < |table|
    ensures |r| == |table| && forall k | 0 <= k < |table| :: r[k] == if k == n then To16(table[k] + 1) else table[k]
  {
    table[n := To16(table[n] + 1)]
  }

  lemma CountedNext(counts: seq<nat>, lens: seq<nat>, i: nat)
    requires Counted(counts, lens, i) && i < |lens| < 0x100 && lens[i] < 16
    ensures Counted(Increment(counts, lens[i]), lens, i + 1)
  {
    forall n: nat | n < 16 ensures Increment(counts, lens[i])[n] == CountLen(lens[..i + 1], n) {
      CountNext(lens, i, n);
      ModSmall(counts[n] + 1, 0x1_0000);
    }
  }

  method CountLengths(lens: seq<nat>) returns (counts: seq<nat>)
    requires |lens| < 0x100 && forall s | 0 <= s < |lens| :: lens[s] <= MAX_BITS
    ensures Counted(counts, lens, |lens|)
  {
    counts := seq(16, _ => 0);
    for i := 0 to |lens|
      invariant Counted(counts, lens, i)
    {
      CountedNext(counts, lens, i);
      counts := Increment(counts, lens[i]);
    }
  }

  ghost predicate HaveNextCodes(nextCode: seq<nat>, lens: seq<nat>, done: nat) {
    done <= |lens| && |nextCode| == 16 && forall n: nat | n < 16 :: nextCode[n] == NextCode(lens, done, n)
  }

  method StartCodes(lens: seq<nat>, counts: seq<nat>) returns (nextCode: seq<nat>)
    requires Counted(counts, lens, |lens|)
    ensures HaveNextCodes(nextCode, lens, 0)
  {
    nextCode := seq(16, _ => 0);
    var code := 0;
    CountedAll(counts, lens);
    assert code == To16(StartCode(lens, 0));
    hide To16, CountLen, Counted, StartCode, HaveNextCodes;
    for i := 1 to 16
      invariant |nextCode| == 16 && code == To16(StartCode(lens, i - 1))
      invariant forall n: nat | n < i :: nextCode[n] == To16(StartCode(lens, n))
    {
      StartNext(lens, i - 1);
      code := To16(2 * (code + counts[i - 1]));
      nextCode := nextCode[i := code];
    }
    StartsAreNext(nextCode, lens);
  }

  lemma CountedAll(counts: seq<nat>, lens: seq<nat>)
    requires Counted(counts, lens, |lens|)
    ensures |counts| == 16 && forall n: nat | n < 16 :: counts[n] == CountLen(lens, n)
  {
    assert lens[..|lens|] == lens;
  }

  lemma StartNext(lens: seq<nat>, n: nat)
    ensures To16(2 * (To16(StartCode(lens, n)) + CountLen(lens, n))) == To16(StartCode(lens, n + 1))
  {
    To16Twice(StartCode(lens, n), CountLen(lens, n));
    hide To16;
  }

  lemma StartsAreNext(nextCode: seq<nat>, lens: seq<nat>)
    requires |nextCode| == 16 && forall n: nat | n < 16 :: nextCode[n] == To16(StartCode(lens, n))
    ensures HaveNextCodes(nextCode, lens, 0)
  {
    hide To16;
    forall n: nat | n < 16 ensures nextCode[n] == NextCode(lens, 0, n) {
      assert lens[..0] == [];
      assert StartCode(lens, n) + 0 == StartCode(lens, n);
    }
  }

  /** The bits of the first `|bits|` symbols are their codewords, read from the lowest bit on. */
  ghost predicate AreCodewords(bits: seq<nat>, lens: seq<nat>, from: nat) {
    from + |bits| <= |lens| && forall i: nat | i < |bits| ::
      bits[i] < Pow2(lens[from + i]) && FromNat(bits[i], lens[from + i]) == Codeword(lens, from + i)
  }

  lemma NextCodesNext(nextCode: seq<nat>, lens: seq<nat>, i: nat)
    requires HaveNextCodes(nextCode, lens, i) && i < |lens| && lens[i] < 16
    ensures HaveNextCodes(Increment(nextCode, lens[i]), lens, i + 1)
  {
    hide To16;
    forall n: nat | n < 16 ensures Increment(nextCode, lens[i])[n] == NextCode(lens, i + 1, n) {
      CountNext(lens, i, n);
      To16Next(StartCode(lens, n) + CountLen(lens[..i], n));
    }
  }

  /** One of the two assignment loops. */
  method AssignCodes(nextCode0: seq<nat>, lens: seq<nat>, from: nat, to: nat)
    returns (nextCode: seq<nat>, bits: seq<nat>)
    requires from <= to <= |lens| && HaveNextCodes(nextCode0, lens, from)
    requires forall s | 0 <= s < |lens| :: lens[s] <= MAX_BITS
    ensures HaveNextCodes(nextCode, lens, to) && |bits| == to - from && AreCodewords(bits, lens, from)
  {
    nextCode, bits := nextCode0, [];
    hide FromNat, NextCode, BitReverse, Codeword, Pow2, Increment;
    for i := from to to
      invariant HaveNextCodes(nextCode, lens, i) && |bits| == i - from && AreCodewords(bits, lens, from)
    {
      NextCodeIsCodeword(lens, i);
      NextCodesNext(nextCode, lens, i);
      assert nextCode[lens[i]] == NextCode(lens, i, lens[i]);
      bits := bits + [BitReverse(lens[i], nextCode[lens[i]])];
      nextCode := Increment(nextCode, lens[i]);
    }
  }

  /** `ComputeCanonicalCode`: the canonical codewords of both chunks taken together. */
  method ComputeCanonicalCode(first: seq<nat>, second: seq<nat>) returns (firstBits: seq<nat>, secondBits: seq<nat>)
    requires (forall s | 0 <= s < |first| :: first[s] <= 7) && forall s | 0 <= s < |second| :: second[s] <= MAX_BITS
    requires |first| + |second| < 0x100 // the counters have 8 bits
    ensures |firstBits| == |first| && AreCodewords(firstBits, first + second, 0)
    ensures |secondBits| == |second| && AreCodewords(secondBits, first + second, |first|)
  {
    var lens := first + second;
    var counts := CountLengths(lens);
    var nextCode := StartCodes(lens, counts);
    nextCode, firstBits := AssignCodes(nextCode, lens, 0, |first|);
    nextCode, secondBits := AssignCodes(nextCode, lens, |first|, |lens|);
  }

  // ----- reading -----

  /** The symbol whose codeword is next in the stream. */
  ghost predicate Reads(lens: seq<nat>, stream: seq<bool>, pos: nat, s: nat) {
    s < |lens| && lens[s] > 0 && pos + lens[s] <= |stream| && stream[pos..pos + lens[s]] == Codeword(lens, s)
  }

  /** At most one symbol can be read. */
  lemma ReadsOne(lens: seq<nat>, stream: seq<bool>, pos: nat, s: nat, t: nat)
    requires IsPrefixLengths(lens) && Reads(lens, stream, pos, s) && Reads(lens, stream, pos, t)
    ensures s == t
  {
    OneIsPrefix(lens, stream, pos, s, t);
    if s != t {
      PrefixFree(lens, s, t);
      PrefixFree(lens, t, s);
    }
  }

  lemma OneIsPrefix(lens: seq<nat>, stream: seq<bool>, pos: nat, s: nat, t: nat)
    requires Reads(lens, stream, pos, s) && Reads(lens, stream, pos, t)
    ensures Codeword(lens, s) <= Codeword(lens, t) || Codeword(lens, t) <= Codeword(lens, s)
  {
    hide Codeword;
    if lens[s] <= lens[t] {
      assert stream[pos..pos + lens[t]][..lens[s]] == stream[pos..pos + lens[s]];
    } else {
      assert stream[pos..pos + lens[s]][..lens[t]] == stream[pos..pos + lens[t]];
    }
  }

  /** The prefix decoder: the symbol that can be read, if there is one. */
  ghost function ReadPrefixSymbol(lens: seq<nat>, stream: seq<bool>, pos: nat): (s: nat)
    ensures (exists t :: Reads(lens, stream, pos, t)) ==> Reads(lens, stream, pos, s)
  {
    if t: nat :| Reads(lens, stream, pos, t) then t else |lens|
  }

  lemma ReadsBack(lens: seq<nat>, stream: seq<bool>, pos: nat, s: nat)
    requires IsPrefixLengths(lens) && Reads(lens, stream, pos, s)
    ensures ReadPrefixSymbol(lens, stream, pos) == s
  {
    ReadsOne(lens, stream, pos, s, ReadPrefixSymbol(lens, stream, pos));
  }
}
