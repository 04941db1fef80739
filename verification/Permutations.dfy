/** Permutations in the bit stream (lib/jxl/coeff_order.cc:27-60, 81-96 and lib/jxl/enc_coeff_order.cc:212-255):
a Lehmer code without its trailing zeros, relative to the natural order.
 */
module Permutations {
  import opened Bits
  import opened BitReading
  import opened HybridUint
  import opened SymbolSpec
  import opened SymbolReading
  import opened UintConfigs
  import opened Lehmer
  import opened Fenwick
  import opened Sequences

  const PERMUTATION_CONTEXTS: nat := 8

  /** `CoeffOrderContext`. */
  function CoeffOrderContext(val: nat): (c: nat)
    ensures c < PERMUTATION_CONTEXTS
    ensures c == 0 <==> val == 0
  {
    var token := Encode(Config(0, 0, 0), val).token;
    if token < PERMUTATION_CONTEXTS - 1 then token else PERMUTATION_CONTEXTS - 1
  }

  lemma TokenIsLength(val: nat)
    requires val > 0
    ensures Encode(Config(0, 0, 0), val).token == FloorLog2(val) + 1
  {
    var n := FloorLog2(val);
    var m := val - Pow2(n);
    assert Shl(n, 0) == n && Shl(Shr(m, n), 0) == Shr(m, n) && Low(m, 0) == 0 && Pow2(0) == 1;
    hide Shr, Low, Shl, Pow2, FloorLog2;
    LowSmall(m, n);
  }

  /** The context is the number of binary digits of the value, up to seven. */
  lemma ContextIsLength(val: nat)
    ensures var c := CoeffOrderContext(val);
            if val == 0 then c == 0 else if val < 64 then 1 <= c <= 6 && Pow2(c - 1) <= val < Pow2(c) else c == 7
  {
    if val > 0 {
      TokenIsLength(val);
      assert Pow2(6) == 64 by { Pow2Small(); }
      hide Encode, Pow2;
      var n := FloorLog2(val);
      if n >= 6 {
        Pow2Monotone(6, n);
      } else {
        Pow2Monotone(n + 1, 6);
      }
    }
  }

  // ----- the values of a permutation -----

  predicate DigitsOk(digits: seq<nat>, skip: nat, size: nat) {
    forall i | 0 <= i < |digits| :: digits[i] + skip + i < size
  }

  function Padded(digits: seq<nat>, skip: nat, size: nat): (code: seq<nat>)
    requires skip + |digits| <= size
    ensures |code| == size
  {
    seq(skip, _ => 0) + digits + seq(size - skip - |digits|, _ => 0)
  }

  /** All digits: none for the skipped entries and for those after the last stored one. */
  function FullCode(digits: seq<nat>, skip: nat, size: nat): (code: seq<nat>)
    requires skip + |digits| <= size && DigitsOk(digits, skip, size)
    ensures |code| == size && IsCode(code, size)
  {
    var code := Padded(digits, skip, size);
    assert forall i | 0 <= i < size :: code[i] + i < size;
    code
  }

  function PermutationOf(digits: seq<nat>, skip: nat, size: nat): (p: seq<nat>)
    requires skip + |digits| <= size && DigitsOk(digits, skip, size)
  {
    Selected(Range(0, size), FullCode(digits, skip, size))
  }

  /** Whatever was accepted is a permutation that keeps the skipped entries in place. */
  lemma AcceptedIsPermutation(digits: seq<nat>, skip: nat, size: nat)
    requires skip + |digits| <= size && DigitsOk(digits, skip, size)
    ensures var p := PermutationOf(digits, skip, size);
            |p| == size && IsPermutation(p) && forall i | 0 <= i < skip :: p[i] == i
  {
    var code := FullCode(digits, skip, size);
    SelectedIsPermutation(code, size);
    ZeroDigits(Range(0, size), code, skip);
    var p := PermutationOf(digits, skip, size);
    hide Selected, FullCode;
    forall i | 0 <= i < skip ensures p[i] == i {
      assert p[..skip][i] == Range(0, size)[..skip][i];
    }
  }

  // ----- reading -----

  /** The context of each value depends on the value before it; the first is the size, the second stands alone. */
  function ContextAfter(values: seq<nat>, size: nat): nat {
    if values == [] then CoeffOrderContext(size)
    else if |values| == 1 then CoeffOrderContext(0)
    else CoeffOrderContext(values[|values| - 1])
  }

  function ContextsOf(values: seq<nat>, size: nat, contextMap: seq<nat>): (c: seq<nat>)
    requires |contextMap| >= PERMUTATION_CONTEXTS
    ensures |c| == |values|
  {
    seq(|values|, k requires 0 <= k < |values| => contextMap[ContextAfter(values[..k], size)])
  }

  /** One past the last stored digit: the sum is truncated to 32 bits. */
  function EndOf(first: nat, skip: nat): nat {
    (first + skip) % UINT32_LIMIT
  }

  /** The values are exactly those of an accepted permutation. */
  predicate Complete(values: seq<nat>, skip: nat, size: nat)
    requires values != []
  {
    var end := EndOf(values[0], skip);
    end <= size && |values| - 1 == (if end < skip then 0 else end - skip) && DigitsOk(values[1..], skip, size)
  }

  /** The last value is the first one that cannot be accepted. */
  predicate Rejected(values: seq<nat>, skip: nat, size: nat)
    requires values != []
  {
    var end := EndOf(values[0], skip);
    if |values| == 1 then end > size
    else end <= size && |values| - 1 <= end - skip && DigitsOk(values[1..|values| - 1], skip, size) &&
         values[|values| - 1] + skip + |values| - 2 >= size
  }

  lemma ReadManyNext(code: Code, s: seq<bool>, st: State, ctxs: seq<nat>, ctx: nat)
    requires code.Valid() && st.Valid(code) && Contexts(code, ctxs) && ctx < |code.tables|
    ensures Contexts(code, ctxs + [ctx])
    ensures var r := ReadMany(code, s, st, ctxs);
            var next := Read(code, s, r.state, ctx);
            next.state.Valid(code) && ReadMany(code, s, st, ctxs + [ctx]) == Run(next.state, r.values + [next.value])
    decreases |ctxs|
  {
    hide Read, Code.Valid, State.Valid;
    ReadKeepsValid(code, s, ReadMany(code, s, st, ctxs).state, ctx);
    if ctxs == [] {
      assert [ctx][1..] == [];
      var r := Read(code, s, st, ctx);
      assert ReadMany(code, s, st, [ctx]) == Run(r.state, [r.value] + []);
      assert [] + [ctx] == [ctx];
    } else {
      ReadKeepsValid(code, s, st, ctxs[0]);
      ReadManyNext(code, s, Read(code, s, st, ctxs[0]).state, ctxs[1..], ctx);
      assert (ctxs + [ctx])[0] == ctxs[0] && (ctxs + [ctx])[1..] == ctxs[1..] + [ctx];
    }
  }

  lemma ContextsNext(values: seq<nat>, v: nat, size: nat, contextMap: seq<nat>)
    requires |contextMap| >= PERMUTATION_CONTEXTS
    ensures ContextsOf(values + [v], size, contextMap) ==
            ContextsOf(values, size, contextMap) + [contextMap[ContextAfter(values, size)]]
  {
    var all := values + [v];
    assert forall k | 0 <= k <= |values| :: all[..k] == values[..k];
    assert values[..|values|] == values;
  }

  ghost predicate IsContextMap(contextMap: seq<nat>, code: Code) {
    |contextMap| >= PERMUTATION_CONTEXTS && forall c | 0 <= c < |contextMap| :: contextMap[c] < |code.tables|
  }

  /** `values` were decoded from `st` on, each in the context that the ones before it select. */
  ghost predicate HaveRead(reader: SymbolReader, br: BitReader, st: State, values: seq<nat>, size: nat,
                           contextMap: seq<nat>)
    reads reader, reader.window, br
  {
    && reader.Valid() && br.Valid() && st.Valid(reader.code) && IsContextMap(contextMap, reader.code)
    && Contexts(reader.code, ContextsOf(values, size, contextMap))
    && Run(reader.Abs(br.Position()), values)
       == ReadMany(reader.code, ToBits(br.data), st, ContextsOf(values, size, contextMap))
  }

  lemma StartReading(reader: SymbolReader, br: BitReader, size: nat, contextMap: seq<nat>)
    requires br.Valid() && reader.Valid() && IsContextMap(contextMap, reader.code)
    ensures HaveRead(reader, br, reader.Abs(br.Position()), [], size, contextMap)
  {
  }

  /** Reads one more value. */
  method ReadNext(reader: SymbolReader, br: BitReader, ghost values: seq<nat>, context: nat, ghost size: nat,
                  contextMap: seq<nat>, ghost st: State)
    returns (v: nat)
    requires br as object != reader && HaveRead(reader, br, st, values, size, contextMap)
    requires reader.numDecoded + 1 < UINT32_LIMIT && context == ContextAfter(values, size)
    modifies reader, reader.window, br
    ensures HaveRead(reader, br, st, values + [v], size, contextMap)
    ensures reader.numDecoded <= old(reader.numDecoded) + 1
  {
    ghost var s, ctxs := ToBits(br.data), ContextsOf(values, size, contextMap);
    ghost var before := reader.Abs(br.Position());
    assert before.Valid(reader.code) && contextMap[context] < |reader.code.tables|;
    hide Read, ReadMany, Code.Valid, State.Valid, SymbolReader.WindowValid, ContextsOf, ContextAfter, Contexts, ToBits;
    ReadManyNext(reader.code, s, st, ctxs, contextMap[context]);
    CountsUp(reader.code, s, before, contextMap[context]);
    v := reader.ReadHybridUintClustered(contextMap[context], br);
    ContextsNext(values, v, size, contextMap);
  }

  lemma PaddedNext(digits: seq<nat>, d: nat, skip: nat, size: nat)
    requires skip + |digits| < size
    ensures Padded(digits + [d], skip, size) == Padded(digits, skip, size)[skip + |digits| := d]
  {
  }

  lemma DigitsNext(digits: seq<nat>, d: nat, skip: nat, size: nat)
    requires DigitsOk(digits, skip, size)
    ensures DigitsOk(digits + [d], skip, size) <==> d + skip + |digits| < size
  {
    assert (digits + [d])[|digits|] == d;
  }

  /** The stored digits, in place. */
  predicate InPlace(lehmer: seq<nat>, digits: seq<nat>, skip: nat, size: nat) {
    skip + |digits| <= size && DigitsOk(digits, skip, size) && lehmer == Padded(digits, skip, size)
  }

  lemma StoreNext(lehmer: seq<nat>, read: seq<nat>, i: nat, d: nat, skip: nat, size: nat)
    requires read != [] && InPlace(lehmer, read[1..], skip, size) && i == skip + |read| - 1 < size
    ensures i < |lehmer| && (read + [d])[1..|read|] == read[1..]
    ensures d + i < size ==> InPlace(Updated<nat>(lehmer, i, d), (read + [d])[1..], skip, size)
    ensures DigitsOk(read[1..], skip, size)
  {
    assert (read + [d])[1..] == read[1..] + [d];
    assert (read + [d])[1..|read|] == read[1..];
    PaddedNext(read[1..], d, skip, size);
    DigitsNext(read[1..], d, skip, size);
  }

  /** Reads the digits of the entries `skip`, ..., `end - 1`; stops at the first one that is too large. */
  method ReadDigits(skip: nat, end: nat, size: nat, br: BitReader, reader: SymbolReader, contextMap: seq<nat>,
                    lehmer0: seq<nat>, ghost first: nat, ghost st: State)
    returns (ok: bool, lehmer: seq<nat>, ghost values: seq<nat>)
    requires br as object != reader && HaveRead(reader, br, st, [first], size, contextMap) && skip <= size &&
             end <= size
    requires reader.numDecoded + size < UINT32_LIMIT && InPlace(lehmer0, [], skip, size)
    modifies reader, reader.window, br
    ensures HaveRead(reader, br, st, values, size, contextMap) && values != [] && values[0] == first
    ensures ok ==> |values| == 1 + (if end < skip then 0 else end - skip)
    ensures ok ==> InPlace(lehmer, values[1..], skip, size)
    ensures !ok ==> 1 < |values| <= 1 + end - skip && DigitsOk(values[1..|values| - 1], skip, size) &&
                    values[|values| - 1] + skip + |values| - 2 >= size
  {
    hide HaveRead, InPlace, DigitsOk, CoeffOrderContext, ContextAfter, Updated, Code.Valid, SymbolReader.Valid,
         SymbolReader.Abs, State.Valid, BitReader.Valid, IsContextMap;
    values, lehmer := [first], lehmer0;
    var last: nat := 0;
    var i := skip;
    FirstContexts(first, size);
    assert values[1..] == [];
    while i < end
      invariant skip <= i && (i <= end || i == skip) && |values| == i - skip + 1 && values[0] == first
      invariant HaveRead(reader, br, st, values, size, contextMap)
      invariant CoeffOrderContext(last) == ContextAfter(values, size)
      invariant reader.numDecoded <= old(reader.numDecoded) + i - skip
      invariant InPlace(lehmer, values[1..], skip, size)
    {
      var v := ReadNext(reader, br, values, CoeffOrderContext(last), size, contextMap, st);
      StoreNext(lehmer, values, i, v, skip, size);
      LastContext(values, v, size);
      lehmer := Updated<nat>(lehmer, i, v);
      values := values + [v];
      last := v;
      if v + i >= size {
        return false, lehmer, values;
      }
      i := i + 1;
    }
    return true, lehmer, values;
  }

  lemma FirstContexts(first: nat, size: nat)
    ensures ContextAfter([], size) == CoeffOrderContext(size) && ContextAfter([first], size) == CoeffOrderContext(0)
  {
  }

  lemma LastContext(values: seq<nat>, v: nat, size: nat)
    requires values != []
    ensures ContextAfter(values + [v], size) == CoeffOrderContext(v)
  {
  }

  /** The digits and what they select, once the number of digits is known to be acceptable. */
  method ReadStored(skip: nat, end: nat, size: nat, br: BitReader, reader: SymbolReader, contextMap: seq<nat>,
                    ghost first: nat, ghost st: State) returns (order: Option<seq<nat>>, ghost values: seq<nat>)
    requires br as object != reader && HaveRead(reader, br, st, [first], size, contextMap)
    requires 0 < size && skip <= size && end == EndOf(first, skip) <= size && reader.numDecoded + size < UINT32_LIMIT
    modifies reader, reader.window, br
    ensures HaveRead(reader, br, st, values, size, contextMap)
    ensures values != [] && (if order.Some? then Complete(values, skip, size) else Rejected(values, skip, size))
    ensures order.Some? ==> skip + |values[1..]| <= size && order.value == PermutationOf(values[1..], skip, size)
  {
    hide HaveRead, InPlace, DigitsOk, PermutationOf, Padded, Selected, EndOf, Complete, Rejected;
    var lehmer := seq(size, _ => 0);
    PaddedZeros(lehmer, skip, size);
    var ok;
    ok, lehmer, values := ReadDigits(skip, end, size, br, reader, contextMap, lehmer, first, st);
    if !ok {
      RejectedDigit(values, skip, size);
      return None, values;
    }
    var p := DecodeStored(lehmer, size, values, skip);
    return Some(p), values;
  }

  /** `ReadPermutation`: accepts exactly the complete value lists and stops at the first value that
      rules acceptance out. */
  method ReadPermutation(skip: nat, size: nat, br: BitReader, reader: SymbolReader, contextMap: seq<nat>)
    returns (order: Option<seq<nat>>, ghost values: seq<nat>)
    requires reader.Valid() && br.Valid() && br as object != reader && IsContextMap(contextMap, reader.code)
    requires 0 < size && skip <= size && reader.numDecoded + size + 1 < UINT32_LIMIT
    modifies reader, reader.window, br
    ensures HaveRead(reader, br, old(reader.Abs(br.Position())), values, size, contextMap)
    ensures values != [] && (if order.Some? then Complete(values, skip, size) else Rejected(values, skip, size))
    ensures order.Some? ==> skip + |values[1..]| <= size && order.value == PermutationOf(values[1..], skip, size)
  {
    ghost var st := reader.Abs(br.Position());
    hide HaveRead, CoeffOrderContext, ContextAfter, PermutationOf, EndOf, Code.Valid, SymbolReader.Valid,
         SymbolReader.Abs,
         State.Valid, BitReader.Valid, IsContextMap, Complete, Rejected;
    FirstContexts(0, size);
    StartReading(reader, br, size, contextMap);
    var first := ReadNext(reader, br, [], CoeffOrderContext(size), size, contextMap, st);
    assert [] + [first] == [first];
    var end := EndOf(first, skip);
    if end > size {
      RejectedSize([first], skip, size);
      return None, [first];
    }
    order, values := ReadStored(skip, end, size, br, reader, contextMap, first, st);
  }

  method DecodeStored(lehmer: seq<nat>, size: nat, ghost values: seq<nat>, ghost skip: nat) returns (p: seq<nat>)
    requires size > 0 && values != [] && EndOf(values[0], skip) <= size && InPlace(lehmer, values[1..], skip, size)
    requires var end := EndOf(values[0], skip); |values| == 1 + (if end < skip then 0 else end - skip)
    ensures Complete(values, skip, size) && skip + |values[1..]| <= size
    ensures p == PermutationOf(values[1..], skip, size)
  {
    Accepted(lehmer, values, skip, size);
    StoredIsCode(lehmer, values[1..], skip, size);
    hide EndOf, Padded, InPlace, PermutationOf, Selected;
    p := DecodeLehmerCode(lehmer, size);
  }

  lemma RejectedSize(values: seq<nat>, skip: nat, size: nat)
    requires |values| == 1 && EndOf(values[0], skip) > size
    ensures Rejected(values, skip, size)
  {
  }

  lemma RejectedDigit(values: seq<nat>, skip: nat, size: nat)
    requires 1 < |values| && EndOf(values[0], skip) <= size && |values| <= 1 + EndOf(values[0], skip) - skip
    requires DigitsOk(values[1..|values| - 1], skip, size) && values[|values| - 1] + skip + |values| - 2 >= size
    ensures Rejected(values, skip, size)
  {
    hide EndOf, DigitsOk;
  }

  lemma Accepted(lehmer: seq<nat>, values: seq<nat>, skip: nat, size: nat)
    requires values != [] && EndOf(values[0], skip) <= size && InPlace(lehmer, values[1..], skip, size)
    requires var end := EndOf(values[0], skip); |values| == 1 + (if end < skip then 0 else end - skip)
    ensures Complete(values, skip, size) && skip + |values[1..]| <= size
  {
    hide EndOf, DigitsOk, Padded;
  }

  lemma PaddedZeros(z: seq<nat>, skip: nat, size: nat)
    requires |z| == size && skip <= size && forall k | 0 <= k < size :: z[k] == 0
    ensures InPlace(z, [], skip, size)
  {
  }

  lemma StoredIsCode(lehmer: seq<nat>, digits: seq<nat>, skip: nat, size: nat)
    requires InPlace(lehmer, digits, skip, size)
    ensures |lehmer| == size && IsCode(lehmer, size) && DigitsOk(digits, skip, size)
    ensures PermutationOf(digits, skip, size) == Selected(Range(0, size), lehmer)
  {
  }
}
