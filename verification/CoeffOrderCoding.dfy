/** Coefficient orders in the bit stream (lib/jxl/coeff_order.cc:81-96 and
lib/jxl/enc_coeff_order.cc:210-255): both directions, and exactly when they are inverse to each other.
 */
module CoeffOrderCoding {
  import opened Bits
  import opened BitReading
  import opened HybridUint
  import opened SymbolSpec
  import opened SymbolReading
  import opened UintConfigs
  import opened Lehmer
  import opened Fenwick
  import opened CoeffOrder
  import opened Permutations

  // ----- encoding -----

  /** A token of the permutation before clustering: context and value. */
  datatype PermutationToken = PermutationToken(context: nat, value: nat)

  function TokenValues(tokens: seq<PermutationToken>): (v: seq<nat>)
    ensures |v| == |tokens|
  {
    seq(|tokens|, k requires 0 <= k < |tokens| => tokens[k].value)
  }

  /** Every token is in the context in which the decoder will ask for it. */
  predicate ContextsAgree(tokens: seq<PermutationToken>, size: nat) {
    forall k | 0 <= k < |tokens| :: tokens[k].context == ContextAfter(TokenValues(tokens)[..k], size)
  }

  /** What the tokenizer stores of a code: the digits up to the last one that is not zero. */
  ghost predicate IsTrimmed(code: seq<nat>, skip: nat, end: nat) {
    skip <= end <= |code| && forall i | end <= i < |code| :: code[i] == 0
  }

  lemma NextToken(tokens: seq<PermutationToken>, t: PermutationToken, size: nat)
    requires ContextsAgree(tokens, size) && t.context == ContextAfter(TokenValues(tokens), size)
    ensures ContextsAgree(tokens + [t], size) && TokenValues(tokens + [t]) == TokenValues(tokens) + [t.value]
  {
    var all := TokenValues(tokens + [t]);
    assert all == TokenValues(tokens) + [t.value];
    assert forall k | 0 <= k <= |tokens| :: all[..k] == TokenValues(tokens)[..k];
    assert TokenValues(tokens)[..|tokens|] == TokenValues(tokens);
  }

  /** `TokenizePermutation`. */
  method TokenizePermutation(order: seq<nat>, skip: nat, size: nat) returns (tokens: seq<PermutationToken>,
                             ghost end: nat)
    requires |order| == size && skip <= size && Selectable(Range(0, size), order)
    ensures ContextsAgree(tokens, size) && IsTrimmed(CodeOf(Range(0, size), order), skip, end)
    ensures TokenValues(tokens) == [end - skip] + CodeOf(Range(0, size), order)[skip..end]
  {
    var lehmer := ComputeLehmerCode(order);
    var last: nat := size;
    while last > skip && lehmer[last - 1] == 0
      invariant IsTrimmed(lehmer, skip, last)
    {
      last := last - 1;
    }
    end := last;
    tokens := StoredTokens(lehmer, skip, last, size);
  }

  /** The number of stored digits and the digits, each in the context of the one before it. */
  method StoredTokens(lehmer: seq<nat>, skip: nat, end: nat, size: nat) returns (tokens: seq<PermutationToken>)
    requires skip <= end <= |lehmer|
    ensures ContextsAgree(tokens, size) && TokenValues(tokens) == [end - skip] + lehmer[skip..end]
  {
    tokens := [PermutationToken(CoeffOrderContext(size), end - skip)];
    var previous: nat := 0;
    FirstValue(lehmer, skip, end, size, tokens);
    hide CoeffOrderContext, TokenValues, ContextsAgree, ContextAfter, StoredValues;
    for i := skip to end
      invariant ContextsAgree(tokens, size) && TokenValues(tokens) == StoredValues(lehmer, skip, i, end)
      invariant CoeffOrderContext(previous) == ContextAfter(TokenValues(tokens), size)
    {
      var t := PermutationToken(CoeffOrderContext(previous), lehmer[i]);
      NextToken(tokens, t, size);
      NextValue(lehmer, skip, i, end, size);
      tokens := tokens + [t];
      previous := lehmer[i];
    }
    AllValues(lehmer, skip, end);
  }

  function StoredValues(lehmer: seq<nat>, skip: nat, i: nat, end: nat): seq<nat>
    requires skip <= i <= end <= |lehmer|
  {
    [end - skip] + lehmer[skip..i]
  }

  lemma FirstValue(lehmer: seq<nat>, skip: nat, end: nat, size: nat, tokens: seq<PermutationToken>)
    requires skip <= end <= |lehmer| && tokens == [PermutationToken(CoeffOrderContext(size), end - skip)]
    ensures ContextsAgree(tokens, size) && TokenValues(tokens) == StoredValues(lehmer, skip, skip, end)
    ensures ContextAfter(TokenValues(tokens), size) == CoeffOrderContext(0)
  {
  }

  lemma NextValue(lehmer: seq<nat>, skip: nat, i: nat, end: nat, size: nat)
    requires skip <= i < end <= |lehmer|
    ensures StoredValues(lehmer, skip, i + 1, end) == StoredValues(lehmer, skip, i, end) + [lehmer[i]]
    ensures ContextAfter(StoredValues(lehmer, skip, i, end) + [lehmer[i]], size) == CoeffOrderContext(lehmer[i])
  {
    LastContext(StoredValues(lehmer, skip, i, end), lehmer[i], size);
    assert lehmer[skip..i + 1] == lehmer[skip..i] + [lehmer[i]];
  }

  lemma AllValues(lehmer: seq<nat>, skip: nat, end: nat)
    requires skip <= end <= |lehmer|
    ensures StoredValues(lehmer, skip, end, end) == [end - skip] + lehmer[skip..end]
  {
  }

  /** What the tokenizer writes is what the reader accepts. */
  lemma TokensAreComplete(code: seq<nat>, skip: nat, end: nat)
    requires IsCode(code, |code|) && IsTrimmed(code, skip, end) && |code| < UINT32_LIMIT
    ensures Complete([end - skip] + code[skip..end], skip, |code|)
    ensures skip + |code[skip..end]| <= |code| && DigitsOk(code[skip..end], skip, |code|)
  {
    var digits := code[skip..end];
    var values: seq<nat> := [end - skip] + digits;
    assert values[1..] == digits;
    ModSmall(end, UINT32_LIMIT);
  }

  /** Reading the stored digits gives the permutation back exactly if its first `skip` digits were zero. */
  lemma StoredDigitsSuffice(code: seq<nat>, skip: nat, end: nat)
    requires IsCode(code, |code|) && IsTrimmed(code, skip, end)
    requires DigitsOk(code[skip..end], skip, |code|)
    ensures FullCode(code[skip..end], skip, |code|) == code <==> forall i | 0 <= i < skip :: code[i] == 0
  {
    var full := FullCode(code[skip..end], skip, |code|);
    assert full == Padded(code[skip..end], skip, |code|);
    assert forall i | 0 <= i < |code| :: full[i] == if i < skip then 0 else code[i];
  }

  lemma {:induction false} KeptPrefixIsZeros(remaining: seq<nat>, p: seq<nat>, m: nat)
    requires Selectable(remaining, p) && Distinct(remaining) && m <= |p| && m <= |remaining|
    requires forall i | 0 <= i < m :: p[i] == remaining[i]
    ensures forall i | 0 <= i < m :: CodeOf(remaining, p)[i] == 0
    decreases |p|
  {
    if m > 0 {
      DistinctIndex(remaining, 0);
      SelectableTail(remaining, p);
      DistinctRemove(remaining, 0);
      var rest := Remove(remaining, 0);
      assert rest == remaining[1..];
      CodeOfHead(remaining, p);
      hide CodeOf, Selectable, Distinct, IndexOf;
      KeptPrefixIsZeros(rest, p[1..], m - 1);
      forall i | 0 <= i < m ensures CodeOf(remaining, p)[i] == 0 {
        assert i > 0 ==> CodeOf(remaining, p)[i] == CodeOf(rest, p[1..])[i - 1];
      }
    }
  }

  lemma CodeOfHead(remaining: seq<nat>, p: seq<nat>)
    requires Selectable(remaining, p) && p != []
    ensures p[0] in remaining && Selectable(Remove(remaining, IndexOf(remaining, p[0])), p[1..])
    ensures CodeOf(remaining, p) ==
            [IndexOf(remaining, p[0])] + CodeOf(Remove(remaining, IndexOf(remaining, p[0])), p[1..])
  {
    SelectableTail(remaining, p);
  }

  lemma ZeroDigitsKeepPrefix(p: seq<nat>, n: nat, skip: nat)
    requires |p| == n && skip <= n && Selectable(Range(0, n), p)
    ensures (forall i | 0 <= i < skip :: CodeOf(Range(0, n), p)[i] == 0) <==> forall i | 0 <= i < skip :: p[i] == i
  {
    var code := CodeOf(Range(0, n), p);
    SelectedCodeOf(Range(0, n), p);
    if forall i | 0 <= i < skip :: code[i] == 0 {
      ZeroDigits(Range(0, n), code, skip);
      forall i | 0 <= i < skip ensures p[i] == i {
        assert p[..skip][i] == Range(0, n)[..skip][i];
      }
    }
    if forall i | 0 <= i < skip :: p[i] == i {
      KeptPrefixIsZeros(Range(0, n), p, skip);
    }
  }

  /** Round trip of a permutation: it is recovered if and only if it keeps the skipped entries. */
  lemma PermutationRoundTrip(p: seq<nat>, n: nat, skip: nat, end: nat)
    requires |p| == n && skip <= n && Selectable(Range(0, n), p) && n < UINT32_LIMIT
    requires IsTrimmed(CodeOf(Range(0, n), p), skip, end)
    ensures var digits := CodeOf(Range(0, n), p)[skip..end];
            Complete([end - skip] + digits, skip, n) && skip + |digits| <= n && DigitsOk(digits, skip, n) &&
            (PermutationOf(digits, skip, n) == p <==> forall i | 0 <= i < skip :: p[i] == i)
  {
    var code := CodeOf(Range(0, n), p);
    SelectedCodeOf(Range(0, n), p);
    TokensAreComplete(code, skip, end);
    StoredDigitsSuffice(code, skip, end);
    ZeroDigitsKeepPrefix(p, n, skip);
    var full := FullCode(code[skip..end], skip, n);
    CodeOfSelected(Range(0, n), full);
  }

  // ----- coefficient orders -----

  /** The permutation `p` applied to the entries of `natural`. */
  function Composed(natural: seq<nat>, p: seq<nat>): (o: seq<nat>)
    requires forall i | 0 <= i < |p| :: p[i] < |natural|
    ensures |o| == |p| && forall i | 0 <= i < |o| :: o[i] == natural[p[i]]
  {
    seq(|p|, i requires 0 <= i < |p| => natural[p[i]])
  }

  lemma ComposedIsPermutation(natural: seq<nat>, p: seq<nat>)
    requires IsPermutation(natural) && IsPermutation(p) && |natural| == |p|
    ensures IsPermutation(Composed(natural, p))
  {
    var o := Composed(natural, p);
    forall i: nat, j: nat | i < j < |o| ensures o[i] != o[j] {
      var a, b := p[i], p[j];
      assert a < b || b < a;
    }
    forall v: nat | v < |o| ensures v in o {
      assert v in natural;
      var k :| 0 <= k < |natural| && natural[k] == v;
      assert k in p;
      var i :| 0 <= i < |p| && p[i] == k;
      assert o[i] == v;
    }
  }

  /** `DecodeCoeffOrder`: every accepted stream gives a permutation of all positions that starts like the
      natural order. */
  method DecodeCoeffOrder(llf: nat, natural: seq<nat>, br: BitReader, reader: SymbolReader, contextMap: seq<nat>)
    returns (order: Option<seq<nat>>, ghost values: seq<nat>)
    requires reader.Valid() && br.Valid() && br as object != reader && IsContextMap(contextMap, reader.code)
    requires llf > 0 && |natural| == 64 * llf && IsPermutation(natural)
    requires reader.numDecoded + 64 * llf + 1 < UINT32_LIMIT
    modifies reader, reader.window, br
    ensures HaveRead(reader, br, old(reader.Abs(br.Position())), values, 64 * llf, contextMap) && values != []
    ensures if order.Some? then Complete(values, llf, 64 * llf) else Rejected(values, llf, 64 * llf)
    ensures order.Some? ==> |order.value| == 64 * llf && IsPermutation(order.value)
    ensures order.Some? ==> |order.value| >= llf && order.value[..llf] == natural[..llf]
    ensures order.Some? ==> order.value == DecodedOrder(values[1..], llf, natural)
  {
    hide IsPermutation, Complete, Rejected, PermutationOf, HaveRead;
    var permutation;
    permutation, values := ReadPermutation(llf, 64 * llf, br, reader, contextMap);
    if permutation.None? {
      return None, values;
    }
    DecodedOrderIsPermutation(values, llf, natural);
    var composed := Compose(permutation.value, natural);
    order := Some(composed);
  }

  /** What a complete list of values stands for. */
  function DecodedOrder(digits: seq<nat>, llf: nat, natural: seq<nat>): seq<nat>
    requires |natural| == 64 * llf && llf + |digits| <= 64 * llf && DigitsOk(digits, llf, 64 * llf)
  {
    AcceptedIsPermutation(digits, llf, 64 * llf);
    Composed(natural, PermutationOf(digits, llf, 64 * llf))
  }

  lemma DecodedOrderIsPermutation(values: seq<nat>, llf: nat, natural: seq<nat>)
    requires |natural| == 64 * llf && IsPermutation(natural) && values != [] && Complete(values, llf, 64 * llf)
    ensures llf + |values[1..]| <= 64 * llf && DigitsOk(values[1..], llf, 64 * llf)
    ensures var p, o := PermutationOf(values[1..], llf, 64 * llf), DecodedOrder(values[1..], llf, natural);
            |p| == |o| == 64 * llf && IsPermutation(p) && IsPermutation(o) && o[..llf] == natural[..llf]
  {
    AcceptedIsPermutation(values[1..], llf, 64 * llf);
    ComposedIsPermutation(natural, PermutationOf(values[1..], llf, 64 * llf));
  }

  /** Rewrites the permutation in place into entries of the natural order. */
  method Compose(permutation: seq<nat>, natural: seq<nat>) returns (order: seq<nat>)
    requires IsPermutation(permutation) && |permutation| == |natural|
    ensures order == Composed(natural, permutation)
  {
    order := permutation;
    for k := 0 to |order|
      invariant |order| == |permutation|
      invariant forall i | 0 <= i < |order| :: order[i] == if i < k then natural[permutation[i]] else permutation[i]
    {
      order := order[k := natural[order[k]]];
    }
  }

  /** `EncodeCoeffOrder`: the order relative to the natural one, as tokens. */
  method EncodeCoeffOrder(order: seq<nat>, llf: nat, natural: seq<nat>, lut: seq<nat>)
    returns (tokens: seq<PermutationToken>)
    requires |order| == |natural| == 64 * llf < UINT32_LIMIT && IsPermutation(order) && IsPermutation(natural)
    requires IsInverse(lut, natural) && IsInverse(natural, lut)
    ensures ContextsAgree(tokens, 64 * llf) && tokens != [] && Complete(TokenValues(tokens), llf, 64 * llf)
    ensures llf + |TokenValues(tokens)[1..]| <= 64 * llf && DigitsOk(TokenValues(tokens)[1..], llf, 64 * llf)
    ensures DecodedOrder(TokenValues(tokens)[1..], llf, natural) == order <==> order[..llf] == natural[..llf]
  {
    var orderZigzag := [];
    for i := 0 to |order|
      invariant orderZigzag == Composed(lut, order[..i])
    {
      orderZigzag := orderZigzag + [lut[order[i]]];
    }
    assert order[..|order|] == order;
    assert orderZigzag == Composed(lut, order);
    ZigzagSelectable(order, natural, lut);
    ghost var end;
    hide IsPermutation, IsInverse, Complete, DigitsOk, ContextsAgree, DecodedOrder, IsTrimmed, CodeOf, Selectable;
    tokens, end := TokenizePermutation(orderZigzag, llf, 64 * llf);
    PermutationRoundTrip(orderZigzag, 64 * llf, llf, end);
    assert TokenValues(tokens)[1..] == CodeOf(Range(0, 64 * llf), orderZigzag)[llf..end];
    RelativeOrder(order, llf, natural, lut, TokenValues(tokens)[1..]);
  }

  lemma ZigzagSelectable(order: seq<nat>, natural: seq<nat>, lut: seq<nat>)
    requires |order| == |natural| && IsPermutation(order) && IsPermutation(natural)
    requires IsInverse(lut, natural) && IsInverse(natural, lut)
    ensures Selectable(Range(0, |order|), Composed(lut, order))
  {
    var z := Composed(lut, order);
    forall i: nat, j: nat | i < j < |z| ensures z[i] != z[j] {
      assert natural[z[i]] == order[i] && natural[z[j]] == order[j];
    }
    forall i | 0 <= i < |z| ensures z[i] in Range(0, |order|) {
      assert Range(0, |order|)[z[i]] == z[i];
    }
  }

  /** The decoder recovers the order from its relative form exactly if the decoder's permutation is that form. */
  lemma RelativeOrder(order: seq<nat>, llf: nat, natural: seq<nat>, lut: seq<nat>, digits: seq<nat>)
    requires |order| == |natural| == 64 * llf && IsPermutation(order) && IsPermutation(natural)
    requires IsInverse(lut, natural) && IsInverse(natural, lut)
    requires llf + |digits| <= 64 * llf && DigitsOk(digits, llf, 64 * llf)
    requires PermutationOf(digits, llf, 64 * llf) == Composed(lut, order) <==>
             forall i | 0 <= i < llf :: Composed(lut, order)[i] == i
    ensures DecodedOrder(digits, llf, natural) == order <==> order[..llf] == natural[..llf]
  {
    var p, z := PermutationOf(digits, llf, 64 * llf), Composed(lut, order);
    AcceptedIsPermutation(digits, llf, 64 * llf);
    hide PermutationOf, DigitsOk;
    if DecodedOrder(digits, llf, natural) == order {
      forall i | 0 <= i < |order| ensures p[i] == z[i] {
        assert lut[natural[p[i]]] == p[i];
      }
      assert p == z;
    }
    if order[..llf] == natural[..llf] {
      forall i | 0 <= i < llf ensures z[i] == i {
        assert order[..llf][i] == natural[..llf][i];
        assert lut[natural[i]] == i;
      }
      forall i | 0 <= i < |order| ensures natural[p[i]] == order[i] {
        assert natural[lut[order[i]]] == order[i];
      }
    }
    if p == z {
      forall i | 0 <= i < llf ensures order[i] == natural[i] {
        assert natural[lut[order[i]]] == order[i];
      }
    }
  }
}
