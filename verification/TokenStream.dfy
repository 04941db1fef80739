/** Whole token streams: what `WriteTokens` writes (lib/jxl/enc_ans.cc:1604-1664), the symbol reader
decodes (lib/jxl/dec_ans.h:189-216, 244-347).

The encoder works from the last token to the first, so the stream is defined back to front; the
decoder's reference semantics reads it front to back and ends in the signature state.
 */
module TokenStream {
  import opened Bits
  import opened BitReading
  import opened BitWriting
  import opened AliasTable
  import opened Rans
  import opened HybridUint
  import opened History
  import opened SymbolSpec
  import opened AnsEncoding

  /** A token in a clustered context; length tokens use the length configuration. */
  datatype Token = Token(ctx: nat, value: nat, isLength: bool)

  function TokenConfig(code: Code, t: Token): Config
    requires t.ctx < |code.configs|
  {
    if t.isLength then code.lengthConfig else code.configs[t.ctx]
  }

  function TokenSymbol(code: Code, t: Token): nat
    requires code.Valid() && t.ctx < |code.configs|
  {
    Encode(TokenConfig(code, t), t.value).token + if t.isLength then code.minSymbol else 0
  }

  /** The value is a uint32 and its symbol occurs in the context's distribution. */
  ghost predicate Encodable(code: Code, t: Token)
    requires code.Valid()
  {
    t.ctx < |code.tables| && t.value < UINT32_LIMIT && Freq(code.tables[t.ctx].d, TokenSymbol(code, t)) > 0
  }

  ghost predicate AllEncodable(code: Code, ts: seq<Token>)
    requires code.Valid()
  {
    forall k | 0 <= k < |ts| :: Encodable(code, ts[k])
  }

  // ----- the stream -----

  datatype Coded = Coded(state: nat, bits: seq<bool>)

  function WordBits(words: seq<nat>): seq<bool> {
    if words == [] then [] else FromNat(words[0], 16) + WordBits(words[1..])
  }

  /** One more token in front: the word its symbol pushes out, its raw bits, then the rest. */
  ghost function Prepend(code: Code, t: Token, rest: Coded): Coded
    requires code.Valid() && Encodable(code, t)
  {
    var e := Encode(TokenConfig(code, t), t.value);
    var s := TokenSymbol(code, t);
    Coded(PutState(code.tables[t.ctx], s, rest.state),
            WordBits(PutWords(code.tables[t.ctx], s, rest.state)) + FromNat(e.bits, e.nbits) + rest.bits)
  }

  ghost function StreamOf(code: Code, ts: seq<Token>): Coded
    requires code.Valid() && AllEncodable(code, ts)
  {
    if ts == [] then Coded(FINAL_STATE, []) else Prepend(code, ts[0], StreamOf(code, ts[1..]))
  }

  // ----- decoding one token -----

  /** A symbol and the value its raw bits complete. */
  datatype Decoded = Decoded(symbol: ReadResult, value: nat, pos: nat)

  function DecodeToken(code: Code, s: seq<bool>, ans: nat, pos: nat, t: Token): Decoded
    requires code.Valid() && t.ctx < |code.tables|
  {
    var symbol := ReadSymbol(code.tables[t.ctx], s, ans, pos);
    var cfg := TokenConfig(code, t);
    var token := if t.isLength && symbol.value >= code.minSymbol then symbol.value - code.minSymbol else symbol.value;
    Decoded(symbol, HybridValue(cfg, token, s, symbol.pos), symbol.pos + RawBits(cfg, token))
  }

  /** The word a step needs is the one that putting its symbol pushed out. */
  lemma WordIsHeld(t: ValidTable, s: nat, next: nat, bits: seq<bool>, pos: nat)
    requires IsNormalized(next) && Freq(t.d, s) > 0
    requires HoldsAt(bits, pos, WordBits(PutWords(t, s, next)))
    ensures ReadSymbol(t, bits, PutState(t, s, next), pos)
         == ReadResult(s, next, pos + |WordBits(PutWords(t, s, next))|)
  {
    var words := PutWords(t, s, next);
    var state := PutState(t, s, next);
    StepUndoesPut(t, s, next);
    if words != [] {
      var w := words[0];
      assert words[1..] == [];
      assert WordBits(words) == FromNat(w, 16) + [];
      assert WordBits(words) == FromNat(w, 16);
      Pow2Small();
      HeldNumber(bits, pos, w, 16);
    } else {
      NextWithoutWord(t, state, 0, NumberAt(bits, pos, 16));
    }
  }

  lemma NextWithoutWord(t: ValidTable, state: nat, u: nat, v: nat)
    requires !NeedsWord(t, state)
    ensures NextState(t, state, u) == NextState(t, state, v)
  {
  }

  /** Where the three parts of a prepended token are. */
  lemma PrependedHeld(code: Code, t: Token, rest: Coded, s: seq<bool>, pos: nat, word: seq<bool>, raw: seq<bool>)
    requires code.Valid() && Encodable(code, t) && HoldsAt(s, pos, Prepend(code, t, rest).bits)
    requires word == WordBits(PutWords(code.tables[t.ctx], TokenSymbol(code, t), rest.state))
    requires var e := Encode(TokenConfig(code, t), t.value); raw == FromNat(e.bits, e.nbits)
    ensures HoldsAt(s, pos, word) && HoldsAt(s, pos + |word|, raw) && HoldsAt(s, pos + |word| + |raw|, rest.bits)
    ensures |Prepend(code, t, rest).bits| == |word| + |raw| + |rest.bits|
  {
    hide PutState, PutWords, WordBits, Encode, FromNat, HoldsAt, Code.Valid, Encodable, TokenSymbol, TokenConfig;
    HoldsAtSplit(s, pos, word + raw, rest.bits);
    HoldsAtSplit(s, pos, word, raw);
  }

  /** The symbol and value that `DecodeToken` finds when both parts are in place. */
  lemma DecodeHeld(code: Code, t: Token, s: seq<bool>, ans: nat, pos: nat, symbol: ReadResult)
    requires code.Valid() && t.ctx < |code.tables| && t.value < UINT32_LIMIT
    requires symbol == ReadSymbol(code.tables[t.ctx], s, ans, pos) && symbol.value == TokenSymbol(code, t)
    requires var e := Encode(TokenConfig(code, t), t.value); HoldsAt(s, symbol.pos, FromNat(e.bits, e.nbits))
    ensures var e := Encode(TokenConfig(code, t), t.value);
            DecodeToken(code, s, ans, pos, t) == Decoded(symbol, t.value, symbol.pos + e.nbits)
  {
    HybridHeld(TokenConfig(code, t), t.value, s, symbol.pos);
    hide HybridValue, RawBits, Encode, FromNat, HoldsAt, ReadSymbol, Table.Valid;
  }

  lemma HybridHeld(cfg: Config, value: nat, s: seq<bool>, pos: nat)
    requires cfg.Valid() && value < UINT32_LIMIT
    requires var e := Encode(cfg, value); HoldsAt(s, pos, FromNat(e.bits, e.nbits))
    ensures var e := Encode(cfg, value);
            RawBits(cfg, e.token) == e.nbits && HybridValue(cfg, e.token, s, pos) == value
  {
    DecodeEncode(cfg, value);
    hide Encode, Decode, FromNat, HoldsAt, NumberAt, RawBits;
    var e := Encode(cfg, value);
    HeldNumber(s, pos, e.bits, e.nbits);
  }

  /** Decoding undoes `Prepend`. */
  lemma DecodePrepended(code: Code, t: Token, rest: Coded, s: seq<bool>, pos: nat)
    requires code.Valid() && Encodable(code, t) && IsNormalized(rest.state)
    requires HoldsAt(s, pos, Prepend(code, t, rest).bits)
    ensures var d := DecodeToken(code, s, Prepend(code, t, rest).state, pos, t);
            d.symbol.value == TokenSymbol(code, t) && d.symbol.ans == rest.state && d.value == t.value &&
            d.pos + |rest.bits| == pos + |Prepend(code, t, rest).bits| && HoldsAt(s, d.pos, rest.bits)
  {
    var e := Encode(TokenConfig(code, t), t.value);
    var sym := TokenSymbol(code, t);
    var word := WordBits(PutWords(code.tables[t.ctx], sym, rest.state));
    PrependedHeld(code, t, rest, s, pos, word, FromNat(e.bits, e.nbits));
    hide PutWords, WordBits, TokenSymbol, FromNat, HoldsAt, ReadSymbol, DecodeToken, Table.Valid, PutState, Encode;
    WordIsHeld(code.tables[t.ctx], sym, rest.state, s, pos);
    DecodeHeld(code, t, s, Prepend(code, t, rest).state, pos, ReadResult(sym, rest.state, pos + |word|));
  }

  lemma {:induction false} StreamIsNormalized(code: Code, ts: seq<Token>)
    requires code.Valid() && AllEncodable(code, ts)
    ensures IsNormalized(StreamOf(code, ts).state)
  {
    hide PutState, Encode, Table.Valid;
    if ts != [] {
      StreamIsNormalized(code, ts[1..]);
      StepUndoesPut(code.tables[ts[0].ctx], TokenSymbol(code, ts[0]), StreamOf(code, ts[1..]).state);
    }
  }

  // ----- values and copies -----

  /** What a caller encodes: a value, or `length` values copied from the history. */
  datatype Item = Plain(ctx: nat, value: nat) | Copy(ctx: nat, length: nat, distanceCode: nat)

  function ItemTokens(code: Code, item: Item): seq<Token>
    requires item.Copy? ==> item.length >= code.minLength
  {
    match item
    case Plain(ctx, value) => [Token(ctx, value, false)]
    case Copy(ctx, length, distanceCode) =>
      [Token(ctx, length - code.minLength, true), Token(code.distanceContext, distanceCode, false)]
  }

  /** All tokens can be encoded, and no literal has a symbol that announces a copy. */
  ghost predicate ItemOk(code: Code, item: Item)
    requires code.Valid()
  {
    match item
    case Plain(ctx, value) =>
      Encodable(code, Token(ctx, value, false)) &&
      (code.lz77 ==> TokenSymbol(code, Token(ctx, value, false)) < code.minSymbol)
    case Copy(ctx, length, distanceCode) =>
      code.lz77 && code.minLength <= length < UINT32_LIMIT &&
      Encodable(code, Token(ctx, length - code.minLength, true)) &&
      Encodable(code, Token(code.distanceContext, distanceCode, false))
  }

  ghost predicate ItemsOk(code: Code, items: seq<Item>)
    requires code.Valid()
  {
    forall k | 0 <= k < |items| :: ItemOk(code, items[k])
  }

  function Tokens(code: Code, items: seq<Item>): (ts: seq<Token>)
    requires code.Valid() && ItemsOk(code, items)
    ensures AllEncodable(code, ts)
  {
    if items == [] then [] else ItemTokens(code, items[0]) + Tokens(code, items[1..])
  }

  /** `n` values, each equal to the one `d` positions before it, or zeros if there is no history. */
  function CopyValues(h: seq<nat>, d: nat, n: nat): (v: seq<nat>)
    requires d <= |h|
    ensures |v| == n
    decreases n
  {
    if n == 0 then []
    else
      var x := if d == 0 then 0 else h[|h| - d];
      [x] + CopyValues(h + [x], d, n - 1)
  }

  function ItemValues(code: Code, h: seq<nat>, item: Item): seq<nat>
    requires code.Valid()
  {
    match item
    case Plain(_, value) => [value]
    case Copy(_, length, distanceCode) => CopyValues(h, ClampedDistance(code, distanceCode, |h|), length)
  }

  function ItemContexts(item: Item): seq<nat> {
    match item
    case Plain(ctx, _) => [ctx]
    case Copy(ctx, length, _) => seq(length, _ => ctx)
  }

  /** The values a list of items stands for, after the history `h`. */
  ghost function Values(code: Code, h: seq<nat>, items: seq<Item>): seq<nat>
    requires code.Valid()
    decreases |items|
  {
    if items == [] then []
    else
      var first := ItemValues(code, h, items[0]);
      first + Values(code, h + first, items[1..])
  }

  function AllContexts(items: seq<Item>): seq<nat> {
    if items == [] then [] else ItemContexts(items[0]) + AllContexts(items[1..])
  }

  // ----- decoding items -----

  lemma {:induction false} CopyValuesMatch(h: seq<nat>, d: nat, n: nat, all: seq<nat>)
    requires d <= |h| && |all| == |h| + n && all[..|h|] == h
    requires forall i | |h| <= i < |all| :: all[i] == if d == 0 then 0 else all[i - d]
    ensures all[|h|..] == CopyValues(h, d, n)
    decreases n
  {
    if n > 0 {
      var x := if d == 0 then 0 else h[|h| - d];
      assert all[|h|] == x by {
        if d > 0 {
          assert all[|h| - d] == all[..|h|][|h| - d];
        }
      }
      assert all[..|h| + 1] == h + [x];
      CopyValuesMatch(h + [x], d, n - 1, all);
      assert all[|h|..] == [x] + all[|h| + 1..];
    }
  }

  lemma StreamCons(code: Code, t: Token, rest: seq<Token>)
    requires code.Valid() && AllEncodable(code, [t] + rest)
    ensures Encodable(code, t) && AllEncodable(code, rest)
    ensures StreamOf(code, [t] + rest) == Prepend(code, t, StreamOf(code, rest))
    ensures IsNormalized(StreamOf(code, rest).state)
  {
    var ts := [t] + rest;
    assert ts[0] == t && ts[1..] == rest;
    assert forall k | 0 <= k < |rest| :: rest[k] == ts[k + 1];
    hide Prepend, Encodable, Code.Valid, IsNormalized;
    StreamIsNormalized(code, rest);
  }

  /** The decoder is at `pos` with state `ans`, in front of the stream of `ts`, which stops at `end`. */
  ghost predicate InFront(code: Code, s: seq<bool>, ans: nat, pos: nat, ts: seq<Token>, end: nat)
    requires code.Valid() && AllEncodable(code, ts)
  {
    var stream := StreamOf(code, ts);
    ans == stream.state && HoldsAt(s, pos, stream.bits) && pos + |stream.bits| == end
  }

  /** Decoding the first token of a stream leaves the decoder in front of the others. */
  lemma DecodeFirst(code: Code, s: seq<bool>, ans: nat, pos: nat, t: Token, rest: seq<Token>, end: nat)
    requires code.Valid() && AllEncodable(code, [t] + rest) && InFront(code, s, ans, pos, [t] + rest, end)
    ensures t.ctx < |code.tables| && AllEncodable(code, rest)
    ensures var d := DecodeToken(code, s, ans, pos, t);
            d.symbol.value == TokenSymbol(code, t) && d.value == t.value &&
            InFront(code, s, d.symbol.ans, d.pos, rest, end)
  {
    StreamCons(code, t, rest);
    assert t.ctx < |code.tables|;
    hide Code.Valid, Prepend, StreamOf, DecodeToken, AllEncodable, IsNormalized, HoldsAt, TokenSymbol;
    DecodePrepended(code, t, StreamOf(code, rest), s, pos);
  }

  /** The decoder's reference state, in front of `ts` after the values `h`. */
  ghost predicate Ready(code: Code, s: seq<bool>, st: State, h: seq<nat>, ts: seq<Token>, end: nat)
    requires code.Valid() && AllEncodable(code, ts)
  {
    st.count == 0 && st.history == (if code.lz77 then h else []) && InFront(code, s, st.ans, st.pos, ts, end)
  }

  /** A symbol below the threshold is a literal. */
  lemma DecodedIsLiteral(code: Code, s: seq<bool>, st: State, t: Token)
    requires code.Valid() && st.Valid(code) && st.count == 0 && t.ctx < |code.tables| && !t.isLength
    requires code.lz77 ==> DecodeToken(code, s, st.ans, st.pos, t).symbol.value < code.minSymbol
    ensures var d := DecodeToken(code, s, st.ans, st.pos, t);
            Read(code, s, st, t.ctx) ==
            Result(State(d.symbol.ans, d.pos, if code.lz77 then st.history + [d.value] else st.history, 0, st.distance),
                   d.value)
  {
    hide ReadSymbol, HybridValue, RawBits, StartCopy, Table.Valid, Config.Valid;
  }

  /** A length and a distance set up a copy. */
  lemma DecodedIsCopy(code: Code, s: seq<bool>, st: State, a: Token, b: Token)
    requires code.Valid() && code.lz77 && a.ctx < |code.tables| && a.isLength
    requires b.ctx == code.distanceContext && !b.isLength
    requires var da := DecodeToken(code, s, st.ans, st.pos, a);
             da.symbol.value >= code.minSymbol && da.value + code.minLength < UINT32_LIMIT
    ensures var da := DecodeToken(code, s, st.ans, st.pos, a);
            var db := DecodeToken(code, s, da.symbol.ans, da.pos, b);
            StartCopy(code, s, st, da.symbol) ==
            State(db.symbol.ans, db.pos, st.history, da.value + code.minLength,
                  ClampedDistance(code, db.value, |st.history|))
  {
    hide ReadSymbol, HybridValue, RawBits, ClampedDistance, Table.Valid, Config.Valid;
    ModSmall(DecodeToken(code, s, st.ans, st.pos, a).value + code.minLength, UINT32_LIMIT);
  }

  lemma ReadLiteral(code: Code, s: seq<bool>, st: State, h: seq<nat>, t: Token, rest: seq<Token>, end: nat)
    requires code.Valid() && st.Valid(code) && AllEncodable(code, [t] + rest) && !t.isLength
    requires Ready(code, s, st, h, [t] + rest, end)
    requires t.ctx < |code.tables| && (code.lz77 ==> TokenSymbol(code, t) < code.minSymbol)
    ensures AllEncodable(code, rest)
    ensures var r := Read(code, s, st, t.ctx);
            r.value == t.value && Ready(code, s, r.state, h + [t.value], rest, end)
  {
    DecodeFirst(code, s, st.ans, st.pos, t, rest, end);
    DecodedIsLiteral(code, s, st, t);
    hide InFront, Read, Code.Valid, TokenSymbol, DecodeToken, AllEncodable;
  }

  /** After a length and a distance the copy is set up, in front of the remaining tokens. */
  lemma ReadCopyTokens(code: Code, s: seq<bool>, st: State, h: seq<nat>, a: Token, b: Token, rest: seq<Token>, end: nat)
    returns (first: ReadResult)
    requires code.Valid() && code.lz77 && AllEncodable(code, [a] + ([b] + rest))
    requires a.isLength && a.value + code.minLength < UINT32_LIMIT
    requires b.ctx == code.distanceContext && !b.isLength
    requires Ready(code, s, st, h, [a] + ([b] + rest), end)
    ensures AllEncodable(code, rest) && a.ctx < |code.tables|
    ensures first == ReadSymbol(code.tables[a.ctx], s, st.ans, st.pos) && first.value >= code.minSymbol
    ensures var copy := StartCopy(code, s, st, first);
            copy.count == a.value + code.minLength && copy.history == h &&
            copy.distance == ClampedDistance(code, b.value, |h|) &&
            InFront(code, s, copy.ans, copy.pos, rest, end)
  {
    LengthTokens(code, a, b, rest);
    hide InFront, StreamOf, StartCopy, TokenSymbol, DecodeToken, AllEncodable, ReadSymbol, ClampedDistance, Code.Valid,
         Table.Valid, Config.Valid, UnclampedDistance;
    DecodeFirst(code, s, st.ans, st.pos, a, [b] + rest, end);
    var da := DecodeToken(code, s, st.ans, st.pos, a);
    first := da.symbol;
    DecodedSymbol(code, s, st.ans, st.pos, a);
    DecodeFirst(code, s, da.symbol.ans, da.pos, b, rest, end);
    DecodedIsCopy(code, s, st, a, b);
  }

  lemma LengthTokens(code: Code, a: Token, b: Token, rest: seq<Token>)
    requires code.Valid() && code.lz77 && AllEncodable(code, [a] + ([b] + rest)) && a.isLength
    ensures a.ctx < |code.tables| == |code.configs| && code.distanceContext < |code.tables|
    ensures AllEncodable(code, [b] + rest) && AllEncodable(code, rest) && TokenSymbol(code, a) >= code.minSymbol
  {
    var ts := [a] + ([b] + rest);
    assert ts[0] == a && forall k | 0 <= k < |[b] + rest| :: ([b] + rest)[k] == ts[k + 1];
    assert forall k | 0 <= k < |rest| :: rest[k] == ([b] + rest)[k + 1];
    assert Encodable(code, ts[0]);
    hide Encodable, Encode, Table.Valid;
  }

  lemma DecodedSymbol(code: Code, s: seq<bool>, ans: nat, pos: nat, t: Token)
    requires code.Valid() && t.ctx < |code.tables|
    ensures DecodeToken(code, s, ans, pos, t).symbol == ReadSymbol(code.tables[t.ctx], s, ans, pos)
  {
  }

  /** The first read of a copy and all others come from the state that the two tokens set up. */
  lemma ReadManyCopies(code: Code, s: seq<bool>, st: State, first: ReadResult, ctxs: seq<nat>)
    requires code.Valid() && st.Valid(code) && st.count == 0 && code.lz77 && Contexts(code, ctxs) && ctxs != []
    requires first == ReadSymbol(code.tables[ctxs[0]], s, st.ans, st.pos) && first.value >= code.minSymbol
    requires StartCopy(code, s, st, first).count >= code.minLength
    ensures StartCopy(code, s, st, first).Valid(code)
    ensures ReadMany(code, s, st, ctxs) == ReadMany(code, s, StartCopy(code, s, st, first), ctxs)
  {
    hide ReadSymbol, HybridValue, RawBits, ClampedDistance, Table.Valid, Config.Valid;
    var copy := StartCopy(code, s, st, first);
    assert copy.Valid(code);
    assert Read(code, s, st, ctxs[0]) == Read(code, s, copy, ctxs[0]);
  }

  /** Reading one value per position of an item yields the item's values. */
  lemma ReadItem(code: Code, s: seq<bool>, st: State, h: seq<nat>, item: Item, rest: seq<Token>, end: nat)
    requires code.Valid() && st.Valid(code) && ItemOk(code, item)
    requires AllEncodable(code, ItemTokens(code, item) + rest)
    requires Ready(code, s, st, h, ItemTokens(code, item) + rest, end)
    ensures AllEncodable(code, rest) && Contexts(code, ItemContexts(item))
    ensures var r := ReadMany(code, s, st, ItemContexts(item));
            r.values == ItemValues(code, h, item) && Ready(code, s, r.state, h + r.values, rest, end)
  {
    match item
    case Plain(ctx, value) =>
      ReadLiteralItem(code, s, st, h, item, rest, end);
    case Copy(ctx, length, distanceCode) =>
      ReadCopyItem(code, s, st, h, item, rest, end);
  }

  lemma ReadLiteralItem(code: Code, s: seq<bool>, st: State, h: seq<nat>, item: Item, rest: seq<Token>, end: nat)
    requires code.Valid() && st.Valid(code) && item.Plain? && ItemOk(code, item)
    requires AllEncodable(code, ItemTokens(code, item) + rest)
    requires Ready(code, s, st, h, ItemTokens(code, item) + rest, end)
    ensures AllEncodable(code, rest) && Contexts(code, ItemContexts(item))
    ensures var r := ReadMany(code, s, st, ItemContexts(item));
            r.values == ItemValues(code, h, item) && Ready(code, s, r.state, h + r.values, rest, end)
  {
    var t := Token(item.ctx, item.value, false);
    assert ItemTokens(code, item) == [t] && t.ctx < |code.tables|;
    hide Ready, Read, Code.Valid, State.Valid, TokenSymbol, AllEncodable, Encodable;
    ReadLiteral(code, s, st, h, t, rest, end);
    ReadKeepsValid(code, s, st, t.ctx);
    var ctxs := ItemContexts(item);
    assert ctxs[0] == t.ctx && ctxs[1..] == [];
    assert ReadMany(code, s, st, ctxs).values == [t.value] + [];
    assert ReadMany(code, s, st, ctxs).values == [t.value];
  }

  lemma CopyItemParts(code: Code, item: Item, a: Token, b: Token, rest: seq<Token>)
    requires code.Valid() && item.Copy? && ItemOk(code, item)
    requires a == Token(item.ctx, item.length - code.minLength, true)
    requires b == Token(code.distanceContext, item.distanceCode, false)
    ensures ItemTokens(code, item) + rest == [a] + ([b] + rest)
    ensures Contexts(code, ItemContexts(item)) && |ItemContexts(item)| == item.length
    ensures item.ctx < |code.tables| && forall k | 0 <= k < item.length :: ItemContexts(item)[k] == item.ctx
  {
    hide Table.Valid, TokenSymbol;
  }

  lemma ReadCopyItem(code: Code, s: seq<bool>, st: State, h: seq<nat>, item: Item, rest: seq<Token>, end: nat)
    requires code.Valid() && st.Valid(code) && item.Copy? && ItemOk(code, item)
    requires AllEncodable(code, ItemTokens(code, item) + rest)
    requires Ready(code, s, st, h, ItemTokens(code, item) + rest, end)
    ensures AllEncodable(code, rest) && Contexts(code, ItemContexts(item))
    ensures var r := ReadMany(code, s, st, ItemContexts(item));
            r.values == ItemValues(code, h, item) && Ready(code, s, r.state, h + r.values, rest, end)
  {
    var a := Token(item.ctx, item.length - code.minLength, true);
    var b := Token(code.distanceContext, item.distanceCode, false);
    CopyItemParts(code, item, a, b, rest);
    var ctxs := ItemContexts(item);
    assert code.lz77 && 0 < code.minLength <= item.length < UINT32_LIMIT;
    hide Ready, AllEncodable, Encodable, Code.Valid, ItemContexts, ItemTokens, State.Valid, ClampedDistance, ReadMany;
    ReadCopyOf(code, s, st, h, a, b, ctxs, rest, end);
  }

  lemma ReadCopyOf(code: Code, s: seq<bool>, st: State, h: seq<nat>, a: Token, b: Token, ctxs: seq<nat>,
                   rest: seq<Token>, end: nat)
    requires code.Valid() && st.Valid(code) && code.lz77 && AllEncodable(code, [a] + ([b] + rest))
    requires a.isLength && b.ctx == code.distanceContext && !b.isLength && Contexts(code, ctxs)
    requires 0 < |ctxs| == a.value + code.minLength < UINT32_LIMIT && ctxs[0] == a.ctx
    requires Ready(code, s, st, h, [a] + ([b] + rest), end)
    ensures AllEncodable(code, rest)
    ensures var r := ReadMany(code, s, st, ctxs);
            r.values == CopyValues(h, ClampedDistance(code, b.value, |h|), |ctxs|) &&
            Ready(code, s, r.state, h + r.values, rest, end)
  {
    hide InFront, StreamOf, StartCopy, ReadMany, AllEncodable, Encodable, ReadSymbol, ClampedDistance, Code.Valid,
         State.Valid, Table.Valid, Config.Valid, CopyValues, Resolve, Contexts;
    var first := ReadCopyTokens(code, s, st, h, a, b, rest, end);
    var copy := StartCopy(code, s, st, first);
    ReadManyCopies(code, s, st, first, ctxs);
    CopyRun(code, s, copy, ctxs);
    var all := ReadMany(code, s, copy, ctxs).state.history;
    CopyValuesMatch(h, copy.distance, |ctxs|, all);
    assert all == h + all[|h|..];
  }

  lemma {:induction false} ReadManyConcat(code: Code, s: seq<bool>, st: State, a: seq<nat>, b: seq<nat>)
    requires code.Valid() && st.Valid(code) && Contexts(code, a) && Contexts(code, b)
    ensures Contexts(code, a + b)
    ensures var r := ReadMany(code, s, st, a);
            var r' := ReadMany(code, s, r.state, b);
            ReadMany(code, s, st, a + b) == Run(r'.state, r.values + r'.values)
    decreases |a|
  {
    hide Read, Code.Valid, State.Valid;
    if a == [] {
      assert a + b == b;
    } else {
      assert (a + b)[0] == a[0] && (a + b)[1..] == a[1..] + b;
      ReadKeepsValid(code, s, st, a[0]);
      ReadManyConcat(code, s, Read(code, s, st, a[0]).state, a[1..], b);
    }
  }

  /** Decoding the stream of any list of items returns the values that the items stand for, ends in
      the signature state and has read exactly the bits of the stream. */
  lemma {:induction false} ReadItems(code: Code, s: seq<bool>, st: State, h: seq<nat>, items: seq<Item>, end: nat)
    requires code.Valid() && st.Valid(code) && ItemsOk(code, items)
    requires Ready(code, s, st, h, Tokens(code, items), end)
    ensures Contexts(code, AllContexts(items))
    ensures var r := ReadMany(code, s, st, AllContexts(items));
            r.values == Values(code, h, items) &&
            r.state.ans == 0x13_0000 && r.state.pos == end && r.state.count == 0
    decreases |items|
  {
    hide Code.Valid, State.Valid, ItemOk, AllEncodable;
    if items != [] {
      var rest := items[1..];
      assert ItemOk(code, items[0]) && ItemsOk(code, rest);
      hide Ready, ItemTokens, ItemValues, ItemContexts;
      ReadItem(code, s, st, h, items[0], Tokens(code, rest), end);
      var r := ReadMany(code, s, st, ItemContexts(items[0]));
      ReadItems(code, s, r.state, h + r.values, rest, end);
      ReadManyConcat(code, s, st, ItemContexts(items[0]), AllContexts(rest));
    }
  }
}
