/** `WriteTokens` (lib/jxl/enc_ans.cc:1604-1664), ANS path, and the round trip through the symbol reader.

The encoder goes from the last token to the first and collects bits in 56-bit chunks, each of which
grows at its low end; the chunks are then written in reverse.
 */
module TokenWriting {
  import opened Bits
  import opened BitReading
  import opened BitWriting
  import opened AliasTable
  import opened Rans
  import opened HybridUint
  import opened SymbolSpec
  import opened SymbolReading
  import opened AnsEncoding
  import opened TokenStream
  import opened Sequences

  const MAX_BITS_PER_CALL: nat := 56

  datatype Chunk = Chunk(bits: nat, nbits: nat) {
    ghost predicate Valid() {
      nbits <= MAX_BITS_PER_CALL && bits < Pow2(nbits)
    }
  }

  /** The last chunk comes first. */
  function ChunkBits(out: seq<Chunk>): seq<bool> {
    if out == [] then [] else FromNat(out[|out| - 1].bits, out[|out| - 1].nbits) + ChunkBits(out[..|out| - 1])
  }

  lemma JoinInFront(hi: nat, lo: nat, m: nat, n: nat, rest: seq<bool>)
    requires lo < Pow2(n) && hi < Pow2(m)
    ensures Shl(hi, n) + lo < Pow2(m + n)
    ensures FromNat(Shl(hi, n) + lo, m + n) + rest == FromNat(lo, n) + (FromNat(hi, m) + rest)
  {
    FromNatJoin(hi, lo, m, n);
    ShlBelow(hi, m, n);
    hide FromNat;
    assert FromNat(lo, n) + (FromNat(hi, m) + rest) == (FromNat(lo, n) + FromNat(hi, m)) + rest;
  }

  /** The bits collected so far, in reverse. */
  class ReversedBits {
    var out: seq<Chunk>
    var allbits: nat
    var numallbits: nat

    ghost predicate Valid()
      reads this
    {
      Chunk(allbits, numallbits).Valid() && forall k | 0 <= k < |out| :: out[k].Valid()
    }

    ghost function Contents(): seq<bool>
      reads this
    {
      FromNat(allbits, numallbits) + ChunkBits(out)
    }

    constructor ()
      ensures Valid() && Contents() == []
    {
      out, allbits, numallbits := [], 0, 0;
    }

    /** `addbits`: puts `nbits` bits in front of everything. */
    method AddBits(bits: nat, nbits: nat)
      requires Valid() && nbits <= MAX_BITS_PER_CALL && bits < Pow2(nbits)
      modifies this
      ensures Valid() && Contents() == FromNat(bits, nbits) + old(Contents())
    {
      if nbits == 0 {
        return;
      }
      hide ChunkBits, FromNat, Pow2, Shl;
      if numallbits + nbits > MAX_BITS_PER_CALL {
        StartChunk();
      }
      JoinInFront(allbits, bits, numallbits, nbits, ChunkBits(out));
      allbits := Shl(allbits, nbits) + bits;
      numallbits := numallbits + nbits;
    }

    method StartChunk()
      requires Valid()
      modifies this
      ensures Valid() && Contents() == old(Contents()) && numallbits == 0
    {
      PushChunk(out, Chunk(allbits, numallbits));
      out := out + [Chunk(allbits, numallbits)];
      allbits, numallbits := 0, 0;
    }

    /** The current chunk, then the full ones from the last to the first. */
    method WriteTo(writer: BitWriter)
      requires Valid() && writer.Valid()
      modifies writer
      ensures writer.Valid() && writer.Contents() == old(writer.Contents()) + Contents()
    {
      assert forall k | 0 <= k < |out| :: out[k].nbits <= MAX_BITS_PER_CALL && out[k].bits < Pow2(out[k].nbits);
      hide FromNat, BitWriter.Valid, BitWriter.Contents, ChunkBits, Pow2, Chunk.Valid;
      ghost var start := writer.Contents();
      writer.Write(numallbits, allbits);
      assert out[..|out|] == out;
      Associative(start, FromNat(allbits, numallbits), ChunkBits(out));
      for i := |out| downto 0
        invariant writer.Valid()
        invariant writer.Contents() + ChunkBits(out[..i]) == start + (FromNat(allbits, numallbits) + ChunkBits(out))
      {
        LastChunk(out, i);
        ghost var before := writer.Contents();
        writer.Write(out[i].nbits, out[i].bits);
        Associative(before, FromNat(out[i].bits, out[i].nbits), ChunkBits(out[..i]));
      }
      assert out[..0] == [] && ChunkBits([]) == [];
    }
  }

  lemma LastChunk(out: seq<Chunk>, i: nat)
    requires i < |out|
    ensures ChunkBits(out[..i + 1]) == FromNat(out[i].bits, out[i].nbits) + ChunkBits(out[..i])
  {
    assert out[..i + 1][..i] == out[..i];
  }

  lemma PushChunk(out: seq<Chunk>, c: Chunk)
    ensures ChunkBits(out + [c]) == FromNat(c.bits, c.nbits) + ChunkBits(out)
    ensures FromNat(0, 0) + ChunkBits(out + [c]) == FromNat(c.bits, c.nbits) + ChunkBits(out)
  {
    assert (out + [c])[..|out|] == out;
  }

  /** One symbol info per clustered context and symbol. */
  ghost predicate InfosFor(infos: seq<seq<SymbolInfo>>, code: Code) {
    && |infos| == |code.tables|
    && forall c: nat | c < |infos| ::
         |infos[c]| == |code.tables[c].d| && forall s: nat | s < |infos[c]| :: InfoFor(infos[c][s], code.tables[c], s)
  }

  lemma InfoOf(infos: seq<seq<SymbolInfo>>, code: Code, t: Token)
    requires code.Valid() && InfosFor(infos, code) && Encodable(code, t)
    ensures t.ctx < |infos| && TokenSymbol(code, t) < |infos[t.ctx]|
    ensures var s := TokenSymbol(code, t);
            InfoFor(infos[t.ctx][s], code.tables[t.ctx], s) && infos[t.ctx][s].freq > 0
  {
    hide Encode, InfoFor, Table.Valid;
    assert InfoFor(infos[t.ctx][TokenSymbol(code, t)], code.tables[t.ctx], TokenSymbol(code, t));
    InfoFreq(infos[t.ctx][TokenSymbol(code, t)], code.tables[t.ctx], TokenSymbol(code, t));
  }

  lemma InfoFreq(info: SymbolInfo, t: ValidTable, s: nat)
    requires InfoFor(info, t, s)
    ensures info.freq == Freq(t.d, s)
  {
  }

  /** The raw bits of a token fit one call. */
  lemma TokenBits(code: Code, t: Token)
    requires code.Valid() && Encodable(code, t)
    ensures t.ctx < |code.configs| && TokenConfig(code, t).Valid()
    ensures var e := Encode(TokenConfig(code, t), t.value); e.nbits < 32 && e.bits < Pow2(e.nbits)
  {
    hide Table.Valid, Freq;
    DecodeEncode(TokenConfig(code, t), t.value);
  }

  /** Writes the final state of the coder and all tokens. */
  method WriteTokens(writer: BitWriter, code: Code, infos: seq<seq<SymbolInfo>>, tokens: seq<Token>)
    requires writer.Valid() && code.Valid() && InfosFor(infos, code) && AllEncodable(code, tokens)
    modifies writer
    ensures writer.Valid()
    ensures IsNormalized(StreamOf(code, tokens).state)
    ensures writer.Contents() == old(writer.Contents()) + FromNat(StreamOf(code, tokens).state, 32)
                                 + StreamOf(code, tokens).bits
  {
    hide FromNat, StreamOf, BitWriter.Valid, BitWriter.Contents, ReversedBits.Valid, ReversedBits.Contents,
         AllEncodable, InfosFor, Code.Valid, IsNormalized;
    var pending := new ReversedBits();
    var ans := new ANSCoder();
    StreamEnd(code, tokens);
    for i := |tokens| downto 0
      invariant fresh(pending) && fresh(ans) && unchanged(writer) && pending.Valid()
      invariant AllEncodable(code, tokens[i..]) && IsNormalized(ans.state)
      invariant ans.state == StreamOf(code, tokens[i..]).state
      invariant pending.Contents() == StreamOf(code, tokens[i..]).bits
    {
      SuffixStep(code, tokens, i);
      PrependToken(code, infos, tokens[i], pending, ans, StreamOf(code, tokens[i + 1..]));
    }
    assert tokens[0..] == tokens;
    StateFits(ans.state);
    writer.Write(32, ans.state);
    pending.WriteTo(writer);
  }

  lemma StateFits(state: nat)
    requires IsNormalized(state)
    ensures state < Pow2(32)
  {
    Pow2Large();
  }

  lemma StreamEnd(code: Code, tokens: seq<Token>)
    requires code.Valid()
    ensures AllEncodable(code, tokens[|tokens|..])
    ensures StreamOf(code, tokens[|tokens|..]) == Coded(FINAL_STATE, [])
    ensures IsNormalized(FINAL_STATE)
  {
  }

  lemma SuffixStep(code: Code, tokens: seq<Token>, i: nat)
    requires code.Valid() && AllEncodable(code, tokens) && i < |tokens|
    ensures AllEncodable(code, tokens[i..]) && AllEncodable(code, tokens[i + 1..]) && Encodable(code, tokens[i])
    ensures StreamOf(code, tokens[i..]) == Prepend(code, tokens[i], StreamOf(code, tokens[i + 1..]))
    ensures IsNormalized(StreamOf(code, tokens[i..]).state)
  {
    hide Encodable, Code.Valid, Prepend, IsNormalized;
    assert tokens[i..] == [tokens[i]] + tokens[i + 1..];
    StreamCons(code, tokens[i], tokens[i + 1..]);
    StreamIsNormalized(code, tokens[i..]);
  }

  /** One step of the loop: raw bits first, as everything is reversed, then the symbol. */
  method PrependToken(code: Code, infos: seq<seq<SymbolInfo>>, t: Token, pending: ReversedBits, ans: ANSCoder,
                      ghost rest: Coded)
    requires code.Valid() && InfosFor(infos, code) && Encodable(code, t)
    requires pending.Valid() && IsNormalized(ans.state) && Coded(ans.state, pending.Contents()) == rest
    modifies pending, ans
    ensures pending.Valid() && Coded(ans.state, pending.Contents()) == Prepend(code, t, rest)
  {
    TokenBits(code, t);
    InfoOf(infos, code, t);
    var encoded := Encode(TokenConfig(code, t), t.value);
    var tok := encoded.token + if t.isLength then code.minSymbol else 0;
    assert tok == TokenSymbol(code, t);
    assert Freq(code.tables[t.ctx].d, tok) > 0;
    hide InfosFor, InfoFor, ReversedBits.Contents, ReversedBits.Valid, PutState, PutWords, Code.Valid, Encode,
         Encodable, TokenSymbol, TokenConfig, FromNat, WordBits, IsNormalized, Freq, Table.Valid, Pow2;
    AddToken(infos[t.ctx][tok], pending, ans, encoded.bits, encoded.nbits, code.tables[t.ctx], tok);
  }

  method AddToken(info: SymbolInfo, pending: ReversedBits, ans: ANSCoder, bits: nat, nbits: nat,
                  ghost t: ValidTable, ghost s: nat)
    requires InfoFor(info, t, s) && info.freq > 0 && Freq(t.d, s) > 0 && nbits < 32 && bits < Pow2(nbits)
    requires pending.Valid() && IsNormalized(ans.state)
    modifies pending, ans
    ensures pending.Valid() && ans.state == PutState(t, s, old(ans.state))
    ensures pending.Contents() == WordBits(PutWords(t, s, old(ans.state))) + FromNat(bits, nbits)
                                  + old(pending.Contents())
  {
    hide InfoFor, ReversedBits.Contents, ReversedBits.Valid, PutState, PutWords, FromNat, WordBits, IsNormalized,
         Freq, Table.Valid, Pow2;
    ghost var words, before := PutWords(t, s, ans.state), pending.Contents();
    pending.AddBits(bits, nbits);
    var ansBits, ansNbits := ans.PutSymbol(info, t, s);
    OneWord(words, ansBits, ansNbits);
    pending.AddBits(ansBits, ansNbits);
    assert WordBits(words) + (FromNat(bits, nbits) + before) == WordBits(words) + FromNat(bits, nbits) + before;
  }

  lemma OneWord(words: seq<nat>, bits: nat, nbits: nat)
    requires nbits == 16 * |words| && (nbits == 0 ==> bits == 0) && (nbits > 0 ==> words == [bits] && bits < WORD_LIMIT)
    ensures nbits <= 16 && bits < Pow2(nbits) && WordBits(words) == FromNat(bits, nbits)
  {
    Pow2Small();
    hide FromNat;
    if words != [] {
      assert WordBits(words) == FromNat(bits, 16) + WordBits([]);
    } else {
      assert FromNat(bits, 0) == [];
    }
  }

  // ----- the round trip -----

  lemma HeldParts(s: seq<bool>, state: nat, bits: seq<bool>, padding: seq<bool>)
    requires s == FromNat(state, 32) + bits + padding && state < Pow2(32)
    ensures NumberAt(s, 0, 32) == state && HoldsAt(s, 32, bits)
  {
    hide FromNat, NumberAt;
    assert s[0..32] == FromNat(state, 32);
    HeldNumber(s, 0, state, 32);
    assert s[32..32 + |bits|] == bits;
  }

  /** The state that the constructor of the symbol reader sets up. */
  function InitialState(s: seq<bool>): State {
    State(NumberAt(s, 0, 32), 32, [], 0, 0)
  }

  /** Decoding from the first bit of a written stream. */
  lemma ReadFromStart(code: Code, items: seq<Item>, s: seq<bool>, padding: seq<bool>)
    requires code.Valid() && ItemsOk(code, items) && IsNormalized(StreamOf(code, Tokens(code, items)).state)
    requires var stream := StreamOf(code, Tokens(code, items));
             s == FromNat(stream.state, 32) + stream.bits + padding
    ensures InitialState(s).Valid(code) && Contexts(code, AllContexts(items))
    ensures var r := ReadMany(code, s, InitialState(s), AllContexts(items));
            r.values == Values(code, [], items) && r.state.ans == FINAL_STATE &&
            r.state.pos == |s| - |padding|
  {
    var stream := StreamOf(code, Tokens(code, items));
    StateFits(stream.state);
    hide FromNat, StreamOf, Tokens, NumberAt, Code.Valid, ItemsOk, AllEncodable, ReadMany, Values, AllContexts;
    HeldParts(s, stream.state, stream.bits, padding);
    ReadItems(code, s, InitialState(s), [], items, 32 + |stream.bits|);
  }

  /** Items are encoded back to front and written; a reader over the padded bytes decodes the values
      they stand for, reads no bit past the end and passes the final state check. */
  method EncodeThenDecode(code: Code, infos: seq<seq<SymbolInfo>>, items: seq<Item>)
    returns (values: seq<nat>, finalStateOk: bool, withinBounds: bool)
    requires code.Valid() && InfosFor(infos, code) && ItemsOk(code, items)
    requires |AllContexts(items)| < UINT32_LIMIT
    ensures values == Values(code, [], items) && finalStateOk && withinBounds
  {
    var bytes := Encoded(code, infos, items);
    hide FromNat, StreamOf, Tokens, NumberAt, ItemsOk, AllEncodable, Values, AllContexts, ReadMany, Buffered,
         Ready, Code.Valid, SymbolReader.WindowValid, InfosFor, Read, ToBits;
    var br := new BitReader(bytes);
    var reader := new SymbolReader(code, br);
    assert reader.Abs(br.Position()) == InitialState(ToBits(bytes));
    values := reader.ReadHybridUints(AllContexts(items), br);
    finalStateOk := reader.CheckANSFinalState();
    withinBounds := br.AllReadsWithinBounds();
  }

  /** The bytes of a token stream, padded. */
  method Encoded(code: Code, infos: seq<seq<SymbolInfo>>, items: seq<Item>) returns (bytes: seq<Byte>)
    requires code.Valid() && InfosFor(infos, code) && ItemsOk(code, items)
    ensures InitialState(ToBits(bytes)).Valid(code) && Contexts(code, AllContexts(items))
    ensures var r := ReadMany(code, ToBits(bytes), InitialState(ToBits(bytes)), AllContexts(items));
            r.values == Values(code, [], items) && r.state.ans == FINAL_STATE &&
            r.state.pos <= |ToBits(bytes)| < r.state.pos + 8
  {
    hide FromNat, StreamOf, Tokens, NumberAt, ItemsOk, AllEncodable, BitWriter.Contents, Values, AllContexts,
         ReadMany, Code.Valid, InfosFor, InitialState, ToBits, IsNormalized, Contexts, State.Valid;
    var writer := new BitWriter();
    WriteTokens(writer, code, infos, Tokens(code, items));
    ghost var written := writer.Contents();
    ghost var stream := StreamOf(code, Tokens(code, items));
    assert written == FromNat(stream.state, 32) + stream.bits;
    writer.ZeroPadToByte();
    bytes := writer.data[..writer.bytesWritten];
    ReadFromStart(code, items, ToBits(bytes), Zeros(Padding(|written|)));
  }
}
