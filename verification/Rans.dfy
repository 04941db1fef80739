/** The rANS state machine (lib/jxl/dec_ans.h:189-216) and its inverse (lib/jxl/enc_ans.h:58-76).

A decoding step looks up the low 12 bits of the 32-bit state in an alias table and pulls in a
16-bit word when the state drops below 2^16. Over whole runs, the decoder and the encoder are
exact inverses: every sequence of symbols has exactly one initial state and word sequence.
 */
module Rans {
  import opened Bits
  import opened AliasTable

  const STATE_LIMIT: nat := 0x1_0000_0000
  const WORD_LIMIT: nat := 0x1_0000
  /** `ANS_SIGNATURE << 16`, the state a well-formed stream ends in. */
  const FINAL_STATE: nat := 0x13_0000

  /** An alias table with the distribution it was built for. */
  datatype Table = Table(d: seq<nat>, entries: seq<Entry>, entrySize: nat) {
    /** What `InitAliasTable` establishes. */
    ghost predicate Valid() {
      && IsAliasTable(d, entries, entrySize) && (forall s | 0 <= s < |d| :: d[s] <= ANS_TAB_SIZE)
      && (forall sym: nat | Freq(d, sym) == ANS_TAB_SIZE :: IsIdentityTable(entries, entrySize, sym))
    }
  }

  type ValidTable = t: Table | t.Valid() ghost witness ExampleTable()

  lemma ExampleIsIdentity()
    ensures IsIdentityTable([Entry(0, 0, 0, 0, ANS_TAB_SIZE)], ANS_TAB_SIZE, 0)
    ensures IsAliasTable([ANS_TAB_SIZE], [Entry(0, 0, 0, 0, ANS_TAB_SIZE)], ANS_TAB_SIZE)
  {
    var a := [Entry(0, 0, 0, 0, ANS_TAB_SIZE)];
    IdentityIsIdentity(a, ANS_TAB_SIZE, 0);
    IdentityIsAliasTable([ANS_TAB_SIZE], a, ANS_TAB_SIZE, 0);
  }

  ghost function ExampleTable(): (t: Table)
    ensures t.Valid()
  {
    ExampleIsIdentity();
    Table([ANS_TAB_SIZE], [Entry(0, 0, 0, 0, ANS_TAB_SIZE)], ANS_TAB_SIZE)
  }

  predicate IsNormalized(state: nat) {
    WORD_LIMIT <= state < STATE_LIMIT
  }

  // ----- one step -----

  function Resolve(t: ValidTable, state: nat): (r: Symbol)
    ensures IsSlot(t.d, r.value, r.offset) && r.freq == Freq(t.d, r.value) <= ANS_TAB_SIZE
  {
    Lookup(t.entries, state % ANS_TAB_SIZE, t.entrySize)
  }

  /** The state before renormalization, in 32-bit arithmetic. */
  function Advance(t: ValidTable, state: nat): nat {
    var symbol := Resolve(t, state);
    (symbol.freq * (state / ANS_TAB_SIZE) + symbol.offset) % STATE_LIMIT
  }

  predicate NeedsWord(t: ValidTable, state: nat) {
    Advance(t, state) < WORD_LIMIT
  }

  function NextState(t: ValidTable, state: nat, word: nat): nat {
    if NeedsWord(t, state) then Advance(t, state) * WORD_LIMIT + word else Advance(t, state)
  }

  lemma AdvanceDoesNotWrap(t: ValidTable, state: nat)
    requires state < STATE_LIMIT
    ensures var r := Resolve(t, state);
            Advance(t, state) == r.freq * (state / ANS_TAB_SIZE) + r.offset
    ensures var r := Resolve(t, state);
            Advance(t, state) / r.freq == state / ANS_TAB_SIZE && Advance(t, state) % r.freq == r.offset
  {
    var r := Resolve(t, state);
    var high := state / ANS_TAB_SIZE;
    assert high <= 0xF_FFFF;
    MulUpTo(r.freq, ANS_TAB_SIZE, high, 0xF_FFFF);
    DivModUnique(r.freq * high + r.offset, r.freq, high, r.offset);
    ModSmall(r.freq * high + r.offset, STATE_LIMIT);
  }

  /** Normalized states stay normalized: a run never leaves [2^16, 2^32). */
  lemma StepStaysNormalized(t: ValidTable, state: nat, word: nat)
    requires IsNormalized(state) && word < WORD_LIMIT
    ensures IsNormalized(NextState(t, state, word))
    ensures Advance(t, state) >= 16 * Resolve(t, state).freq
  {
    AdvanceDoesNotWrap(t, state);
    MulUpTo(16, state / ANS_TAB_SIZE, Resolve(t, state).freq, Resolve(t, state).freq);
  }

  /** The encoder's inverse of `Resolve`: the table position that maps to slot `o` of symbol `s`. */
  ghost function Slot(t: ValidTable, s: nat, o: nat): (v: nat)
    requires IsSlot(t.d, s, o)
    ensures v < ANS_TAB_SIZE && LooksUp(t.entries, t.entrySize, v, s, o)
  {
    var v: nat :| v < ANS_TAB_SIZE && LooksUp(t.entries, t.entrySize, v, s, o);
    v
  }

  lemma SlotOfPosition(t: ValidTable, v: nat)
    requires v < ANS_TAB_SIZE
    ensures var r := Lookup(t.entries, v, t.entrySize);
            Slot(t, r.value, r.offset) == v
  {
    var r := Lookup(t.entries, v, t.entrySize);
    assert LooksUp(t.entries, t.entrySize, v, r.value, r.offset);
  }

  lemma SlotOfState(t: ValidTable, state: nat)
    ensures Slot(t, Resolve(t, state).value, Resolve(t, state).offset) == state % ANS_TAB_SIZE
  {
    SlotOfPosition(t, state % ANS_TAB_SIZE);
  }

  /** The words and the state that the encoder produces when it puts `s` in front of a stream
      that starts in `state`. */
  ghost function PutWords(t: ValidTable, s: nat, state: nat): seq<nat> {
    if state / 0x10_0000 >= Freq(t.d, s) then [state % WORD_LIMIT] else []
  }

  ghost function PutState(t: ValidTable, s: nat, state: nat): nat
    requires Freq(t.d, s) > 0
  {
    Requeue(t, s, if state / 0x10_0000 >= Freq(t.d, s) then state / WORD_LIMIT else state)
  }

  ghost function Requeue(t: ValidTable, s: nat, y: nat): nat
    requires Freq(t.d, s) > 0
  {
    var f := Freq(t.d, s);
    DivMod(y, f);
    y / f * ANS_TAB_SIZE + Slot(t, s, y % f)
  }

  lemma AdvanceBelow(t: ValidTable, state: nat)
    requires state < STATE_LIMIT
    ensures Advance(t, state) < Resolve(t, state).freq * 0x10_0000
  {
    var r := Resolve(t, state);
    AdvanceDoesNotWrap(t, state);
    MulUpTo(state / ANS_TAB_SIZE + 1, 0x10_0000, r.freq, r.freq);
    assert (state / ANS_TAB_SIZE + 1) * r.freq == r.freq * (state / ANS_TAB_SIZE) + r.freq;
  }

  /** The encoder's state from the quotient and the remainder. */
  lemma PutStateFrom(t: ValidTable, s: nat, next: nat, y: nat, q: nat, r: nat)
    requires Freq(t.d, s) > 0 && y / Freq(t.d, s) == q && y % Freq(t.d, s) == r
    requires y == if next / 0x10_0000 >= Freq(t.d, s) then next / WORD_LIMIT else next
    ensures r < Freq(t.d, s) && PutState(t, s, next) == q * ANS_TAB_SIZE + Slot(t, s, r)
  {
    DivMod(y, Freq(t.d, s));
  }

  /** Decoding a step and re-encoding its symbol gives the state and the word back. */
  lemma PutUndoesStep(t: ValidTable, state: nat, word: nat)
    requires IsNormalized(state) && word < WORD_LIMIT
    ensures var s := Resolve(t, state).value;
            var next := NextState(t, state, word);
            Freq(t.d, s) > 0 && PutState(t, s, next) == state &&
            PutWords(t, s, next) == if NeedsWord(t, state) then [word] else []
  {
    var s, f, o := Resolve(t, state).value, Resolve(t, state).freq, Resolve(t, state).offset;
    var y := Advance(t, state);
    var next := NextState(t, state, word);
    AdvanceDoesNotWrap(t, state);
    AdvanceBelow(t, state);
    StepStaysNormalized(t, state, word);
    SlotOfState(t, state);
    assert Slot(t, s, o) == state % ANS_TAB_SIZE && Freq(t.d, s) == f;
    hide Resolve, Slot, Table.Valid, Lookup, Freq;
    QuotientIffBelow(next, f, 0x10_0000);
    assert y == if next / 0x10_0000 >= f then next / WORD_LIMIT else next;
    PutStateFrom(t, s, next, y, state / ANS_TAB_SIZE, o);
  }

  /** The encoder's state splits into the quotient and the slot of the remainder. */
  lemma PutStateParts(t: ValidTable, s: nat, next: nat)
    requires IsNormalized(next) && Freq(t.d, s) > 0
    ensures var f := Freq(t.d, s);
            var y := if next / 0x10_0000 >= f then next / WORD_LIMIT else next;
            var state := PutState(t, s, next);
            y / f >= 0 && 0 <= y % f < f &&
            IsNormalized(state) && state / ANS_TAB_SIZE == y / f && state % ANS_TAB_SIZE == Slot(t, s, y % f)
  {
    var f := Freq(t.d, s);
    var y := if next / 0x10_0000 >= f then next / WORD_LIMIT else next;
    QuotientIffBelow(next, f, 0x10_0000);
    QuotientAtLeast(y, f, 16);
    IndexInRange(y, f, 0x10_0000);
    DivMod(y, f);
    DivModUnique(PutState(t, s, next), ANS_TAB_SIZE, y / f, Slot(t, s, y % f));
  }

  lemma AdvanceOfParts(t: ValidTable, s: nat, q: nat, r: nat, state: nat)
    requires IsSlot(t.d, s, r) && state < STATE_LIMIT
    requires state / ANS_TAB_SIZE == q && state % ANS_TAB_SIZE == Slot(t, s, r)
    ensures Resolve(t, state).value == s && Advance(t, state) == Freq(t.d, s) * q + r
  {
    AdvanceDoesNotWrap(t, state);
  }

  /** Decoding right after encoding: the other direction. */
  lemma StepUndoesPut(t: ValidTable, s: nat, next: nat)
    requires IsNormalized(next) && Freq(t.d, s) > 0
    ensures var state := PutState(t, s, next);
            var words := PutWords(t, s, next);
            IsNormalized(state) && Resolve(t, state).value == s &&
            NeedsWord(t, state) == (words != []) &&
            NextState(t, state, if words == [] then 0 else words[0]) == next
  {
    var f := Freq(t.d, s);
    var y := if next / 0x10_0000 >= f then next / WORD_LIMIT else next;
    var state := PutState(t, s, next);
    PutStateParts(t, s, next);
    AdvanceOfParts(t, s, y / f, y % f, state);
    DivMod(y, f);
  }

  /** A single-symbol table does not change a normalized state and needs no word. */
  lemma IdentityStep(t: ValidTable, sym: nat, state: nat, word: nat)
    requires IsIdentityTable(t.entries, t.entrySize, sym) && IsNormalized(state)
    ensures Resolve(t, state) == Symbol(sym, state % ANS_TAB_SIZE, ANS_TAB_SIZE)
    ensures !NeedsWord(t, state) && NextState(t, state, word) == state
  {
    AdvanceDoesNotWrap(t, state);
  }

  // ----- whole runs -----

  datatype Outcome = Outcome(symbols: seq<nat>, state: nat, consumed: nat)

  /** Symbols decoded with one table each; words past the end read as zero. */
  function DecodeRun(ts: seq<ValidTable>, state: nat, words: seq<nat>): (r: Outcome)
    ensures |r.symbols| == |ts|
  {
    if ts == [] then Outcome([], state, 0)
    else
      var needs := NeedsWord(ts[0], state);
      var word := if words == [] then 0 else words[0];
      var rest := if needs && words != [] then words[1..] else words;
      var tail := DecodeRun(ts[1..], NextState(ts[0], state, word), rest);
      Outcome([Resolve(ts[0], state).value] + tail.symbols, tail.state,
              tail.consumed + if needs then 1 else 0)
  }

  ghost predicate Occurs(ts: seq<ValidTable>, symbols: seq<nat>) {
    |ts| == |symbols| && forall k | 0 <= k < |ts| :: Freq(ts[k].d, symbols[k]) > 0
  }

  /** The stream (initial state, words) decodes to `symbols`, uses exactly its words and ends in `final`. */
  ghost predicate Accepts(ts: seq<ValidTable>, symbols: seq<nat>, final: nat, state: nat, words: seq<nat>) {
    && IsNormalized(state) && (forall k | 0 <= k < |words| :: words[k] < WORD_LIMIT)
    && DecodeRun(ts, state, words) == Outcome(symbols, final, |words|)
  }

  /** What the encoder writes, last symbol first. */
  ghost function EncodeRun(ts: seq<ValidTable>, symbols: seq<nat>, final: nat): (nat, seq<nat>)
    requires Occurs(ts, symbols)
  {
    if ts == [] then (final, [])
    else
      var (state, words) := EncodeRun(ts[1..], symbols[1..], final);
      (PutState(ts[0], symbols[0], state), PutWords(ts[0], symbols[0], state) + words)
  }

  /** Putting one more step in front of an accepted stream. */
  lemma AcceptedCons(ts: seq<ValidTable>, symbols: seq<nat>, final: nat, state: nat, emitted: seq<nat>,
                     next: nat, rest: seq<nat>)
    requires ts != [] && |symbols| == |ts| && Accepts(ts[1..], symbols[1..], final, next, rest)
    requires IsNormalized(state) && Resolve(ts[0], state).value == symbols[0]
    requires |emitted| <= 1 && NeedsWord(ts[0], state) == (emitted != [])
    requires emitted != [] ==> emitted[0] < WORD_LIMIT
    requires next == NextState(ts[0], state, if emitted == [] then 0 else emitted[0])
    ensures Accepts(ts, symbols, final, state, emitted + rest)
  {
    var words := emitted + rest;
    hide Resolve, Table.Valid, Lookup;
    assert emitted == [] ==> words == rest;
    assert emitted != [] ==> words[1..] == rest && words[0] == emitted[0];
    assert symbols == [symbols[0]] + symbols[1..];
  }

  /** Every encoding is accepted. */
  lemma {:induction false} EncodeIsAccepted(ts: seq<ValidTable>, symbols: seq<nat>, final: nat)
    requires Occurs(ts, symbols) && IsNormalized(final)
    ensures Accepts(ts, symbols, final, EncodeRun(ts, symbols, final).0, EncodeRun(ts, symbols, final).1)
  {
    hide Table.Valid, Accepts;
    if ts != [] {
      EncodeIsAccepted(ts[1..], symbols[1..], final);
      var (next, rest) := EncodeRun(ts[1..], symbols[1..], final);
      AcceptedState(ts[1..], symbols[1..], final, next, rest);
      StepUndoesPut(ts[0], symbols[0], next);
      AcceptedCons(ts, symbols, final, PutState(ts[0], symbols[0], next), PutWords(ts[0], symbols[0], next),
                   next, rest);
    } else {
      AcceptedNil(final);
    }
  }

  lemma AcceptedState(ts: seq<ValidTable>, symbols: seq<nat>, final: nat, state: nat, words: seq<nat>)
    requires Accepts(ts, symbols, final, state, words)
    ensures IsNormalized(state)
  {
  }

  lemma AcceptedNil(final: nat)
    requires IsNormalized(final)
    ensures Accepts([], [], final, final, [])
  {
  }

  /** The rest of an accepted stream is accepted, and the first step is undone by the encoder. */
  lemma AcceptedStep(ts: seq<ValidTable>, symbols: seq<nat>, final: nat, state: nat, words: seq<nat>)
    returns (next: nat, rest: seq<nat>)
    requires Accepts(ts, symbols, final, state, words) && ts != []
    ensures |symbols| == |ts| && Freq(ts[0].d, symbols[0]) > 0
    ensures Accepts(ts[1..], symbols[1..], final, next, rest)
    ensures state == PutState(ts[0], symbols[0], next) && words == PutWords(ts[0], symbols[0], next) + rest
  {
    var needs := NeedsWord(ts[0], state);
    assert needs ==> words != [];
    var word := if words == [] then 0 else words[0];
    rest := if needs then words[1..] else words;
    next := NextState(ts[0], state, word);
    StepStaysNormalized(ts[0], state, word);
    PutUndoesStep(ts[0], state, word);
    assert symbols[0] == Resolve(ts[0], state).value;
    assert DecodeRun(ts, state, words).symbols[1..] == DecodeRun(ts[1..], next, rest).symbols;
    assert words == (if needs then [word] else []) + rest;
  }

  /** Only the encoding is accepted. */
  lemma {:induction false} AcceptedIsEncode(ts: seq<ValidTable>, symbols: seq<nat>, final: nat, state: nat,
                                            words: seq<nat>)
    requires Accepts(ts, symbols, final, state, words)
    ensures Occurs(ts, symbols) && IsNormalized(final)
    ensures (state, words) == EncodeRun(ts, symbols, final)
    decreases |ts|
  {
    if ts != [] {
      var next, rest := AcceptedStep(ts, symbols, final, state, words);
      AcceptedIsEncode(ts[1..], symbols[1..], final, next, rest);
      assert forall k | 1 <= k < |ts| :: ts[k] == ts[1..][k - 1] && symbols[k] == symbols[1..][k - 1];
    }
  }

  /** rANS is uniquely invertible over whole runs: for every sequence of tables and symbols that
      occur in them, exactly one normalized state and word sequence is accepted. */
  lemma UniqueStream(ts: seq<ValidTable>, symbols: seq<nat>, state: nat, words: seq<nat>)
    requires Occurs(ts, symbols)
    ensures Accepts(ts, symbols, 0x13_0000, state, words) <==>
            (state, words) == EncodeRun(ts, symbols, 0x13_0000)
  {
    EncodeIsAccepted(ts, symbols, FINAL_STATE);
    if Accepts(ts, symbols, FINAL_STATE, state, words) {
      AcceptedIsEncode(ts, symbols, FINAL_STATE, state, words);
    }
  }

  /** Whatever the words, a run from a normalized state stays normalized and only ever yields
      symbols that occur. */
  lemma {:induction false} RunStaysNormalized(ts: seq<ValidTable>, state: nat, words: seq<nat>)
    requires IsNormalized(state) && forall k | 0 <= k < |words| :: words[k] < WORD_LIMIT
    ensures IsNormalized(DecodeRun(ts, state, words).state)
    ensures Occurs(ts, DecodeRun(ts, state, words).symbols)
  {
    if ts != [] {
      var word := if words == [] then 0 else words[0];
      var rest := if NeedsWord(ts[0], state) && words != [] then words[1..] else words;
      StepStaysNormalized(ts[0], state, word);
      RunStaysNormalized(ts[1..], NextState(ts[0], state, word), rest);
      assert forall k | 1 <= k < |ts| :: ts[k] == ts[1..][k - 1];
    }
  }
}
