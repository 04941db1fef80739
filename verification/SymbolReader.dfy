/** `ANSSymbolReader` (lib/jxl/dec_ans.h:151-449), ANS path: the fields it updates, the window it
writes in place, and its refinement of `SymbolSpec.Read`.
 */
module SymbolReading {
  import opened Bits
  import opened BitReading
  import opened AliasTable
  import opened Rans
  import opened HybridUint
  import opened History
  import opened SymbolSpec
  import opened Sequences

  datatype Checkpoint = Checkpoint(
    state: nat, numToCopy: nat, copyPos: nat, numDecoded: nat, window: seq<nat>)

  /** The abstract state and the window at the time of a `Save`. */
  datatype Snapshot = Snapshot(state: State, window: seq<nat>)

  /** The checkpoint holds this snapshot: all counters, and the 512 window entries that the next
      512 values may overwrite. */
  ghost predicate Holds(cp: Checkpoint, snap: Snapshot, code: Code) {
    var st := snap.state;
    && st.Valid(code) && cp.state == st.ans && cp.numToCopy == st.count && cp.numDecoded == |st.history|
    && (code.lz77 ==>
          && Shows(snap.window, st.history) && Saved(snap.window, |st.history|, cp.window)
          && (st.count > 0 ==> cp.copyPos + st.distance == |st.history|)
          && (st.count > 0 && st.distance == 0 ==> ZeroAhead(snap.window, |st.history|, st.count)))
  }

  lemma RestoredWindow(cp: Checkpoint, snap: Snapshot, code: Code, w: seq<nat>, st: State)
    requires Holds(cp, snap, code) && code.lz77 && Follows(snap.state, st)
    requires Shows(w, st.history)
    requires st.count > 0 && st.distance == 0 ==> ZeroAhead(w, |st.history|, st.count)
    ensures var w' := Restored(w, cp.numDecoded, cp.window);
            Shows(w', snap.state.history) &&
            (snap.state.count > 0 && snap.state.distance == 0 ==>
               ZeroAhead(w', cp.numDecoded, snap.state.count))
  {
    var st0 := snap.state;
    RestoredShows(snap.window, st0.history, w, st.history, cp.window);
    if st0.count > 0 && st0.distance == 0 {
      hide Restored, Shows, Saved, ZeroAhead;
      RestoredZeroAhead(snap.window, cp.numDecoded, st0.count, w, |st.history| - |st0.history|, cp.window);
    }
  }

  class SymbolReader {
    const code: Code
    /** Null when LZ77 is off. */
    const window: array?<nat>
    var state: nat
    var numDecoded: nat
    var numToCopy: nat
    var copyPos: nat
    /** All values decoded so far, when LZ77 is on. */
    ghost var history: seq<nat>
    /** How far back the copy in progress reads; 0 for a copy that started without history. */
    ghost var distance: nat

    ghost predicate Valid()
      reads this, window
    {
      && code.Valid() && (code.lz77 <==> window != null)
      && numDecoded == |history|
      && Abs(0).Valid(code)
      && (window != null ==> WindowValid(window[..]))
    }

    ghost predicate WindowValid(w: seq<nat>)
      reads this
    {
      && Shows(w, history)
      && (numToCopy > 0 ==> copyPos + distance == |history|)
      && (numToCopy > 0 && distance == 0 ==> ZeroAhead(w, |history|, numToCopy))
    }

    /** The reference state this object stands for, at bit position `pos`. */
    ghost function Abs(pos: nat): State
      reads this
    {
      State(state, pos, history, numToCopy, distance)
    }

    constructor (code: Code, br: BitReader)
      requires code.Valid() && br.Valid()
      modifies br
      ensures Valid() && this.code == code && (window != null ==> fresh(window))
      ensures br.Valid() && br.Position() == old(br.Position()) + 32
      ensures Abs(br.Position()) ==
              State(NumberAt(ToBits(br.data), old(br.Position()), 32), br.Position(), [], 0, 0)
    {
      var initial := br.ReadBits(32);
      state := initial;
      this.code := code;
      numDecoded, numToCopy, copyPos := 0, 0, 0;
      history, distance := [], 0;
      var w: array?<nat> := null;
      if code.lz77 {
        w := new nat[WINDOW_SIZE];
      }
      window := w;
    }

    /** One ANS step; needs 16 buffered bits, which it takes only to renormalize. */
    method ReadSymbolANSWithoutRefill(histoIdx: nat, br: BitReader) returns (value: nat)
      requires Valid() && br.Valid() && br as object != this && histoIdx < |code.tables|
      requires br.bitsInBuf >= 16
      modifies this`state, br
      ensures Valid() && br.Valid() && br.bitsInBuf >= old(br.bitsInBuf) - 16
      ensures ReadResult(value, state, br.Position())
           == ReadSymbol(code.tables[histoIdx], ToBits(br.data), old(state), old(br.Position()))
    {
      var table := code.tables[histoIdx];
      var symbol := Lookup(table.entries, state % ANS_TAB_SIZE, table.entrySize);
      ghost var before := state;
      assert symbol == Resolve(table, state);
      hide NumberAt, Shows, ZeroAhead, Buffered, Lookup, Table.Valid;
      state := (symbol.freq * (state / ANS_TAB_SIZE) + symbol.offset) % STATE_LIMIT;
      assert state == Advance(table, before);
      var word := br.PeekBits(16);
      var newState := state * WORD_LIMIT + word;
      var normalize := state < WORD_LIMIT;
      state := if normalize then newState else state;
      br.Consume(if normalize then 16 else 0);
      value := symbol.value;
    }

    /** Takes the raw bits of a token from the buffer. */
    static method ReadHybridUintConfig(config: Config, token: nat, br: BitReader) returns (value: nat)
      requires br.Valid() && config.Valid() && br.bitsInBuf >= RawBits(config, token)
      modifies br
      ensures br.Valid() && br.Position() == old(br.Position()) + RawBits(config, token)
      ensures value == HybridValue(config, token, ToBits(br.data), old(br.Position()))
    {
      hide NumberAt, Buffered, Decode, RawBits;
      var nbits := RawBits(config, token);
      var bits := br.PeekBits(nbits);
      br.Consume(nbits);
      value := Decode(config, token, bits);
    }

    /** The copy branch: one value from the window, back into the window. */
    method CopyNext() returns (ret: nat)
      requires Valid() && numToCopy > 0 && numDecoded + 1 < UINT32_LIMIT
      modifies this`numToCopy, this`copyPos, this`numDecoded, this`history, window
      ensures Valid()
      ensures forall pos :: Abs(pos) == old(CopyStep(Abs(pos))) && ret == old(CopiedValue(Abs(pos)))
    {
      ghost var w := window[..];
      ghost var v := CopiedValue(Abs(0));
      if distance == 0 {
        ZeroAheadStep(w, |history|, numToCopy);
      } else {
        ShowsBack(w, history, distance);
      }
      ShowsAppend(w, history, v);
      hide Shows, ZeroAhead, Mask;
      ret := window[Mask(copyPos)];
      copyPos := copyPos + 1;
      numToCopy := numToCopy - 1;
      window[Mask(numDecoded)] := ret;
      numDecoded := numDecoded + 1;
      assert window[..] == w[Mask(|history|) := v];
      history := history + [v];
    }

    /** Records a literal when LZ77 is on. */
    method Record(value: nat)
      requires Valid() && numToCopy == 0 && numDecoded + 1 < UINT32_LIMIT
      modifies this`numDecoded, this`history, window
      ensures Valid() && history == if code.lz77 then old(history) + [value] else old(history)
    {
      if window != null {
        ghost var w := window[..];
        ShowsAppend(w, history, value);
        hide Shows, Mask;
        window[Mask(numDecoded)] := value;
        numDecoded := numDecoded + 1;
        assert window[..] == w[Mask(|history|) := value];
        history := history + [value];
      }
    }

    /** Sets up a copy after a length token; without history the window is cleared first. */
    method BeginCopy(length: nat, distanceCode: nat)
      requires Valid() && numToCopy == 0 && code.lz77
      modifies this`numToCopy, this`copyPos, this`distance, window
      ensures Valid()
      ensures numToCopy == (length + code.minLength) % UINT32_LIMIT
      ensures distance == ClampedDistance(code, distanceCode, |history|)
    {
      numToCopy := (length + code.minLength) % UINT32_LIMIT;
      var d := UnclampedDistance(code, distanceCode);
      if d > numDecoded {
        d := numDecoded;
      }
      if d > WINDOW_SIZE {
        d := WINDOW_SIZE;
      }
      distance := d;
      copyPos := numDecoded - d;
      if d == 0 {
        var toFill := Min(numToCopy, WINDOW_SIZE);
        forall i | 0 <= i < toFill {
          window[i] := 0;
        }
        assert forall j: nat | j < toFill :: SlotAt(0, j) == j;
      }
    }

    /** Reads length and distance of a copy after its length token. */
    method ReadCopy(first: nat, br: BitReader, ghost st: State, ghost symbol: ReadResult)
      requires Valid() && br.Valid() && br as object != this && code.lz77 && br.bitsInBuf >= 40
      requires symbol == ReadResult(first, state, br.Position()) && first >= code.minSymbol
      requires st.history == history && numToCopy == 0
      modifies this`state, this`numToCopy, this`copyPos, this`distance, window, br
      ensures Valid() && br.Valid()
      ensures Abs(br.Position()) == StartCopy(code, ToBits(br.data), st, symbol)
    {
      hide NumberAt, ReadSymbol, HybridValue, RawBits, ClampedDistance, Buffered, Shows, ZeroAhead, ToBits,
           Table.Valid;
      var length := ReadHybridUintConfig(code.lengthConfig, first - code.minSymbol, br);
      br.Refill(); // covers the symbol and its raw bits
      var token := ReadSymbolANSWithoutRefill(code.distanceContext, br);
      var distanceCode := ReadHybridUintConfig(code.configs[code.distanceContext], token, br);
      BeginCopy(length, distanceCode);
    }

    /** Decodes one value. One refill covers a symbol and its raw bits, and after a length token the
        call on itself finds a copy to take from, so it goes no deeper. */
    method ReadHybridUintClustered(ctx: nat, br: BitReader) returns (ret: nat)
      requires Valid() && br.Valid() && br as object != this && ctx < |code.tables|
      requires numDecoded + 1 < UINT32_LIMIT
      modifies this, window, br
      ensures Valid() && br.Valid()
      ensures Result(Abs(br.Position()), ret)
           == Read(code, ToBits(br.data), old(Abs(br.Position())), ctx)
      decreases numToCopy == 0
    {
      hide NumberAt, ReadSymbol, StartCopy, HybridValue, RawBits, Buffered, Shows, ZeroAhead, ToBits;
      if numToCopy > 0 {
        ret := CopyNext();
        return;
      }
      ghost var st := Abs(br.Position());
      br.Refill(); // covers the symbol and its raw bits
      var token := ReadSymbolANSWithoutRefill(ctx, br);
      ghost var first := ReadResult(token, state, br.Position());
      if code.lz77 && token >= code.minSymbol {
        ReadCopy(token, br, st, first);
        if numToCopy < code.minLength {
          return 0;
        }
        ret := ReadHybridUintClustered(ctx, br);
        return;
      }
      ret := ReadHybridUintConfig(code.configs[ctx], token, br);
      Record(ret);
    }

    /** Decodes one value per context. */
    method ReadHybridUints(ctxs: seq<nat>, br: BitReader) returns (values: seq<nat>)
      requires Valid() && br.Valid() && br as object != this && Contexts(code, ctxs)
      requires numDecoded + |ctxs| < UINT32_LIMIT
      modifies this, window, br
      ensures Valid() && br.Valid()
      ensures old(Abs(br.Position())).Valid(code)
      ensures Run(Abs(br.Position()), values)
           == ReadMany(code, ToBits(br.data), old(Abs(br.Position())), ctxs)
      decreases |ctxs|
    {
      ghost var st := Abs(br.Position());
      assert code.Valid() && st.Valid(code);
      hide Read, Code.Valid, State.Valid, WindowValid, Buffered, ToBits;
      if ctxs == [] {
        return [];
      }
      var first := ReadHybridUintClustered(ctxs[0], br);
      ReadKeepsValid(code, ToBits(br.data), st, ctxs[0]);
      CountsUp(code, ToBits(br.data), st, ctxs[0]);
      var rest := ReadHybridUints(ctxs[1..], br);
      values := [first] + rest;
    }

    /** Advances past `count` values of a single-symbol context without touching the ANS state. When
        it says so from a normalized state, that is what decoding them would have done. */
    method IsSingleValueAndAdvance(ctx: nat, count: nat, ghost s: seq<bool>, ghost pos: nat)
      returns (ok: bool, value: nat)
      requires Valid() && ctx < |code.tables| && numToCopy == 0 && numDecoded + count < UINT32_LIMIT
      modifies this`numDecoded, this`history, window
      ensures Valid() && old(Abs(pos)).Valid(code) && Contexts(code, seq(count, _ => ctx))
      ensures ok && IsNormalized(state) ==>
                Run(Abs(pos), seq(count, _ => value)) == ReadMany(code, s, old(Abs(pos)), seq(count, _ => ctx))
      ensures !ok ==> Abs(pos) == old(Abs(pos))
    {
      ghost var st := Abs(pos);
      var table := code.tables[ctx];
      var symbol := Lookup(table.entries, state % ANS_TAB_SIZE, table.entrySize);
      assert symbol == Resolve(table, state);
      value := symbol.value;
      if symbol.freq != ANS_TAB_SIZE || code.configs[ctx].SplitToken() <= symbol.value ||
         symbol.value >= code.Threshold()
      {
        return false, value;
      }
      SingleValueRepeats(code, s, st, ctx, value, count);
      hide Lookup, Resolve, IsIdentityTable, Table.Valid, Code.Valid, State.Valid, ReadMany;
      Repeat(value, count);
      return true, value;
    }

    method Repeat(value: nat, count: nat)
      requires Valid() && numToCopy == 0 && numDecoded + count < UINT32_LIMIT
      modifies this`numDecoded, this`history, window
      ensures Valid()
      ensures history == if code.lz77 then old(history) + seq(count, _ => value) else old(history)
    {
      for i := 0 to count
        invariant Valid() && numDecoded == old(numDecoded) + if code.lz77 then i else 0
        invariant history == if code.lz77 then old(history) + seq(i, _ => value) else old(history)
      {
        hide Code.Valid, State.Valid, WindowValid;
        Record(value);
        assert seq(i + 1, _ => value) == seq(i, _ => value) + [value];
      }
    }

    method Save() returns (cp: Checkpoint, ghost snap: Snapshot)
      requires Valid()
      ensures snap == Snapshot(Abs(0), if window != null then window[..] else [])
      ensures Holds(cp, snap, code)
    {
      var segment: seq<nat> := [];
      if window != null {
        segment := SavedSegment(window[..], numDecoded);
      }
      cp := Checkpoint(state, numToCopy, copyPos, numDecoded, segment);
      snap := Snapshot(Abs(0), if window != null then window[..] else []);
    }

    /** Brings back the saved state after any decoding of at most 512 values. */
    method Restore(cp: Checkpoint, ghost snap: Snapshot)
      requires Valid() && Holds(cp, snap, code) && Follows(snap.state, Abs(0))
      modifies this, window
      ensures Valid() && Abs(0) == snap.state.(pos := 0)
    {
      if window != null {
        RestoredWindow(cp, snap, code, window[..], Abs(0));
        RestoreWindow(cp);
      }
      hide Shows, ZeroAhead, Restored, Saved;
      state := cp.state;
      numDecoded := cp.numDecoded;
      numToCopy := cp.numToCopy;
      copyPos := cp.copyPos;
      history, distance := snap.state.history, snap.state.distance;
    }

    /** The two `memcpy` branches of `Restore`. */
    method RestoreWindow(cp: Checkpoint)
      requires window != null && window.Length == WINDOW_SIZE && |cp.window| == CHECKPOINT_INTERVAL
      modifies window
      ensures window[..] == Restored(old(window[..]), cp.numDecoded, cp.window)
    {
      var winStart := Mask(cp.numDecoded);
      var winEnd := Mask(cp.numDecoded + CHECKPOINT_INTERVAL);
      SegmentIndices(cp.numDecoded);
      if winEnd > winStart {
        forall k | winStart <= k < winEnd {
          window[k] := cp.window[k - winStart];
        }
      } else {
        forall k | winStart <= k < WINDOW_SIZE {
          window[k] := cp.window[k - winStart];
        }
        forall k | 0 <= k < winEnd {
          window[k] := cp.window[WINDOW_SIZE - winStart + k];
        }
      }
    }

    /** As `ICCReader::Process` does when the input ends early: a checkpoint, some decoding, and back. */
    method SaveDecodeRestore(ctxs: seq<nat>, br: BitReader) returns (values: seq<nat>)
      requires Valid() && br.Valid() && br as object != this && Contexts(code, ctxs)
      requires |ctxs| <= 512 && numDecoded + |ctxs| < UINT32_LIMIT
      modifies this, window, br
      ensures Valid() && br.Valid() && Abs(0) == old(Abs(0))
      ensures old(Abs(br.Position())).Valid(code)
      ensures values == ReadMany(code, ToBits(br.data), old(Abs(br.Position())), ctxs).values
    {
      ghost var st := Abs(br.Position());
      var cp, snap := Save();
      values := ReadHybridUints(ctxs, br);
      FollowsRun(code, ToBits(br.data), st, st, ctxs);
      Restore(cp, snap);
    }

    /** The signature that the encoder starts from. */
    predicate CheckANSFinalState(): (ok: bool)
      reads this
      ensures ok <==> state == 0x13_0000
    {
      state == FINAL_STATE
    }
  }

  lemma CountsUp(code: Code, s: seq<bool>, st: State, ctx: nat)
    requires code.Valid() && st.Valid(code) && ctx < |code.tables|
    ensures |Read(code, s, st, ctx).state.history| <= |st.history| + 1
  {
  }
}
