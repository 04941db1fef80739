/** What decoding one value means (lib/jxl/dec_ans.h:305-347), on an unbounded history.

`Read` is the reference that the windowed, buffered `SymbolReader` refines: the ANS state, the bit
position, all values decoded so far and the copy in progress.
 */
module SymbolSpec {
  import opened Bits
  import opened BitReading
  import opened AliasTable
  import opened Rans
  import opened HybridUint
  import opened History
  import opened Sequences

  const NUM_SPECIAL: nat := 120

  /** `kSpecialDistances`: column and row offsets of the short distance codes, eight in a row. */
  const SPECIAL_ROWS: seq<seq<(int, int)>> := [
    [(0, 1), (1, 0), (1, 1), (-1, 1), (0, 2), (2, 0), (1, 2), (-1, 2)],
    [(2, 1), (-2, 1), (2, 2), (-2, 2), (0, 3), (3, 0), (1, 3), (-1, 3)],
    [(3, 1), (-3, 1), (2, 3), (-2, 3), (3, 2), (-3, 2), (0, 4), (4, 0)],
    [(1, 4), (-1, 4), (4, 1), (-4, 1), (3, 3), (-3, 3), (2, 4), (-2, 4)],
    [(4, 2), (-4, 2), (0, 5), (3, 4), (-3, 4), (4, 3), (-4, 3), (5, 0)],
    [(1, 5), (-1, 5), (5, 1), (-5, 1), (2, 5), (-2, 5), (5, 2), (-5, 2)],
    [(4, 4), (-4, 4), (3, 5), (-3, 5), (5, 3), (-5, 3), (0, 6), (6, 0)],
    [(1, 6), (-1, 6), (6, 1), (-6, 1), (2, 6), (-2, 6), (6, 2), (-6, 2)],
    [(4, 5), (-4, 5), (5, 4), (-5, 4), (3, 6), (-3, 6), (6, 3), (-6, 3)],
    [(0, 7), (7, 0), (1, 7), (-1, 7), (5, 5), (-5, 5), (7, 1), (-7, 1)],
    [(4, 6), (-4, 6), (6, 4), (-6, 4), (2, 7), (-2, 7), (7, 2), (-7, 2)],
    [(3, 7), (-3, 7), (7, 3), (-7, 3), (5, 6), (-5, 6), (6, 5), (-6, 5)],
    [(8, 0), (4, 7), (-4, 7), (7, 4), (-7, 4), (8, 1), (8, 2), (6, 6)],
    [(-6, 6), (8, 3), (5, 7), (-5, 7), (7, 5), (-7, 5), (8, 4), (6, 7)],
    [(-6, 7), (7, 6), (-7, 6), (8, 5), (7, 7), (-7, 7), (8, 6), (8, 7)]]

  function SpecialOffset(k: nat): (o: (int, int))
    requires k < NUM_SPECIAL
  {
    SPECIAL_ROWS[k / 8][k % 8]
  }

  /** The distances the constructor computes for an image width; none without one. */
  function SpecialDistances(multiplier: nat): (d: seq<nat>)
    ensures |d| == if multiplier == 0 then 0 else NUM_SPECIAL
    ensures forall k | 0 <= k < |d| :: d[k] >= 1
  {
    if multiplier == 0 then []
    else seq(NUM_SPECIAL, k requires 0 <= k < NUM_SPECIAL =>
           AtLeastOne(SpecialOffset(k).0 + multiplier * SpecialOffset(k).1))
  }

  function AtLeastOne(d: int): (r: nat)
    ensures r >= 1
  {
    if d < 1 then 1 else d
  }

  /** Whatever the image width, the second distance is the previous value. */
  lemma SecondDistance(multiplier: nat)
    requires multiplier > 0
    ensures |SpecialDistances(multiplier)| > 1 && SpecialDistances(multiplier)[1] == 1
  {
    assert SpecialOffset(1) == (1, 0);
    assert SpecialDistances(multiplier)[1] == AtLeastOne(SpecialOffset(1).0 + multiplier * SpecialOffset(1).1);
    assert multiplier * 0 == 0;
  }

  /** A decoded `ANSCode` on the ANS path. Without LZ77 the threshold is bigger than any symbol. */
  datatype Code = Code(
    tables: seq<ValidTable>, configs: seq<Config>, lz77: bool, minSymbol: nat, minLength: nat,
    distanceContext: nat, lengthConfig: Config, specialDistances: seq<nat>)
  {
    ghost predicate Valid() {
      && |tables| == |configs| && (forall c | 0 <= c < |configs| :: configs[c].Valid())
      && (forall c | 0 <= c < |tables| :: |tables[c].d| <= 256)
      && lengthConfig.Valid() && (forall k | 0 <= k < |specialDistances| :: specialDistances[k] >= 1)
      && (lz77 ==> distanceContext < |tables| && 0 < minLength < UINT32_LIMIT)
    }

    function Threshold(): nat {
      if lz77 then minSymbol else 0x10_0000
    }
  }

  datatype State = State(ans: nat, pos: nat, history: seq<nat>, count: nat, distance: nat) {
    /** A copy never reaches before the first value or beyond the window. */
    ghost predicate Valid(code: Code) {
      && count < UINT32_LIMIT
      && (count > 0 ==> distance <= |history| && distance <= WINDOW_SIZE && code.lz77)
      && (!code.lz77 ==> history == [])
    }
  }

  // ----- the parts of a step -----

  datatype ReadResult = ReadResult(value: nat, ans: nat, pos: nat)

  /** One ANS step on the bit string: a 16-bit word is taken only to renormalize. */
  function ReadSymbol(t: ValidTable, s: seq<bool>, ans: nat, pos: nat): ReadResult {
    ReadResult(Resolve(t, ans).value, NextState(t, ans, NumberAt(s, pos, 16)),
            if NeedsWord(t, ans) then pos + 16 else pos)
  }

  function HybridValue(cfg: Config, token: nat, s: seq<bool>, pos: nat): nat
    requires cfg.Valid()
  {
    Decode(cfg, token, NumberAt(s, pos, RawBits(cfg, token)))
  }

  /** The distance in values for a decoded distance code. */
  function UnclampedDistance(code: Code, distanceCode: nat): nat {
    if distanceCode < |code.specialDistances| then code.specialDistances[distanceCode]
    else distanceCode + 1 - |code.specialDistances|
  }

  /** ... limited to the history and to the window: zero exactly when nothing was decoded yet. */
  function ClampedDistance(code: Code, distanceCode: nat, decoded: nat): (d: nat)
    requires code.Valid()
    ensures d <= decoded && d <= WINDOW_SIZE
    ensures d == 0 <==> decoded == 0
  {
    Min(Min(UnclampedDistance(code, distanceCode), decoded), WINDOW_SIZE)
  }

  /** The state after a length token: the copy is set up, nothing is decoded yet. */
  function StartCopy(code: Code, s: seq<bool>, st: State, first: ReadResult): State
    requires code.Valid() && code.lz77 && first.value >= code.minSymbol
  {
    var lengthToken := first.value - code.minSymbol;
    var length := HybridValue(code.lengthConfig, lengthToken, s, first.pos);
    var pos := first.pos + RawBits(code.lengthConfig, lengthToken);
    var second := ReadSymbol(code.tables[code.distanceContext], s, first.ans, pos);
    var cfg := code.configs[code.distanceContext];
    var distanceCode := HybridValue(cfg, second.value, s, second.pos);
    State(second.ans, second.pos + RawBits(cfg, second.value), st.history,
          (length + code.minLength) % UINT32_LIMIT,
          ClampedDistance(code, distanceCode, |st.history|))
  }

  /** The value a copy takes next: zero if the copy started without any history. */
  function CopiedValue(st: State): nat
    requires st.distance <= |st.history|
  {
    if st.distance == 0 then 0 else st.history[|st.history| - st.distance]
  }

  function CopyStep(st: State): State
    requires st.count > 0 && st.distance <= |st.history|
  {
    st.(history := st.history + [CopiedValue(st)], count := st.count - 1)
  }

  datatype Result = Result(state: State, value: nat)

  function Literal(code: Code, s: seq<bool>, st: State, ctx: nat, first: ReadResult): Result
    requires code.Valid() && ctx < |code.tables|
  {
    var value := HybridValue(code.configs[ctx], first.value, s, first.pos);
    Result(State(first.ans, first.pos + RawBits(code.configs[ctx], first.value),
                 if code.lz77 then st.history + [value] else st.history, st.count, st.distance),
           value)
  }

  /** `ReadHybridUintClustered`. The length may wrap around 2^32; then 0 is returned, which is not
      recorded, and the wrapped count stays to be copied. */
  function Read(code: Code, s: seq<bool>, st: State, ctx: nat): Result
    requires code.Valid() && st.Valid(code) && ctx < |code.tables|
  {
    if st.count > 0 then Result(CopyStep(st), CopiedValue(st))
    else
      var first := ReadSymbol(code.tables[ctx], s, st.ans, st.pos);
      if code.lz77 && first.value >= code.minSymbol then
        var copy := StartCopy(code, s, st, first);
        if copy.count < code.minLength then Result(copy, 0)
        else Result(CopyStep(copy), CopiedValue(copy))
      else Literal(code, s, st, ctx, first)
  }

  lemma SymbolBelowThreshold(code: Code, s: seq<bool>, ans: nat, pos: nat, ctx: nat)
    requires code.Valid() && ctx < |code.tables|
    ensures var first := ReadSymbol(code.tables[ctx], s, ans, pos);
            first.value < 256 && Freq(code.tables[ctx].d, first.value) > 0
  {
  }

  lemma ReadKeepsValid(code: Code, s: seq<bool>, st: State, ctx: nat)
    requires code.Valid() && st.Valid(code) && ctx < |code.tables|
    ensures Read(code, s, st, ctx).state.Valid(code)
  {
  }

  // ----- runs -----

  datatype Run = Run(state: State, values: seq<nat>)

  ghost predicate Contexts(code: Code, ctxs: seq<nat>) {
    forall k | 0 <= k < |ctxs| :: ctxs[k] < |code.tables|
  }

  ghost function ReadMany(code: Code, s: seq<bool>, st: State, ctxs: seq<nat>): (r: Run)
    requires code.Valid() && st.Valid(code) && Contexts(code, ctxs)
    ensures |r.values| == |ctxs| && r.state.Valid(code)
    decreases |ctxs|
  {
    if ctxs == [] then Run(st, [])
    else
      ReadKeepsValid(code, s, st, ctxs[0]);
      var r := Read(code, s, st, ctxs[0]);
      var rest := ReadMany(code, s, r.state, ctxs[1..]);
      Run(rest.state, [r.value] + rest.values)
  }

  /** A copy of `n` values appends, each time, the value exactly `distance` positions back, whatever
      contexts are asked for, and touches neither the ANS state nor the bit position. */
  lemma {:induction false} CopyRun(code: Code, s: seq<bool>, st: State, ctxs: seq<nat>)
    requires code.Valid() && st.Valid(code) && Contexts(code, ctxs) && |ctxs| <= st.count
    ensures var r := ReadMany(code, s, st, ctxs);
            var h, h' := st.history, r.state.history;
            |h'| == |h| + |ctxs| && h'[..|h|] == h && r.values == h'[|h|..] &&
            (r.state.ans, r.state.pos, r.state.count) == (st.ans, st.pos, st.count - |ctxs|) &&
            r.state.distance == st.distance &&
            forall i | |h| <= i < |h'| :: h'[i] == if st.distance == 0 then 0 else h'[i - st.distance]
    decreases |ctxs|
  {
    if ctxs != [] {
      ReadKeepsValid(code, s, st, ctxs[0]);
      var next := CopyStep(st);
      CopyRun(code, s, next, ctxs[1..]);
      var h' := ReadMany(code, s, st, ctxs).state.history;
      assert h'[..|st.history|] == next.history[..|st.history|];
      assert h'[|st.history|] == next.history[|st.history|];
    }
  }

  /** A copy that starts with no history yields only zeros. */
  lemma CopyFromNothing(code: Code, s: seq<bool>, st: State, first: ReadResult, ctxs: seq<nat>)
    requires code.Valid() && code.lz77 && first.value >= code.minSymbol && st.history == []
    requires Contexts(code, ctxs) && |ctxs| <= StartCopy(code, s, st, first).count
    ensures var copy := StartCopy(code, s, st, first);
            copy.Valid(code) && forall v | v in ReadMany(code, s, copy, ctxs).values :: v == 0
  {
    CopyRun(code, s, StartCopy(code, s, st, first), ctxs);
  }

  // ----- how large values get -----

  /** `m` is at least what `UpdateMaxNumBits` computed for every literal that can occur. */
  ghost predicate BitsCover(code: Code, m: nat)
    requires code.Valid()
  {
    forall c: nat, v: nat | c < |code.tables| && Freq(code.tables[c].d, v) > 0 && v < code.Threshold() ::
      TotalBits(code.configs[c], v) <= m
  }

  ghost predicate AllBelow(h: seq<nat>, bound: nat) {
    forall i | 0 <= i < |h| :: h[i] < bound
  }

  lemma HybridBound(cfg: Config, token: nat, s: seq<bool>, pos: nat, m: nat)
    requires cfg.Valid() && TotalBits(cfg, token) <= m
    ensures HybridValue(cfg, token, s, pos) < Pow2(m)
  {
    ToNatBound(Stream(s, pos, RawBits(cfg, token)));
    DecodeBound(cfg, token, NumberAt(s, pos, RawBits(cfg, token)));
    Pow2Monotone(TotalBits(cfg, token), m);
  }

  /** Every returned value, LZ77 copies included, is below 2^max_num_bits. */
  lemma ReadBound(code: Code, s: seq<bool>, st: State, ctx: nat, m: nat)
    requires code.Valid() && st.Valid(code) && ctx < |code.tables| && BitsCover(code, m)
    requires AllBelow(st.history, Pow2(m))
    ensures Read(code, s, st, ctx).value < Pow2(m)
    ensures AllBelow(Read(code, s, st, ctx).state.history, Pow2(m))
  {
    hide TotalBits, Decode, NumberAt, NextState, NeedsWord;
    if st.count == 0 {
      var first := ReadSymbol(code.tables[ctx], s, st.ans, st.pos);
      SymbolBelowThreshold(code, s, st.ans, st.pos, ctx);
      if first.value < code.Threshold() {
        HybridBound(code.configs[ctx], first.value, s, first.pos, m);
      }
    }
  }

  lemma {:induction false} ReadManyBound(code: Code, s: seq<bool>, st: State, ctxs: seq<nat>, m: nat)
    requires code.Valid() && st.Valid(code) && Contexts(code, ctxs) && BitsCover(code, m)
    requires AllBelow(st.history, Pow2(m))
    ensures AllBelow(ReadMany(code, s, st, ctxs).values, Pow2(m))
    decreases |ctxs|
  {
    hide Read, State.Valid, Code.Valid, BitsCover;
    if ctxs != [] {
      ReadKeepsValid(code, s, st, ctxs[0]);
      ReadBound(code, s, st, ctxs[0], m);
      ReadManyBound(code, s, Read(code, s, st, ctxs[0]).state, ctxs[1..], m);
    }
  }

  // ----- checkpoints -----

  /** `st` was reached from `st0` by decoding at most 512 values. */
  ghost predicate Follows(st0: State, st: State) {
    && st0.history <= st.history && |st.history| <= |st0.history| + CHECKPOINT_INTERVAL
    && FollowsCopy(st0, st, |st.history| - |st0.history|)
  }

  /** A copy in progress at `st0` is either used up or has been continued for `k` values. */
  ghost predicate FollowsCopy(st0: State, st: State, k: nat) {
    st0.count > k ==> st.count == st0.count - k && st.distance == st0.distance
  }

  lemma FollowsStep(code: Code, s: seq<bool>, st0: State, st: State, ctx: nat)
    requires code.Valid() && st.Valid(code) && ctx < |code.tables|
    requires Follows(st0, st) && |st.history| < |st0.history| + CHECKPOINT_INTERVAL
    ensures Follows(st0, Read(code, s, st, ctx).state)
    ensures |st.history| <= |Read(code, s, st, ctx).state.history| <= |st.history| + 1
  {
    hide ReadSymbol, HybridValue, ClampedDistance;
  }

  lemma {:induction false} FollowsRun(code: Code, s: seq<bool>, st0: State, st: State, ctxs: seq<nat>)
    requires code.Valid() && st.Valid(code) && Contexts(code, ctxs)
    requires Follows(st0, st) && |st.history| + |ctxs| <= |st0.history| + CHECKPOINT_INTERVAL
    ensures Follows(st0, ReadMany(code, s, st, ctxs).state)
    decreases |ctxs|
  {
    hide Read, Code.Valid, State.Valid, Follows;
    if ctxs != [] {
      ReadKeepsValid(code, s, st, ctxs[0]);
      FollowsStep(code, s, st0, st, ctxs[0]);
      FollowsRun(code, s, st0, Read(code, s, st, ctxs[0]).state, ctxs[1..]);
    }
  }

  // ----- runs of a single value -----

  /** Reading `count` values of a context with one symbol below the split token: the value repeats,
      and neither the ANS state nor the bit position moves. */
  lemma {:induction false} SingleValueRun(code: Code, s: seq<bool>, st: State, ctx: nat, value: nat, count: nat)
    requires code.Valid() && st.Valid(code) && ctx < |code.tables| && st.count == 0 && IsNormalized(st.ans)
    requires IsIdentityTable(code.tables[ctx].entries, code.tables[ctx].entrySize, value)
    requires value < code.configs[ctx].SplitToken() && value < code.Threshold() && value < UINT32_LIMIT
    ensures Contexts(code, seq(count, _ => ctx))
    ensures ReadMany(code, s, st, seq(count, _ => ctx)) ==
            Run(if code.lz77 then st.(history := st.history + seq(count, _ => value)) else st,
                seq(count, _ => value))
    decreases count
  {
    hide Read, State.Valid, Code.Valid, IsIdentityTable, Table.Valid;
    var ctxs, values := seq(count, _ => ctx), seq(count, _ => value);
    if count == 0 {
      assert st.history + values == st.history;
    } else {
      SingleValueStep(code, s, st, ctx, value);
      ReadKeepsValid(code, s, st, ctx);
      var next := Read(code, s, st, ctx).state;
      SingleValueRun(code, s, next, ctx, value, count - 1);
      assert ctxs[1..] == seq(count - 1, _ => ctx);
      assert values == [value] + seq(count - 1, _ => value);
      assert st.history + values == (st.history + [value]) + seq(count - 1, _ => value);
    }
  }

  /** A symbol that takes the whole table is the only one. */
  lemma SingleValueRepeats(code: Code, s: seq<bool>, st: State, ctx: nat, value: nat, count: nat)
    requires code.Valid() && st.Valid(code) && ctx < |code.tables| && st.count == 0
    requires value == Resolve(code.tables[ctx], st.ans).value && Resolve(code.tables[ctx], st.ans).freq == ANS_TAB_SIZE
    requires value < code.configs[ctx].SplitToken() && value < code.Threshold()
    ensures Contexts(code, seq(count, _ => ctx)) && value < 256
    ensures IsNormalized(st.ans) ==>
              ReadMany(code, s, st, seq(count, _ => ctx)) ==
              Run(if code.lz77 then st.(history := st.history + seq(count, _ => value)) else st,
                  seq(count, _ => value))
  {
    var table := code.tables[ctx];
    assert IsIdentityTable(table.entries, table.entrySize, value) && value < 256;
    hide Resolve, IsIdentityTable, Table.Valid, Code.Valid, State.Valid, ReadMany;
    if IsNormalized(st.ans) {
      SingleValueRun(code, s, st, ctx, value, count);
    }
  }

  lemma IdentitySymbol(t: ValidTable, s: seq<bool>, ans: nat, pos: nat, value: nat)
    requires IsIdentityTable(t.entries, t.entrySize, value) && IsNormalized(ans)
    ensures ReadSymbol(t, s, ans, pos) == ReadResult(value, ans, pos)
  {
    IdentityStep(t, value, ans, NumberAt(s, pos, 16));
  }

  lemma SmallToken(cfg: Config, token: nat, s: seq<bool>, pos: nat)
    requires cfg.Valid() && token < cfg.SplitToken() && token < UINT32_LIMIT
    ensures RawBits(cfg, token) == 0 && HybridValue(cfg, token, s, pos) == token
  {
    hide NumberAt;
    ModSmall(token, UINT32_LIMIT);
  }

  lemma SingleValueStep(code: Code, s: seq<bool>, st: State, ctx: nat, value: nat)
    requires code.Valid() && st.Valid(code) && ctx < |code.tables| && st.count == 0 && IsNormalized(st.ans)
    requires IsIdentityTable(code.tables[ctx].entries, code.tables[ctx].entrySize, value)
    requires value < code.configs[ctx].SplitToken() && value < code.Threshold() && value < UINT32_LIMIT
    ensures Read(code, s, st, ctx) ==
            Result(if code.lz77 then st.(history := st.history + [value]) else st, value)
  {
    IdentitySymbol(code.tables[ctx], s, st.ans, st.pos, value);
    SmallToken(code.configs[ctx], value, s, st.pos);
    hide ReadSymbol, HybridValue, RawBits, IsIdentityTable, Table.Valid;
    assert Read(code, s, st, ctx) == Literal(code, s, st, ctx, ReadResult(value, st.ans, st.pos));
  }
}
