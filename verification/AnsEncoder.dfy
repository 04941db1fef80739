/** The ANS encoder (lib/jxl/enc_ans.cc:39-63, 1604-1664, lib/jxl/enc_ans.h:33-82): reverse maps,
division by reciprocal multiplication, and the token writer that works from the last token to the
first.
 */
module AnsEncoding {
  import opened Bits
  import opened BitReading
  import opened BitWriting
  import opened AliasTable
  import opened Rans
  import opened HybridUint
  import opened SymbolSpec

  // ----- symbol info -----

  const RECIPROCAL_LIMIT: nat := 0x1000_0000_0000 // 1 << RECIPROCAL_PRECISION, which is 32 + 12

  datatype SymbolInfo = SymbolInfo(freq: nat, ifreq: nat, reverseMap: seq<nat>)

  function Reciprocal(freq: nat): nat {
    if freq == 0 then 1 else (RECIPROCAL_LIMIT + freq - 1) / freq
  }

  ghost predicate InfoFor(info: SymbolInfo, t: ValidTable, s: nat) {
    && info.freq == Freq(t.d, s) && info.ifreq == Reciprocal(info.freq)
    && |info.reverseMap| == info.freq
    && forall o: nat | o < info.freq :: info.reverseMap[o] == Slot(t, s, o)
  }

  ghost predicate MapsSoFar(maps: seq<seq<nat>>, t: ValidTable, n: nat) {
    && |maps| == |t.d| && (forall s | 0 <= s < |maps| :: |maps[s]| == t.d[s])
    && forall v: nat | v < n && v < ANS_TAB_SIZE :: MappedBack(maps, t, v)
  }

  ghost predicate MappedBack(maps: seq<seq<nat>>, t: ValidTable, v: nat)
    requires v < ANS_TAB_SIZE
  {
    var r := Resolve(t, v);
    r.value < |maps| && r.offset < |maps[r.value]| && maps[r.value][r.offset] == v
  }

  function SetEntry(maps: seq<seq<nat>>, s: nat, o: nat, v: nat): seq<seq<nat>>
    requires s < |maps| && o < |maps[s]|
  {
    var row: seq<nat> := maps[s][o := v];
    maps[s := row]
  }

  lemma PositionsResolveApart(t: ValidTable, v: nat, w: nat)
    requires v < w < ANS_TAB_SIZE
    ensures Resolve(t, v).value != Resolve(t, w).value || Resolve(t, v).offset != Resolve(t, w).offset
  {
    hide Resolve, Slot, Table.Valid;
    SlotOfState(t, v);
    SlotOfState(t, w);
  }

  lemma ResolveInRange(t: ValidTable, v: nat)
    ensures Resolve(t, v).value < |t.d| && Resolve(t, v).offset < t.d[Resolve(t, v).value]
  {
  }

  lemma MapsStep(maps: seq<seq<nat>>, t: ValidTable, v: nat)
    requires v < ANS_TAB_SIZE && MapsSoFar(maps, t, v)
    ensures var r := Resolve(t, v);
            r.value < |maps| && r.offset < |maps[r.value]| &&
            MapsSoFar(SetEntry(maps, r.value, r.offset, v), t, v + 1)
  {
    var r := Resolve(t, v);
    ResolveInRange(t, v);
    hide Resolve, Table.Valid;
    var maps' := SetEntry(maps, r.value, r.offset, v);
    forall w: nat | w < v + 1 && w < ANS_TAB_SIZE ensures MappedBack(maps', t, w) {
      if w < v {
        assert MappedBack(maps, t, w);
        PositionsResolveApart(t, w, v);
      }
    }
  }

  lemma MapsInvert(maps: seq<seq<nat>>, t: ValidTable, s: nat, o: nat)
    requires MapsSoFar(maps, t, ANS_TAB_SIZE) && IsSlot(t.d, s, o)
    ensures s < |maps| && o < |maps[s]| && maps[s][o] == Slot(t, s, o)
  {
    assert MappedBack(maps, t, Slot(t, s, o));
  }

  /** `ANSBuildInfoTable`: one pass over the table inverts it. */
  method BuildInfoTable(t: ValidTable) returns (info: seq<SymbolInfo>)
    ensures |info| == |t.d| && forall s: nat | s < |info| :: InfoFor(info[s], t, s)
  {
    var maps := seq(|t.d|, s requires 0 <= s < |t.d| => seq(t.d[s], _ => 0));
    for v := 0 to ANS_TAB_SIZE
      invariant MapsSoFar(maps, t, v)
    {
      MapsStep(maps, t, v);
      hide Resolve, MapsSoFar, Table.Valid;
      var r := Resolve(t, v);
      maps := SetEntry(maps, r.value, r.offset, v);
    }
    info := seq(|t.d|, s requires 0 <= s < |t.d| && s < |maps| => SymbolInfo(t.d[s], Reciprocal(t.d[s]), maps[s]));
    forall s: nat | s < |info| ensures InfoFor(info[s], t, s) {
      hide Slot, Resolve, Table.Valid, MapsSoFar;
      forall o: nat | o < t.d[s] ensures maps[s][o] == Slot(t, s, o) {
        MapsInvert(maps, t, s, o);
      }
    }
  }

  // ----- division by multiplication -----

  lemma QuotientPart(f: nat, q: nat, r: nat, k: nat, limit: nat, d: nat)
    requires f * k == limit + d
    ensures (f * q + r) * k == limit * q + (q * d + r * k)
  {
    assert (f * q + r) * k == (f * q) * k + r * k;
    assert (f * q) * k == q * (f * k);
    assert q * (limit + d) == limit * q + q * d;
  }

  lemma RemainderPart(x: nat, f: nat, q: nat, r: nat, k: nat, limit: nat, d: nat)
    requires f * k == limit + d && x == f * q + r
    ensures f * (q * d + r * k) == x * d + r * limit
  {
    assert f * (q * d + r * k) == f * (q * d) + f * (r * k);
    assert f * (q * d) == (f * q) * d;
    assert f * (r * k) == r * (f * k);
    assert r * (limit + d) == r * limit + r * d;
    assert x * d == (f * q) * d + r * d;
  }

  lemma ProductPart(f: nat, x: nat, k: nat, limit: nat, d: nat)
    requires f * k == limit + d
    ensures f * (x * k) == x * limit + x * d
  {
    assert f * (x * k) == x * (f * k);
    assert x * (limit + d) == x * limit + x * d;
  }

  /** The rounding error of the reciprocal, times the dividend, stays below one unit. */
  lemma SmallError(x: nat, f: nat, d: nat)
    requires 0 < f <= ANS_TAB_SIZE && x < f * 0x10_0000 && d < f
    ensures x * d < RECIPROCAL_LIMIT
  {
    if d > 0 {
      MulUpTo(f, ANS_TAB_SIZE, f, ANS_TAB_SIZE);
      MulUpTo(x + 1, f * 0x10_0000, d, f);
      SquareShift(f);
      assert (x + 1) * d == x * d + d;
    }
  }

  lemma SquareShift(f: nat)
    ensures (f * 0x10_0000) * f == (f * f) * 0x10_0000
  {
  }

  lemma CancelFactor(a: nat, b: nat, f: nat)
    requires f * a < f * b
    ensures a < b
  {
    if a >= b {
      MulMonotone(b, a, f);
    }
  }

  lemma OneLess(f: nat, limit: nat)
    requires f > 0
    ensures (f - 1) * limit == f * limit - limit
  {
  }

  lemma RemainderBelow(x: nat, f: nat, q: nat, r: nat, k: nat, limit: nat, d: nat)
    requires f * k == limit + d && x == f * q + r && r < f && x * d < limit
    ensures q * d + r * k < limit
  {
    RemainderPart(x, f, q, r, k, limit, d);
    MulMonotone(r, f - 1, limit);
    OneLess(f, limit);
    var e := q * d + r * k;
    assert f * e < f * limit;
    CancelFactor(e, limit, f);
  }

  lemma ProductBelow(f: nat, x: nat, k: nat, limit: nat, d: nat, top: nat)
    requires f * k == limit + d && x < f * top && x * d < limit
    ensures x * k < top * limit
  {
    ProductPart(f, x, k, limit, d);
    MulMonotone(x + 1, f * top, limit);
    assert (x + 1) * limit == x * limit + limit;
    assert (f * top) * limit == f * (top * limit);
    CancelFactor(x * k, top * limit, f);
  }

  /** For states that the encoder divides, the 64-bit product does not overflow and its high part is
      the quotient. */
  lemma ReciprocalDivides(x: nat, f: nat)
    requires 0 < f <= ANS_TAB_SIZE && x < f * 0x10_0000
    ensures x * Reciprocal(f) < 0x1_0000_0000_0000_0000
    ensures x * Reciprocal(f) / RECIPROCAL_LIMIT == x / f
  {
    DivMod(RECIPROCAL_LIMIT + f - 1, f);
    DivMod(x, f);
    DividesFrom(x, f, Reciprocal(f), f * Reciprocal(f) - RECIPROCAL_LIMIT, x / f, x % f);
  }

  lemma DividesFrom(x: nat, f: nat, k: nat, d: nat, q: nat, r: nat)
    requires 0 < f <= ANS_TAB_SIZE && x < f * 0x10_0000
    requires f * k == RECIPROCAL_LIMIT + d && d < f && x == f * q + r && r < f
    ensures x * k < 0x1_0000_0000_0000_0000 && x * k / RECIPROCAL_LIMIT == q
  {
    SmallError(x, f, d);
    QuotientPart(f, q, r, k, RECIPROCAL_LIMIT, d);
    RemainderBelow(x, f, q, r, k, RECIPROCAL_LIMIT, d);
    ProductBelow(f, x, k, RECIPROCAL_LIMIT, d, 0x10_0000);
    DivModUnique(x * k, RECIPROCAL_LIMIT, q, q * d + r * k);
  }

  // ----- the coder -----

  class ANSCoder {
    var state: nat

    constructor ()
      ensures state == FINAL_STATE
    {
      state := FINAL_STATE;
    }

    /** Puts `s` in front of the stream: at most one word is emitted, and the quotient is computed by
        the reciprocal. */
    method PutSymbol(info: SymbolInfo, ghost t: ValidTable, ghost s: nat) returns (bits: nat, nbits: nat)
      requires InfoFor(info, t, s) && info.freq > 0 && IsNormalized(state)
      modifies this
      ensures state == PutState(t, s, old(state))
      ensures nbits == 16 * |PutWords(t, s, old(state))|
      ensures nbits == 0 ==> bits == 0
      ensures nbits > 0 ==> PutWords(t, s, old(state)) == [bits] && bits < WORD_LIMIT
    {
      ghost var before := state;
      PutDividend(before, info.freq);
      FreqAtMost(t, s);
      bits, nbits := 0, 0;
      hide Slot, Table.Valid, Reciprocal, Requeue;
      if state / 0x10_0000 >= info.freq {
        bits := state % WORD_LIMIT;
        state := state / WORD_LIMIT;
        nbits := 16;
      }
      state := Divide(info, t, s, state);
    }
  }

  lemma RequeueFrom(t: ValidTable, s: nat, x: nat, q: nat, r: nat)
    requires Freq(t.d, s) > 0 && x / Freq(t.d, s) == q && x % Freq(t.d, s) == r
    ensures r < Freq(t.d, s) && Requeue(t, s, x) == q * ANS_TAB_SIZE + Slot(t, s, r)
  {
    DivMod(x, Freq(t.d, s));
  }

  /** Quotient and reverse-mapped remainder, by the reciprocal. */
  method Divide(info: SymbolInfo, ghost t: ValidTable, ghost s: nat, x: nat) returns (r: nat)
    requires InfoFor(info, t, s) && 0 < info.freq <= ANS_TAB_SIZE && x < info.freq * 0x10_0000
    ensures r == Requeue(t, s, x)
  {
    DividedState(info, x);
    hide Slot, Table.Valid, Reciprocal;
    var v := x * info.ifreq / RECIPROCAL_LIMIT;
    var rest := x - v * info.freq;
    RequeueFrom(t, s, x, v, rest);
    hide Requeue;
    r := v * ANS_TAB_SIZE + info.reverseMap[rest];
  }

  lemma FreqAtMost(t: ValidTable, s: nat)
    ensures Freq(t.d, s) <= ANS_TAB_SIZE
  {
  }

  /** What is divided is in the range where the reciprocal is exact. */
  lemma PutDividend(state: nat, f: nat)
    requires 0 < f && state < STATE_LIMIT
    ensures (if state / 0x10_0000 >= f then state / WORD_LIMIT else state) < f * 0x10_0000
  {
    QuotientIffBelow(state, f, 0x10_0000);
    MulMonotone(1, f, 0x10_0000);
  }

  lemma DividedState(info: SymbolInfo, x: nat)
    requires 0 < info.freq <= ANS_TAB_SIZE && info.ifreq == Reciprocal(info.freq)
    requires x < info.freq * 0x10_0000
    ensures var v := x * info.ifreq / RECIPROCAL_LIMIT;
            v == x / info.freq && x - v * info.freq == x % info.freq && 0 <= x % info.freq < info.freq
  {
    ReciprocalDivides(x, info.freq);
    DivMod(x, info.freq);
    assert x / info.freq * info.freq == info.freq * (x / info.freq);
  }
}
