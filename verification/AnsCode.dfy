/** Building the alias tables of all contexts (lib/jxl/dec_ans.cc:227-260, 310-331), ANS branch. */
module AnsCode {
  import opened Bits
  import opened BitReading
  import opened Sums
  import opened AliasTable
  import opened Rans
  import opened HybridUint
  import opened SymbolSpec
  import Histogram
  import UintConfigs

  /** Trailing zeros removed by the caller are removed again by `InitAliasTable`: nothing changes. */
  lemma TrimmedTwice(d: seq<nat>)
    ensures Trimmed(Trimmed(d)) == Trimmed(d)
  {
  }

  lemma {:induction false} AllZeroTrimmed(d: seq<nat>)
    requires Trimmed(d) == []
    ensures Sum(d) == 0
  {
    TrimmedSum(d);
  }

  class ANSCode {
    const configs: seq<Config>
    const logAlphaSize: nat
    const lz77: bool
    const minSymbol: nat
    const distanceContext: nat
    const lengthConfig: Config
    var tables: seq<ValidTable>
    var degenerateSymbols: seq<int>
    var maxNumBits: nat

    predicate Valid()
      reads this
    {
      && (forall c | 0 <= c < |configs| :: configs[c].Valid()) && lengthConfig.Valid()
      && 5 <= logAlphaSize <= 8
    }

    constructor (configs: seq<Config>, logAlphaSize: nat, lz77: bool, minSymbol: nat, distanceContext: nat,
                 lengthConfig: Config)
      requires forall c | 0 <= c < |configs| :: configs[c].Valid()
      requires lengthConfig.Valid() && 5 <= logAlphaSize <= 8
      ensures Valid() && tables == [] && degenerateSymbols == [] && maxNumBits == 0
      ensures this.configs == configs && this.logAlphaSize == logAlphaSize && this.lz77 == lz77
      ensures this.minSymbol == minSymbol && this.distanceContext == distanceContext
    {
      this.configs, this.logAlphaSize, this.lz77 := configs, logAlphaSize, lz77;
      this.minSymbol, this.distanceContext, this.lengthConfig := minSymbol, distanceContext, lengthConfig;
      tables, degenerateSymbols, maxNumBits := [], [], 0;
    }

    /** The bits a symbol of a context needs: length symbols use the length configuration. */
    function NeededBits(ctx: nat, symbol: nat): nat
      reads this
      requires Valid() && ctx < |configs|
    {
      if lz77 && distanceContext != ctx && symbol >= minSymbol then TotalBits(lengthConfig, symbol - minSymbol)
      else TotalBits(configs[ctx], symbol)
    }

    method UpdateMaxNumBits(ctx: nat, symbol: nat)
      requires Valid() && ctx < |configs|
      modifies this`maxNumBits
      ensures maxNumBits ==
              if NeededBits(ctx, symbol) > old(maxNumBits) then NeededBits(ctx, symbol) else old(maxNumBits)
    {
      var cfg, sym := configs[ctx], symbol;
      if lz77 && distanceContext != ctx && symbol >= minSymbol {
        sym := symbol - minSymbol;
        cfg := lengthConfig;
      }
      if sym < cfg.SplitToken() {
        maxNumBits := if maxNumBits > cfg.splitExponent then maxNumBits else cfg.splitExponent;
        return;
      }
      var nExtraBits := ExtraBits(cfg, sym);
      var totalBits := cfg.msbInToken + cfg.lsbInToken + nExtraBits + 1;
      maxNumBits := if maxNumBits > totalBits then maxNumBits else totalBits;
    }

    /** Accounts for every symbol that occurs. */
    method UpdateForSymbols(ctx: nat, counts: seq<nat>)
      requires Valid() && ctx < |configs|
      modifies this`maxNumBits
      ensures maxNumBits >= old(maxNumBits)
      ensures forall v: nat | Freq(counts, v) > 0 :: NeededBits(ctx, v) <= maxNumBits
      ensures maxNumBits == old(maxNumBits) ||
              exists v: nat :: Freq(counts, v) > 0 && NeededBits(ctx, v) == maxNumBits
    {
      for s := 0 to |counts|
        invariant maxNumBits >= old(maxNumBits)
        invariant forall v: nat | v < s && counts[v] > 0 :: NeededBits(ctx, v) <= maxNumBits
        invariant maxNumBits == old(maxNumBits) ||
                  exists v: nat :: Freq(counts, v) > 0 && NeededBits(ctx, v) == maxNumBits
      {
        if counts[s] != 0 {
          UpdateMaxNumBits(ctx, s);
        }
      }
    }

    /** Every symbol that occurs in the first `n` contexts is accounted for. */
    ghost predicate Covers(n: nat)
      reads this
      requires Valid()
    {
      n <= |configs| && n <= |tables| &&
      forall c: nat, v: nat | c < n && Freq(tables[c].d, v) > 0 :: NeededBits(c, v) <= maxNumBits
    }

    /** The maximum is not larger than it has to be. */
    ghost predicate IsReached(n: nat)
      reads this
      requires Valid()
    {
      n <= |configs| && n <= |tables| &&
      (maxNumBits > 0 ==>
         exists c: nat, v: nat :: c < n && Freq(tables[c].d, v) > 0 && NeededBits(c, v) == maxNumBits)
    }

    /** The only symbol of a distribution, or -1. */
    static method DegenerateSymbol(counts: seq<nat>) returns (symbol: int)
      requires counts == Trimmed(counts)
      ensures IsDegenerate(counts, symbol)
    {
      symbol := if counts == [] then 0 else |counts| - 1;
      for s := 0 to if counts == [] then 0 else |counts| - 1
        invariant symbol == if counts == [] then 0 else |counts| - 1
        invariant forall k | 0 <= k < s :: counts[k] == 0
      {
        if counts[s] != 0 {
          return -1;
        }
      }
    }

    /** The tables of the first contexts are those of the histograms in the stream. */
    ghost predicate HasHistograms(s: seq<bool>, pos: nat, n: nat, end: nat)
      reads this
    {
      && |tables| == |degenerateSymbols| == n <= |configs| && Histogram.HistogramsAt(s, pos, n).Some?
      && Histogram.HistogramsAt(s, pos, n).value.end == end
      && forall c | 0 <= c < n ::
           IsContext(Histogram.HistogramsAt(s, pos, n).value.all[c], tables[c], degenerateSymbols[c], logAlphaSize)
    }

    /** One context: its histogram, its part of `maxNumBits`, its alias table. */
    method DecodeOne(br: BitReader, ctx: nat) returns (ok: bool, ghost counts: seq<nat>)
      requires Valid() && br.Valid() && br as object != this
      requires ctx < |configs| && |tables| == ctx && Covers(ctx) && IsReached(ctx)
      modifies br, this`tables, this`degenerateSymbols, this`maxNumBits
      ensures br.Valid()
      ensures var parsed := Histogram.HistogramAt(ToBits(br.data), old(br.Position()));
              (ok <==> parsed.Some? && |parsed.value.counts| <= Pow2(logAlphaSize)) &&
              (ok ==> parsed.value == Histogram.Counted(counts, br.Position()))
      ensures ok ==> |tables| == ctx + 1 && tables[..ctx] == old(tables) && Covers(ctx + 1) && IsReached(ctx + 1)
      ensures ok ==> |degenerateSymbols| == |old(degenerateSymbols)| + 1
                     && degenerateSymbols[..|old(degenerateSymbols)|] == old(degenerateSymbols)
                     && IsContext(counts, tables[ctx], degenerateSymbols[|old(degenerateSymbols)|], logAlphaSize)
    {
      hide Histogram.HistogramAt, IsFilledInOrder, Sum, Trimmed, IsDegenerate, Table.Valid;
      var read;
      ok, read := Histogram.ReadHistogram(br);
      counts := read;
      if !ok || |read| > Pow2(logAlphaSize) {
        return false, counts;
      }
      if Trimmed(read) == [] {
        AllZeroTrimmed(read);
        assert false;
      }
      TrimmedSum(read);
      TrimmedTwice(read);
      read := Trimmed(read);
      UpdateForSymbols(ctx, read);
      var degenerate := DegenerateSymbol(read);
      degenerateSymbols := degenerateSymbols + [degenerate];
      var table := BuildTable(read, logAlphaSize);
      tables := tables + [table];
      assert tables[..ctx] == old(tables) && tables[ctx] == table;
    }

    /** Reads all histograms, and fails exactly if one of them is rejected or has too many symbols. On success every
        table is the alias table of its histogram without the zeros at the end, and `maxNumBits` is the largest
        number of bits that a literal which can occur needs. */
    method DecodeANSCodes(br: BitReader) returns (ok: bool)
      requires Valid() && br.Valid() && br as object != this && tables == [] && degenerateSymbols == []
      requires maxNumBits == 0
      modifies br, this`tables, this`degenerateSymbols, this`maxNumBits
      ensures br.Valid()
      ensures ok <==> Histogram.AreSmall(
                        Histogram.HistogramsAt(ToBits(br.data), old(br.Position()), |configs|), Pow2(logAlphaSize))
      ensures ok ==> HasHistograms(ToBits(br.data), old(br.Position()), |configs|, br.Position())
      ensures ok ==> |tables| == |configs| && Covers(|configs|) && IsReached(|configs|)
      ensures ok ==> forall c | 0 <= c < |tables| ::
                       Sum(tables[c].d) == ANS_TAB_SIZE && |tables[c].d| <= Pow2(logAlphaSize)
    {
      hide Histogram.HistogramAt, Histogram.HistogramsAt, IsContext, NeededBits, Sum, Trimmed, Table.Valid, ToBits;
      ghost var s, start := ToBits(br.data), br.Position();
      NoHistograms(s, start);
      for c := 0 to |configs|
        invariant br.Valid() && |tables| == c && Covers(c) && IsReached(c)
        invariant HasHistograms(s, start, c, br.Position())
        invariant Histogram.AreSmall(Histogram.HistogramsAt(s, start, c), Pow2(logAlphaSize))
      {
        Histogram.HistogramsNext(s, start, c, |configs|, Pow2(logAlphaSize));
        ghost var before, symbols := tables, degenerateSymbols;
        ghost var counts;
        ok, counts := DecodeOne(br, c);
        if !ok {
          return false;
        }
        assert forall k | 0 <= k < c :: tables[k] == before[k] && degenerateSymbols[k] == symbols[k];
      }
      forall c | 0 <= c < |tables| ensures Sum(tables[c].d) == ANS_TAB_SIZE && |tables[c].d| <= Pow2(logAlphaSize) {
        ContextSums(Histogram.HistogramsAt(s, start, |configs|).value.all[c], tables[c], degenerateSymbols[c],
                    logAlphaSize);
      }
      return true;
    }
  }

  lemma NoHistograms(s: seq<bool>, pos: nat)
    ensures Histogram.HistogramsAt(s, pos, 0) == UintConfigs.Some(Histogram.Several([], pos))
  {
  }

  lemma ContextSums(counts: seq<nat>, t: ValidTable, degenerate: int, logAlphaSize: nat)
    requires IsContext(counts, t, degenerate, logAlphaSize)
    ensures Sum(t.d) == ANS_TAB_SIZE && |t.d| <= Pow2(logAlphaSize)
  {
  }

  /** The symbol is the only one, if there is only one, and -1 otherwise. */
  ghost predicate IsDegenerate(counts: seq<nat>, symbol: int) {
    if forall s | 0 <= s < |counts| - 1 :: counts[s] == 0 then symbol == if counts == [] then 0 else |counts| - 1
    else symbol == -1
  }

  /** A context is that of these counts. */
  ghost predicate IsContext(counts: seq<nat>, t: ValidTable, degenerate: int, logAlphaSize: nat) {
    && t.d == Trimmed(counts) && Sum(t.d) == ANS_TAB_SIZE && |t.d| <= |counts| <= Pow2(logAlphaSize)
    && logAlphaSize <= ANS_LOG_TAB_SIZE && t.entrySize == Pow2(ANS_LOG_TAB_SIZE - logAlphaSize)
    && ((forall sym: nat :: Freq(t.d, sym) != ANS_TAB_SIZE) ==> IsFilledInOrder(t.d, t.entries, t.entrySize))
    && IsDegenerate(t.d, degenerate)
  }

  /** `InitAliasTable` on freshly read counts meets all of its assertions. */
  method BuildTable(counts: seq<nat>, logAlphaSize: nat) returns (t: ValidTable)
    requires 5 <= logAlphaSize <= 8 && Sum(counts) == ANS_TAB_SIZE && |counts| <= Pow2(logAlphaSize)
    requires counts == Trimmed(counts) != []
    ensures t.d == counts && t.entrySize == Pow2(ANS_LOG_TAB_SIZE - logAlphaSize)
    ensures (forall sym: nat :: Freq(t.d, sym) != ANS_TAB_SIZE) ==> IsFilledInOrder(t.d, t.entries, t.entrySize)
  {
    var a := new Entry[Pow2(logAlphaSize)](_ => Entry(0, 0, 0, 0, 0));
    InitAliasTable(counts, logAlphaSize, a);
    NormalizedSum(counts);
    var table := Table(counts, a[..], Pow2(ANS_LOG_TAB_SIZE - logAlphaSize));
    assert table.Valid();
    t := table;
  }

  /** What `DecodeANSCodes` covers is what bounds the values that the symbol reader returns. */
  lemma CoveredCode(ans: ANSCode, code: Code)
    requires ans.Valid() && code.Valid() && |ans.tables| == |ans.configs| && ans.Covers(|ans.configs|)
    requires code.tables == ans.tables && code.configs == ans.configs && code.lz77 == ans.lz77
    requires code.minSymbol == ans.minSymbol && code.distanceContext == ans.distanceContext
    ensures BitsCover(code, ans.maxNumBits)
  {
    forall c: nat, v: nat | c < |code.tables| && Freq(code.tables[c].d, v) > 0 && v < code.Threshold()
      ensures TotalBits(code.configs[c], v) <= ans.maxNumBits
    {
      assert ans.NeededBits(c, v) == TotalBits(code.configs[c], v);
    }
  }

  /** The code that a symbol reader gets for an image width. */
  function CodeOf(ans: ANSCode, minLength: nat, multiplier: nat): Code
    reads ans
  {
    Code(ans.tables, ans.configs, ans.lz77, ans.minSymbol, minLength, ans.distanceContext, ans.lengthConfig,
         SpecialDistances(multiplier))
  }

  lemma DecodedIsValid(ans: ANSCode, minLength: nat, multiplier: nat)
    requires ans.Valid() && |ans.tables| == |ans.configs|
    requires forall c | 0 <= c < |ans.tables| :: |ans.tables[c].d| <= Pow2(ans.logAlphaSize)
    requires ans.lz77 ==> ans.distanceContext < |ans.tables| && 0 < minLength < UINT32_LIMIT
    ensures CodeOf(ans, minLength, multiplier).Valid()
  {
    Pow2Monotone(ans.logAlphaSize, 8);
    Pow2Small();
    hide SpecialDistances;
  }

  /** From a successful `DecodeANSCodes` on, every value a fresh reader returns, whatever the bits and the
      contexts, copies included, is below 2^maxNumBits. */
  lemma EveryValueBelow(ans: ANSCode, minLength: nat, multiplier: nat, s: seq<bool>, state: nat, pos: nat,
                        ctxs: seq<nat>)
    requires ans.Valid() && |ans.tables| == |ans.configs| && ans.Covers(|ans.configs|)
    requires forall c | 0 <= c < |ans.tables| :: |ans.tables[c].d| <= Pow2(ans.logAlphaSize)
    requires ans.lz77 ==> ans.distanceContext < |ans.tables| && 0 < minLength < UINT32_LIMIT
    requires forall k | 0 <= k < |ctxs| :: ctxs[k] < |ans.tables|
    ensures var code := CodeOf(ans, minLength, multiplier);
            var st := State(state, pos, [], 0, 0);
            code.Valid() && st.Valid(code) && Contexts(code, ctxs) &&
            AllBelow(ReadMany(code, s, st, ctxs).values, Pow2(ans.maxNumBits))
  {
    var code := CodeOf(ans, minLength, multiplier);
    DecodedIsValid(ans, minLength, multiplier);
    CoveredCode(ans, code);
    hide BitsCover, ReadMany, SpecialDistances, Code.Valid;
    ReadManyBound(code, s, State(state, pos, [], 0, 0), ctxs, ans.maxNumBits);
  }
}
